/** The whole of `expandLocalProcessSubstitutions` (`internal/pshell/local_process_subst.go`).  Running the commands and
    writing their output is not modelled: `merged` and `perServer` are the paths of the results of substitution i, if
    neither running its command nor writing them has failed. */
module ExpandCommand {
  import opened Options
  import opened ProcessSubst
  import opened ShellQuote
  import opened ExpandSubst
  import opened SubstPlaces

  type Merged = nat -> Option<string>
  type PerServer = nat -> Option<seq<string>>

  datatype Expansion =
    | Expanded(line: string)
    | Failed
    | OutOfRange  // the first of no paths is asked for

  /** `+<(...)` has a path per server, `<(...)` a single one. */
  function PathsFor(spec: Spec, i: nat, merged: Merged, perServer: PerServer): (paths: Option<seq<string>>)
    ensures !spec.split ==> paths != Some([])
  {
    if spec.split then perServer(i)
    else
      match merged(i)
      case None => None
      case Some(path) => Some([path])
  }

  function Replacement(spec: Spec, paths: seq<string>): (w: string)
    requires paths != []
    ensures w != "" && w[0] == '\'' && w[|w| - 1] == '\''
  {
    QuotedEnds(paths);
    if spec.split then JoinShellWords(paths) else Quoted(paths[0])
  }

  lemma QuotedEnds(words: seq<string>)
    requires words != []
    ensures JoinShellWords(words) != ""
    ensures JoinShellWords(words)[0] == '\'' && JoinShellWords(words)[|JoinShellWords(words)| - 1] == '\''
  {
    if |words| > 1 {
      JoinStep(words);
      QuotedEnds(words[..|words| - 1]);
    }
  }

  // ---- The loop ----

  /** Split as the shell does, the words are the paths of all servers for `+<(...)`, and the one path for `<(...)`. */
  ghost predicate ReadsAsPaths(spec: Spec, i: nat, merged: Merged, perServer: PerServer, w: string) {
    var words := Words(w, Plain, None, []);
    if spec.split then perServer(i) != None && words == perServer(i)
    else merged(i) != None && words == Some([merged(i).value])
  }

  lemma GivenReads(spec: Spec, i: nat, merged: Merged, perServer: PerServer, w: string)
    requires Given(spec, i, merged, perServer, w)
    ensures ReadsAsPaths(spec, i, merged, perServer, w)
  {
    hide Words, JoinShellWords, Quoted;
    var paths := PathsFor(spec, i, merged, perServer).value;
    JoinRoundTrip(paths);
    OneReads(paths[0]);
  }

  lemma OneReads(path: string)
    ensures Words(Quoted(path), Plain, None, []) == Some([path])
  {
    QuotedReads(path, "", []);
    assert Quoted(path) + "" == Quoted(path) && [] + [path] == [path];
  }

  /** The words that take the place of substitution i. */
  ghost predicate Given(spec: Spec, i: nat, merged: Merged, perServer: PerServer, w: string) {
    match PathsFor(spec, i, merged, perServer)
    case None => false
    case Some(paths) => paths != [] && w == Replacement(spec, paths)
  }

  /** Those of the first n. */
  ghost predicate AllGiven(specs: seq<Spec>, words: seq<string>, n: nat, merged: Merged, perServer: PerServer) {
    n <= |specs| && n <= |words| && forall k :: 0 <= k < n ==> Given(specs[k], k, merged, perServer, words[k])
  }

  /** Substitution k is the first whose paths are missing, and this is why. */
  ghost predicate StopsAt(specs: seq<Spec>, k: nat, merged: Merged, perServer: PerServer, why: Option<seq<string>>) {
    && k < |specs| && PathsFor(specs[k], k, merged, perServer) == why && (why == None || why == Some([]))
    && exists words :: AllGiven(specs, words, k, merged, perServer)
  }

  ghost predicate Stops(command: string, trim: string -> string, merged: Merged, perServer: PerServer,
                        why: Option<seq<string>>) {
    exists spans, specs, k ::
      Parsed(command, trim, spans, specs) && StopsAt(specs, k, merged, perServer, why)
  }

  /** The lines are those of the loop over the command's substitutions. */
  ghost predicate Loop(command: string, trim: string -> string, merged: Merged, perServer: PerServer, spans: seq<Span>,
                       specs: seq<Spec>, words: seq<string>, lines: seq<string>) {
    && Parsed(command, trim, spans, specs) && |words| == |specs| && AllGiven(specs, words, |specs|, merged, perServer)
    && (forall k :: 0 <= k < |specs| ==> ReadsAsPaths(specs[k], k, merged, perServer, words[k]))
    && Turns(lines, Raws(command, spans), words) && lines[0] == command
  }

  /** An unterminated substitution gives an error, and so does one that fails to run or to write its results if all
      before it have results; one that has no results there is out of range; otherwise the loop runs to its end. */
  ghost predicate Outcome(command: string, trim: string -> string, merged: Merged, perServer: PerServer, e: Expansion) {
    match e
    case Failed => Unterminated(command) || Stops(command, trim, merged, perServer, None)
    case OutOfRange => Stops(command, trim, merged, perServer, Some([]))
    case Expanded(line) =>
      exists spans, specs, words, lines ::
        Loop(command, trim, merged, perServer, spans, specs, words, lines) && lines[|specs|] == line
  }

  /** After k turns. */
  ghost predicate Looped(command: string, raws: seq<string>, specs: seq<Spec>, words: seq<string>, lines: seq<string>,
                         k: nat, line: string, merged: Merged, perServer: PerServer) {
    && k <= |specs| == |raws| && Turns(lines, raws[..k], words) && lines[0] == command && lines[k] == line
    && AllGiven(specs, words, k, merged, perServer)
  }

  lemma OneMoreTurn(command: string, raws: seq<string>, specs: seq<Spec>, words: seq<string>, lines: seq<string>,
                    k: nat, line: string, merged: Merged, perServer: PerServer, w: string)
    requires Looped(command, raws, specs, words, lines, k, line, merged, perServer) && k < |specs|
    requires Given(specs[k], k, merged, perServer, w)
    ensures var next := ReplaceFirst(line, raws[k], w);
      Looped(command, raws, specs, words + [w], lines + [next], k + 1, next, merged, perServer)
  {
    hide Given;
    var lines', words', raws' := lines + [ReplaceFirst(line, raws[k], w)], words + [w], raws[..k + 1];
    forall i | 0 <= i < |raws'| ensures Turn(lines', raws', words', i) {
      if i < k {
        assert Turn(lines, raws[..k], words, i);
      }
    }
  }

  method ExpandLocalProcessSubstitutions(command: string, trim: string -> string, merged: Merged, perServer: PerServer)
      returns (expansion: Expansion)
    ensures Outcome(command, trim, merged, perServer, expansion)
  {
    var parsed;
    ghost var spans;
    parsed, spans := ParseLocalProcessSubstitutions(command, trim);
    if parsed.None? {
      assert Unterminated(command);
      return Failed;
    }
    expansion := ReplaceAll(command, trim, merged, perServer, spans, parsed.value);
  }

  method ReplaceAll(command: string, trim: string -> string, merged: Merged, perServer: PerServer,
                    ghost spans: seq<Span>, specs: seq<Spec>) returns (expansion: Expansion)
    requires Parsed(command, trim, spans, specs)
    ensures Outcome(command, trim, merged, perServer, expansion)
  {
    hide Parsed, AllGiven, Turns;
    var line := command;
    ghost var words: seq<string>, lines, raws := [], [command], Raws(command, spans);
    NothingLooped(command, trim, spans, specs, merged, perServer);
    for k := 0 to |specs|
      invariant Looped(command, raws, specs, words, lines, k, line, merged, perServer)
    {
      var spec := specs[k];
      var paths := PathsFor(spec, k, merged, perServer);
      if paths.None? {
        assert StopsAt(specs, k, merged, perServer, None);
        return Failed;
      }
      if |paths.value| == 0 {
        assert paths == Some([]) && StopsAt(specs, k, merged, perServer, Some([]));
        return OutOfRange;
      }
      var replacement := Quoted(paths.value[0]);
      if spec.split {
        replacement := JoinShellWords(paths.value);
      }
      RecordedRaw(command, trim, spans, specs, k);
      OneMoreTurn(command, raws, specs, words, lines, k, line, merged, perServer, replacement);
      line := ReplaceFirst(line, spec.raw, replacement);
      words, lines := words + [replacement], lines + [line];
    }
    AllLooped(command, trim, spans, specs, words, lines, line, merged, perServer);
    return Expanded(line);
  }

  lemma NothingLooped(command: string, trim: string -> string, spans: seq<Span>, specs: seq<Spec>, merged: Merged,
                      perServer: PerServer)
    requires Parsed(command, trim, spans, specs)
    ensures Looped(command, Raws(command, spans), specs, [], [command], 0, command, merged, perServer)
  {
  }

  lemma AllLooped(command: string, trim: string -> string, spans: seq<Span>, specs: seq<Spec>, words: seq<string>,
                  lines: seq<string>, line: string, merged: Merged, perServer: PerServer)
    requires Parsed(command, trim, spans, specs)
    requires Looped(command, Raws(command, spans), specs, words, lines, |specs|, line, merged, perServer)
    ensures Outcome(command, trim, merged, perServer, Expanded(line))
  {
    hide Parsed, Given, ReadsAsPaths;
    var raws := Raws(command, spans);
    assert raws[..|specs|] == raws;
    forall k | 0 <= k < |specs| ensures ReadsAsPaths(specs[k], k, merged, perServer, words[k]) {
      GivenReads(specs[k], k, merged, perServer, words[k]);
    }
    assert Loop(command, trim, merged, perServer, spans, specs, words, lines);
  }

  lemma RecordedRaw(command: string, trim: string -> string, spans: seq<Span>, specs: seq<Spec>, k: nat)
    requires Parsed(command, trim, spans, specs) && k < |specs|
    ensures |spans| == |specs| && specs[k].raw == Raws(command, spans)[k]
  {
    assert SpecOf(command, spans[k], specs[k], trim);
  }

  // ---- The outcome is determined ----

  lemma SameWords(specs: seq<Spec>, words: seq<string>, words': seq<string>, n: nat, merged: Merged,
                  perServer: PerServer)
    requires AllGiven(specs, words, n, merged, perServer) && AllGiven(specs, words', n, merged, perServer)
    ensures words[..n] == words'[..n]
  {
    forall k | 0 <= k < n ensures words[k] == words'[k] {
      assert Given(specs[k], k, merged, perServer, words[k]) && Given(specs[k], k, merged, perServer, words'[k]);
    }
  }

  lemma {:induction false} SameLines(lines: seq<string>, lines': seq<string>, raws: seq<string>, words: seq<string>,
                                     k: nat)
    requires Turns(lines, raws, words) && Turns(lines', raws, words) && lines[0] == lines'[0] && k <= |raws|
    ensures lines[k] == lines'[k]
  {
    if k > 0 {
      SameLines(lines, lines', raws, words, k - 1);
      assert Turn(lines, raws, words, k - 1) && Turn(lines', raws, words, k - 1);
    }
  }

  lemma GivenHasPaths(specs: seq<Spec>, words: seq<string>, n: nat, k: nat, merged: Merged, perServer: PerServer)
    requires AllGiven(specs, words, n, merged, perServer) && k < n
    ensures PathsFor(specs[k], k, merged, perServer) != None && PathsFor(specs[k], k, merged, perServer) != Some([])
  {
    assert Given(specs[k], k, merged, perServer, words[k]);
  }

  /** Where the loop stops it has not run to its end, nor does it stop anywhere else. */
  lemma StopsOnce(specs: seq<Spec>, k: nat, j: nat, merged: Merged, perServer: PerServer, why: Option<seq<string>>,
                  words: seq<string>)
    requires StopsAt(specs, k, merged, perServer, why) && AllGiven(specs, words, j, merged, perServer)
    ensures j <= k
  {
    if k < j {
      GivenHasPaths(specs, words, j, k, merged, perServer);
    }
  }

  lemma LoopOnce(command: string, trim: string -> string, merged: Merged, perServer: PerServer, spans: seq<Span>,
                 specs: seq<Spec>, words: seq<string>, line: string) returns (lines: seq<string>)
    requires Parsed(command, trim, spans, specs) && |words| == |specs|
    requires AllGiven(specs, words, |specs|, merged, perServer)
    requires Outcome(command, trim, merged, perServer, Expanded(line))
    ensures Loop(command, trim, merged, perServer, spans, specs, words, lines) && lines[|specs|] == line
  {
    hide Parsed, Given, Turn, AllGiven;
    var spans', specs', words';
    spans', specs', words', lines :|
      Loop(command, trim, merged, perServer, spans', specs', words', lines) && lines[|specs'|] == line;
    ParsedOnce(command, trim, spans, specs, spans', specs');
    SameWords(specs, words, words', |specs|, merged, perServer);
    assert words[..|specs|] == words && words'[..|specs|] == words';
  }

  lemma StopsTerminates(command: string, trim: string -> string, merged: Merged, perServer: PerServer,
                        why: Option<seq<string>>)
    requires Stops(command, trim, merged, perServer, why)
    ensures !Unterminated(command)
  {
    hide Parsed, StopsAt, Unterminated;
    var spans, specs, k :| Parsed(command, trim, spans, specs) && StopsAt(specs, k, merged, perServer, why);
    ParsedTerminates(command, trim, spans, specs);
  }

  lemma StopsOrExpands(command: string, trim: string -> string, merged: Merged, perServer: PerServer,
                       why: Option<seq<string>>, line: string)
    requires Stops(command, trim, merged, perServer, why)
    ensures !Outcome(command, trim, merged, perServer, Expanded(line))
  {
    hide Parsed, AllGiven, Turns;
    var spans, specs, k :| Parsed(command, trim, spans, specs) && StopsAt(specs, k, merged, perServer, why);
    forall spans', specs', words, lines ensures !Loop(command, trim, merged, perServer, spans', specs', words, lines) {
      if Loop(command, trim, merged, perServer, spans', specs', words, lines) {
        ParsedOnce(command, trim, spans, specs, spans', specs');
        StopsOnce(specs, k, |specs|, merged, perServer, why, words);
      }
    }
  }

  lemma StopsForOneReason(command: string, trim: string -> string, merged: Merged, perServer: PerServer)
    ensures !(Stops(command, trim, merged, perServer, None) && Stops(command, trim, merged, perServer, Some([])))
  {
    hide Parsed, AllGiven;
    if Stops(command, trim, merged, perServer, None) && Stops(command, trim, merged, perServer, Some([])) {
      var spans, specs, k :| Parsed(command, trim, spans, specs) && StopsAt(specs, k, merged, perServer, None);
      var spans', specs', j :| Parsed(command, trim, spans', specs') && StopsAt(specs', j, merged, perServer, Some([]));
      ParsedOnce(command, trim, spans, specs, spans', specs');
      var words :| AllGiven(specs, words, k, merged, perServer);
      var words' :| AllGiven(specs, words', j, merged, perServer);
      StopsOnce(specs, k, j, merged, perServer, None, words');
      StopsOnce(specs, j, k, merged, perServer, Some([]), words);
    }
  }

  lemma ExpandsOnce(command: string, trim: string -> string, merged: Merged, perServer: PerServer, line: string,
                    other: Expansion)
    requires Outcome(command, trim, merged, perServer, Expanded(line))
    requires Outcome(command, trim, merged, perServer, other)
    ensures other == Expanded(line)
  {
    hide Parsed, AllGiven, Turn, Unterminated, Stops;
    var spans, specs, words, lines :|
      Loop(command, trim, merged, perServer, spans, specs, words, lines) && lines[|specs|] == line;
    ParsedTerminates(command, trim, spans, specs);
    match other
    case Failed => StopsOrExpands(command, trim, merged, perServer, None, line);
    case OutOfRange => StopsOrExpands(command, trim, merged, perServer, Some([]), line);
    case Expanded(_) =>
      var lines' := LoopOnce(command, trim, merged, perServer, spans, specs, words, other.line);
      LinesFit(command, trim, merged, perServer, spans, specs, words, lines);
      SameLines(lines, lines', Raws(command, spans), words, |specs|);
  }

  /** The description determines what comes out. */
  lemma OutcomeOnce(command: string, trim: string -> string, merged: Merged, perServer: PerServer, a: Expansion,
                    b: Expansion)
    requires Outcome(command, trim, merged, perServer, a) && Outcome(command, trim, merged, perServer, b)
    ensures a == b
  {
    hide Stops, Unterminated, Loop;
    if a.Expanded? {
      ExpandsOnce(command, trim, merged, perServer, a.line, b);
    } else if b.Expanded? {
      ExpandsOnce(command, trim, merged, perServer, b.line, a);
    } else if Stops(command, trim, merged, perServer, Some([])) {
      StopsForOneReason(command, trim, merged, perServer);
      StopsTerminates(command, trim, merged, perServer, Some([]));
    }
  }

  lemma LinesFit(command: string, trim: string -> string, merged: Merged, perServer: PerServer, spans: seq<Span>,
                 specs: seq<Spec>, words: seq<string>, lines: seq<string>)
    requires Loop(command, trim, merged, perServer, spans, specs, words, lines)
    ensures |words| == |specs| == |spans| == |Raws(command, spans)| && |lines| == |specs| + 1
  {
  }

  // ---- When the substitutions are replaced where they stand ----

  lemma SpanAt(command: string, spans: seq<Span>, specs: seq<Spec>, trim: string -> string, k: nat)
    requires Listed(command, spans, specs, trim) && k < |spans|
    ensures InLine(command, spans, k) && command[spans[k].start] != '\'' && IsText(Raw(command, spans[k]))
  {
    assert SpecOf(command, spans[k], specs[k], trim);
    OpenerIsPlain(command, spans[k].start);
    CloserIsPlain(command, ParenOf(command, spans[k].start), spans[k].end);
    if k > 0 {
      assert spans[k - 1].end < spans[k].start;
    }
  }

  lemma LoopIsQuotable(command: string, trim: string -> string, merged: Merged, perServer: PerServer, spans: seq<Span>,
                       specs: seq<Spec>, words: seq<string>, lines: seq<string>)
    requires Loop(command, trim, merged, perServer, spans, specs, words, lines)
    ensures AllQuotable(command, spans, words)
  {
    forall k | 0 <= k < |spans| ensures Quotable(command, spans, words, k) {
      SpanAt(command, spans, specs, trim, k);
      assert Given(specs[k], k, merged, perServer, words[k]);
    }
  }

  /** The line is as it should be after every turn exactly when no substitution has its text occurring before its place
      in the line as it is then. */
  lemma EveryTurnInPlaceIff(command: string, trim: string -> string, merged: Merged, perServer: PerServer,
                            spans: seq<Span>, specs: seq<Spec>, words: seq<string>, lines: seq<string>)
    requires Loop(command, trim, merged, perServer, spans, specs, words, lines)
    ensures SameUpTo(lines, Parts(command, spans, words), |spans|)
       <==> NoCopies(Parts(command, spans, words), Raws(command, spans), Places(command, spans, words), |spans|)
  {
    LoopIsQuotable(command, trim, merged, perServer, spans, specs, words, lines);
    MeantToBe(command, spans, words);
    EachTurnInPlaceIff(lines, Parts(command, spans, words), Raws(command, spans), words, Places(command, spans, words),
                       |spans|);
  }

  /** The command that comes out has every substitution replaced where it stood under the same condition. */
  lemma ExpandedInPlaceIff(command: string, trim: string -> string, merged: Merged, perServer: PerServer,
                           spans: seq<Span>, specs: seq<Spec>, words: seq<string>, line: string)
    requires Parsed(command, trim, spans, specs) && |words| == |specs|
    requires AllGiven(specs, words, |specs|, merged, perServer)
    requires Outcome(command, trim, merged, perServer, Expanded(line))
    ensures |spans| == |specs|
    ensures line == Partly(command, spans, words, |spans|)
       <==> NoCopies(Parts(command, spans, words), Raws(command, spans), Places(command, spans, words), |spans|)
  {
    hide Parsed, AllGiven, Outcome, Turns, PutInPlace;
    var lines := LoopOnce(command, trim, merged, perServer, spans, specs, words, line);
    LinesFit(command, trim, merged, perServer, spans, specs, words, lines);
    LoopIsQuotable(command, trim, merged, perServer, spans, specs, words, lines);
    MeantToBe(command, spans, words);
    EndsInPlaceIff(lines, Parts(command, spans, words), Raws(command, spans), words, Places(command, spans, words));
  }

  /** The words hold neither `<` nor `)` and do not occur in the text of a later substitution. */
  ghost predicate AllForeign(command: string, spans: seq<Span>, words: seq<string>) {
    forall h, k :: 0 <= h < k < |spans| && h < |words| ==> Foreign(Raw(command, spans[k]), words[h])
  }

  /** Paths without `<` and `)` give such words. */
  lemma PlainPathsGivePlainWords(spec: Spec, paths: seq<string>)
    requires paths != [] && forall p <- paths :: '<' !in p && ')' !in p
    ensures PlainPaths(Replacement(spec, paths))
  {
    JoinKeepsOut(paths, '<');
    JoinKeepsOut(paths, ')');
    assert paths[0] in paths;
    EscapedKeepsOut(paths[0], '<');
    EscapedKeepsOut(paths[0], ')');
  }

  /** The same on the command as typed, for words that no substitution mentions, such as the paths of a new directory:
      exactly when no substitution has its text standing before it, clear of the substitutions before it. */
  lemma TypedInPlaceIff(command: string, trim: string -> string, merged: Merged, perServer: PerServer, spans: seq<Span>,
                        specs: seq<Spec>, words: seq<string>, line: string)
    requires Parsed(command, trim, spans, specs) && |words| == |specs|
    requires AllGiven(specs, words, |specs|, merged, perServer)
    requires Outcome(command, trim, merged, perServer, Expanded(line))
    requires AllForeign(command, spans, words)
    ensures |spans| == |specs|
    ensures line == Partly(command, spans, words, |spans|)
       <==> forall k :: 0 <= k < |spans| ==> !CopyInCommand(command, spans, k)
  {
    hide Parsed, AllGiven, Outcome, Turns, Partly, CopyInCommand, EarlierCopy, IsText, Foreign, Loop, Raw;
    var lines := LoopOnce(command, trim, merged, perServer, spans, specs, words, line);
    LoopIsQuotable(command, trim, merged, perServer, spans, specs, words, lines);
    ExpandedInPlaceIff(command, trim, merged, perServer, spans, specs, words, line);
    var parts, raws, places := Parts(command, spans, words), Raws(command, spans), Places(command, spans, words);
    forall k: nat | k < |spans| ensures NoCopyBefore(parts, raws, places, k) <==> !CopyInCommand(command, spans, k) {
      TextAt(command, trim, spans, specs, k);
      CopyIsInCommand(command, spans, words, k);
    }
  }

  lemma TextAt(command: string, trim: string -> string, spans: seq<Span>, specs: seq<Spec>, k: nat)
    requires Parsed(command, trim, spans, specs) && k < |spans|
    ensures IsText(Raw(command, spans[k]))
  {
    SpanAt(command, spans, specs, trim, k);
  }
}
