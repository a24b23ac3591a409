/** The scanner for local process substitutions, `internal/pshell/local_process_subst.go`: `<(command)` and
    `+<(command)` outside quotes. */
module ProcessSubst {
  import opened Options

  // ---- Quoting, as one left-to-right automaton ----

  datatype Quote = Plain | PlainEscape | Single | Double | DoubleEscape

  function NextQuote(q: Quote, c: char): Quote {
    match q
    case Plain => if c == '\\' then PlainEscape else if c == '\'' then Single else if c == '\"' then Double else Plain
    case PlainEscape => Plain
    case Single => if c == '\'' then Plain else Single
    case Double => if c == '\\' then DoubleEscape else if c == '\"' then Plain else Double
    case DoubleEscape => Double
  }

  /** The quoting of the character at i. */
  function QuoteAt(s: string, i: nat): Quote
    requires i <= |s|
  {
    if i == 0 then Plain else NextQuote(QuoteAt(s, i - 1), s[i - 1])
  }

  // ---- What a substitution is ----

  /** Where the parenthesis of `<(` or `+<(` would be. */
  function ParenOf(s: string, i: nat): nat {
    if i < |s| && s[i] == '+' then i + 2 else i + 1
  }

  predicate StartsAt(s: string, i: nat) {
    || (i + 3 <= |s| && s[i] == '+' && s[i + 1] == '<' && s[i + 2] == '(')
    || (i + 2 <= |s| && s[i] == '<' && s[i + 1] == '(')
  }

  /** An opener: unquoted and unescaped. */
  predicate Opener(s: string, i: nat) {
    StartsAt(s, i) && QuoteAt(s, i) == Plain
  }

  function Weight(s: string, k: nat): int
    requires k < |s|
  {
    if QuoteAt(s, k) != Plain then 0 else if s[k] == '(' then 1 else if s[k] == ')' then -1 else 0
  }

  /** Unquoted opening minus closing parentheses in s[from..to]. */
  function Depth(s: string, from: nat, to: nat): int
    requires from <= to <= |s|
  {
    if from == to then 0 else Depth(s, from, to - 1) + Weight(s, to - 1)
  }

  /** The parenthesis at `paren` is first balanced by the one at `end`. */
  ghost predicate Closes(s: string, paren: nat, end: nat) {
    && paren < end < |s|
    && Depth(s, paren, end + 1) == 0
    && forall k :: paren < k <= end ==> Depth(s, paren, k) > 0
  }

  ghost predicate Terminated(s: string, i: nat) {
    exists end: nat :: Closes(s, ParenOf(s, i), end)
  }

  lemma DepthSplits(s: string, a: nat, b: nat, c: nat)
    requires a <= b <= c <= |s|
    ensures Depth(s, a, c) == Depth(s, a, b) + Depth(s, b, c)
  {
    if b < c {
      DepthSplits(s, a, b, c - 1);
    }
  }

  lemma CloserIsPlain(s: string, paren: nat, end: nat)
    requires Closes(s, paren, end)
    ensures s[end] == ')' && QuoteAt(s, end) == Plain && QuoteAt(s, end + 1) == Plain
  {
    assert Depth(s, paren, end) > 0;
  }

  lemma OpenerIsPlain(s: string, i: nat)
    requires Opener(s, i)
    ensures ParenOf(s, i) < |s| && s[ParenOf(s, i)] == '('
    ensures QuoteAt(s, ParenOf(s, i)) == Plain && QuoteAt(s, ParenOf(s, i) + 1) == Plain
    ensures Depth(s, ParenOf(s, i), ParenOf(s, i) + 1) == 1
  {
    if s[i] == '+' {
      assert QuoteAt(s, i + 1) == Plain && QuoteAt(s, i + 2) == Plain;
    } else {
      assert QuoteAt(s, i + 1) == Plain;
    }
  }

  /** Depth moves by one at a time, so on its way below zero it passes zero. */
  lemma {:induction false} FirstBalance(s: string, paren: nat, at: nat, past: nat)
    requires paren < at < past <= |s| && Depth(s, paren, past) <= 0
    requires forall k :: paren < k <= at ==> Depth(s, paren, k) > 0
    ensures exists end: nat :: Closes(s, paren, end)
    decreases past - at
  {
    if Depth(s, paren, at + 1) <= 0 {
      assert Closes(s, paren, at);
    } else {
      FirstBalance(s, paren, at + 1, past);
    }
  }

  /** Whatever opens within a balanced substitution is itself balanced. */
  lemma NestedTerminates(s: string, i: nat, end: nat, k: nat)
    requires Opener(s, i) && Closes(s, ParenOf(s, i), end) && Opener(s, k) && i <= k <= end
    ensures Terminated(s, k)
  {
    var outer, inner := ParenOf(s, i), ParenOf(s, k);
    OpenerIsPlain(s, i);
    OpenerIsPlain(s, k);
    CloserIsPlain(s, outer, end);
    if inner > outer {
      assert inner < end;
      DepthSplits(s, outer, inner, end + 1);
      assert Depth(s, outer, inner) > 0;
      FirstBalance(s, inner, inner + 1, end + 1);
    } else {
      assert inner == outer;
    }
  }

  // ---- The scanners ----

  datatype Spec = Spec(raw: string, command: string, split: bool)
  datatype Span = Span(start: nat, end: nat)
  /** The scanners keep the quoting in three flags. */
  ghost predicate FlagsShow(q: Quote, inSingle: bool, inDouble: bool, escaped: bool) {
    match q
    case Plain => !inSingle && !inDouble && !escaped
    case PlainEscape => !inSingle && !inDouble && escaped
    case Single => inSingle && !inDouble && !escaped
    case Double => !inSingle && inDouble && !escaped
    case DoubleEscape => !inSingle && inDouble && escaped
  }

  /** readBalancedCommand, for a body that starts right after an unquoted parenthesis. */
  method ReadBalancedCommand(command: string, start: nat, ghost paren: nat) returns (body: Option<string>, end: nat)
    requires paren + 1 == start <= |command| && QuoteAt(command, start) == Plain && Depth(command, paren, start) == 1
    ensures body.Some? ==> Closes(command, paren, end) && body.value == command[start..end]
    ensures body.None? ==> forall e: nat :: !Closes(command, paren, e)
  {
    var depth := 1;
    var inSingle, inDouble, escaped := false, false, false;
    var i := start;
    while i < |command|
      invariant start <= i <= |command| && FlagsShow(QuoteAt(command, i), inSingle, inDouble, escaped)
      invariant depth == Depth(command, paren, i)
      invariant forall k :: start <= k <= i ==> Depth(command, paren, k) > 0
    {
      var ch := command[i];
      assert Depth(command, paren, i + 1) == depth + Weight(command, i);
      if escaped {
        escaped := false;
      } else if inSingle {
        inSingle := ch != '\'';
      } else if inDouble {
        if ch == '\\' {
          escaped := true;
        } else if ch == '\"' {
          inDouble := false;
        }
      } else {
        match ch
        case '\\' => escaped := true;
        case '\'' => inSingle := true;
        case '\"' => inDouble := true;
        case '(' => depth := depth + 1;
        case ')' =>
          depth := depth - 1;
          if depth == 0 {
            return Some(command[start..i]), i;
          }
        case _ =>
      }
      i := i + 1;
    }
    return None, 0;
  }

  datatype Read = Nothing | Unclosed | Found(spec: Spec, end: nat)

  /** readLocalProcessSubstitution at an unquoted position.  The trimming of the command text is the caller's. */
  method ReadLocalProcessSubstitution(command: string, start: nat, trim: string -> string) returns (r: Read)
    requires start < |command| && QuoteAt(command, start) == Plain
    ensures r.Nothing? <==> !StartsAt(command, start)
    ensures r.Unclosed? ==> Opener(command, start) && !Terminated(command, start)
    ensures r.Found? ==> SpecOf(command, Span(start, r.end), r.spec, trim)
  {
    var split, open := false, start;
    if start + 3 <= |command| && command[start] == '+' && command[start + 1] == '<' && command[start + 2] == '(' {
      split, open := true, start + 2;
    } else if start + 2 <= |command| && command[start] == '<' && command[start + 1] == '(' {
      open := start + 1;
    } else {
      return Nothing;
    }
    OpenerIsPlain(command, start);
    assert open == ParenOf(command, start);
    var body, end := ReadBalancedCommand(command, open + 1, open);
    if body.None? {
      return Unclosed;
    }
    return Found(Spec(command[start..end + 1], trim(body.value), split), end);
  }

  /** The recorded text, command and kind belong to a balanced substitution at that place. */
  ghost predicate SpecOf(command: string, span: Span, spec: Spec, trim: string -> string) {
    && Opener(command, span.start)
    && Closes(command, ParenOf(command, span.start), span.end)
    && spec == Spec(command[span.start..span.end + 1], trim(command[ParenOf(command, span.start) + 1..span.end]),
      command[span.start] == '+')
  }

  ghost predicate Covered(spans: seq<Span>, i: nat) {
    exists k :: 0 <= k < |spans| && spans[k].start <= i <= spans[k].end
  }

  /** In order, disjoint, each one what it is recorded as. */
  ghost predicate Listed(command: string, spans: seq<Span>, specs: seq<Spec>, trim: string -> string) {
    && |spans| == |specs|
    && (forall k :: 0 <= k < |spans| ==> SpecOf(command, spans[k], specs[k], trim))
    && (forall j, k :: 0 <= j < k < |spans| ==> spans[j].end < spans[k].start)
  }

  /** The spans are the substitutions of the command: each is one, in order, and nothing that opens lies outside
      them. */
  ghost predicate Parsed(command: string, trim: string -> string, spans: seq<Span>, specs: seq<Spec>) {
    && Listed(command, spans, specs, trim)
    && forall i :: 0 <= i < |command| && Opener(command, i) ==> Covered(spans, i)
  }

  /** Something that opens is never closed. */
  ghost predicate Unterminated(command: string) {
    exists i :: NeverCloses(command, i)
  }

  ghost predicate NeverCloses(command: string, i: int) {
    0 <= i < |command| && Opener(command, i) && !Terminated(command, i)
  }

  /** The scan has dealt with every opener before i. */
  ghost predicate ScannedTo(command: string, spans: seq<Span>, specs: seq<Spec>, trim: string -> string, i: nat) {
    && Listed(command, spans, specs, trim)
    && (spans != [] ==> spans[|spans| - 1].end < i)
    && forall k :: 0 <= k < i && Opener(command, k) ==> Covered(spans, k)
  }

  /** Sound and complete: the substitutions are found in order, nothing that opens lies outside them, and the scan
      fails exactly when something is never closed. */
  method ParseLocalProcessSubstitutions(command: string, trim: string -> string)
    returns (specs: Option<seq<Spec>>, ghost spans: seq<Span>)
    ensures specs.Some? ==> Parsed(command, trim, spans, specs.value)
    ensures specs.None? <==> Unterminated(command)
  {
    hide ScannedTo, Parsed, Terminated, Opener;
    var found := [];
    spans := [];
    var inSingle, inDouble, escaped := false, false, false;
    var i := 0;
    NothingScanned(command, trim);
    while i < |command|
      invariant 0 <= i <= |command| && FlagsShow(QuoteAt(command, i), inSingle, inDouble, escaped)
      invariant ScannedTo(command, spans, found, trim, i)
    {
      var here := i;
      i := i + 1;
      var skip;
      ghost var q := QuoteAt(command, here);
      skip, inSingle, inDouble, escaped := PassQuoting(q, command[here], inSingle, inDouble, escaped);
      if skip {
        NoOpenerHere(command, here);
        Skips(command, spans, found, trim, here);
        continue;
      }
      var ok;
      ok, found, spans, i := ReadHere(command, trim, here, found, spans);
      if !ok {
        return None, spans;
      }
    }
    AllTerminated(command, spans, found, trim);
    return Some(found), spans;
  }

  /** At an unquoted character: a substitution that starts there is recorded, and the scan goes on behind it. */
  method ReadHere(command: string, trim: string -> string, here: nat, found: seq<Spec>, ghost spans: seq<Span>)
      returns (ok: bool, found': seq<Spec>, ghost spans': seq<Span>, next: nat)
    requires here < |command| && QuoteAt(command, here) == Plain == QuoteAt(command, here + 1)
    requires ScannedTo(command, spans, found, trim, here)
    ensures !ok ==> NeverCloses(command, here)
    ensures ok ==>
      here < next <= |command| && QuoteAt(command, next) == Plain && ScannedTo(command, spans', found', trim, next)
  {
    ok, found', spans', next := true, found, spans, here + 1;
    var r := ReadLocalProcessSubstitution(command, here, trim);
    match r
    case Unclosed =>
      ok := false;
    case Nothing =>
      Skips(command, spans, found, trim, here);
    case Found(spec, end) =>
      Extends(command, spans, found, trim, here, end, spec);
      CloserIsPlain(command, ParenOf(command, here), end);
      found', spans', next := found + [spec], spans + [Span(here, end)], end + 1;
  }

  /** The branches that only keep track of quotes and escapes; the others start at an unquoted character. */
  method PassQuoting(ghost q: Quote, ch: char, inSingle: bool, inDouble: bool, escaped: bool)
      returns (skip: bool, inSingle': bool, inDouble': bool, escaped': bool)
    requires FlagsShow(q, inSingle, inDouble, escaped)
    ensures FlagsShow(NextQuote(q, ch), inSingle', inDouble', escaped')
    ensures skip <==> q != Plain || ch == '\\' || ch == '\'' || ch == '\"'
  {
    skip, inSingle', inDouble', escaped' := true, inSingle, inDouble, escaped;
    if escaped {
      escaped' := false;
      return;
    }
    if inSingle {
      inSingle' := ch != '\'';
      return;
    }
    if inDouble {
      if ch == '\\' {
        escaped' := true;
      } else if ch == '\"' {
        inDouble' := false;
      }
      return;
    }
    if ch == '\\' {
      escaped' := true;
      return;
    }
    if ch == '\'' {
      inSingle' := true;
      return;
    }
    if ch == '\"' {
      inDouble' := true;
      return;
    }
    skip := false;
  }

  lemma NoOpenerHere(command: string, i: nat)
    requires i < |command|
    requires QuoteAt(command, i) != Plain || command[i] == '\\' || command[i] == '\'' || command[i] == '\"'
    ensures !Opener(command, i)
  {
  }

  lemma NothingScanned(command: string, trim: string -> string)
    ensures ScannedTo(command, [], [], trim, 0)
  {
  }

  lemma Skips(command: string, spans: seq<Span>, specs: seq<Spec>, trim: string -> string, i: nat)
    requires ScannedTo(command, spans, specs, trim, i) && !Opener(command, i)
    ensures ScannedTo(command, spans, specs, trim, i + 1)
  {
  }

  lemma EndsBefore(command: string, spans: seq<Span>, specs: seq<Spec>, trim: string -> string, i: nat, j: nat)
    requires ScannedTo(command, spans, specs, trim, i) && j < |spans|
    ensures spans[j].end < i
  {
    if j < |spans| - 1 {
      assert SpecOf(command, spans[|spans| - 1], specs[|spans| - 1], trim);
      assert spans[j].end < spans[|spans| - 1].start < spans[|spans| - 1].end;
    }
  }

  lemma ListedMore(command: string, spans: seq<Span>, specs: seq<Spec>, trim: string -> string, span: Span, spec: Spec)
    requires Listed(command, spans, specs, trim) && SpecOf(command, span, spec, trim)
    requires forall j :: 0 <= j < |spans| ==> spans[j].end < span.start
    ensures Listed(command, spans + [span], specs + [spec], trim)
  {
    var spans', specs' := spans + [span], specs + [spec];
    forall k | 0 <= k < |spans'|
      ensures SpecOf(command, spans'[k], specs'[k], trim)
    {
      if k < |spans| {
        assert spans'[k] == spans[k] && specs'[k] == specs[k];
      } else {
        assert spans'[k] == span && specs'[k] == spec;
      }
    }
  }

  lemma Extends(command: string, spans: seq<Span>, specs: seq<Spec>, trim: string -> string, i: nat, end: nat,
                spec: Spec)
    requires ScannedTo(command, spans, specs, trim, i) && SpecOf(command, Span(i, end), spec, trim)
    ensures ScannedTo(command, spans + [Span(i, end)], specs + [spec], trim, end + 1)
  {
    forall j | 0 <= j < |spans|
      ensures spans[j].end < i
    {
      EndsBefore(command, spans, specs, trim, i, j);
    }
    ListedMore(command, spans, specs, trim, Span(i, end), spec);
    CoveredMore(spans, Span(i, end));
  }

  lemma CoveredMore(spans: seq<Span>, last: Span)
    ensures forall k: nat :: Covered(spans + [last], k) <==> Covered(spans, k) || last.start <= k <= last.end
  {
    var more := spans + [last];
    forall k: nat
      ensures Covered(more, k) <==> Covered(spans, k) || last.start <= k <= last.end
    {
      if Covered(spans, k) {
        var j :| 0 <= j < |spans| && spans[j].start <= k <= spans[j].end;
        assert more[j] == spans[j];
      }
      if last.start <= k <= last.end {
        assert more[|spans|] == last;
      }
    }
  }

  lemma AllTerminated(command: string, spans: seq<Span>, specs: seq<Spec>, trim: string -> string)
    requires ScannedTo(command, spans, specs, trim, |command|)
    ensures Parsed(command, trim, spans, specs) && !Unterminated(command)
  {
    ParsedTerminates(command, trim, spans, specs);
  }

  // ---- The substitutions of a command are determined ----

  lemma ParsedTerminates(command: string, trim: string -> string, spans: seq<Span>, specs: seq<Spec>)
    requires Parsed(command, trim, spans, specs)
    ensures !Unterminated(command)
  {
    forall k: nat | k < |command| && Opener(command, k)
      ensures Terminated(command, k)
    {
      var j :| 0 <= j < |spans| && spans[j].start <= k <= spans[j].end;
      assert SpecOf(command, spans[j], specs[j], trim);
      NestedTerminates(command, spans[j].start, spans[j].end, k);
    }
  }

  /** A span that starts behind the first n of the others starts no earlier than the next of them. */
  lemma NextStartsBefore(command: string, trim: string -> string, spans: seq<Span>, specs: seq<Spec>,
                         others: seq<Span>, theirs: seq<Spec>, n: nat)
    requires Parsed(command, trim, spans, specs) && Parsed(command, trim, others, theirs)
    requires n < |spans| && spans[..n] <= others
    ensures n < |others| && others[n].start <= spans[n].start
  {
    hide Parsed;
    StartIsCovered(command, trim, spans, specs, others, theirs, n);
    var j :| 0 <= j < |others| && others[j].start <= spans[n].start <= others[j].end;
    if j < n {
      assert others[j] == spans[..n][j] == spans[j];
      SpansAscend(command, trim, spans, specs, j, n);
    } else if n < j {
      SpansAscend(command, trim, others, theirs, n, j);
    }
  }

  lemma StartIsCovered(command: string, trim: string -> string, spans: seq<Span>, specs: seq<Spec>,
                       others: seq<Span>, theirs: seq<Spec>, n: nat)
    requires Parsed(command, trim, spans, specs) && Parsed(command, trim, others, theirs) && n < |spans|
    ensures Covered(others, spans[n].start)
  {
    hide Opener, Closes, Covered;
    assert SpecOf(command, spans[n], specs[n], trim);
    OpenerIsPlain(command, spans[n].start);
  }

  lemma SpansAscend(command: string, trim: string -> string, spans: seq<Span>, specs: seq<Spec>, j: nat, k: nat)
    requires Parsed(command, trim, spans, specs) && j < k < |spans|
    ensures spans[j].start <= spans[j].end < spans[k].start
  {
    hide Opener, Covered, Depth;
    assert SpecOf(command, spans[j], specs[j], trim);
  }

  lemma ClosesOnce(s: string, paren: nat, end: nat, end': nat)
    requires Closes(s, paren, end) && Closes(s, paren, end')
    ensures end == end'
  {
  }

  lemma {:induction false} SameSpans(command: string, trim: string -> string, spans: seq<Span>, specs: seq<Spec>,
                                     others: seq<Span>, theirs: seq<Spec>, n: nat)
    requires Parsed(command, trim, spans, specs) && Parsed(command, trim, others, theirs) && n <= |spans|
    ensures spans[..n] <= others
  {
    hide Parsed, Closes, Opener;
    if n > 0 {
      SameSpans(command, trim, spans, specs, others, theirs, n - 1);
      NextStartsBefore(command, trim, spans, specs, others, theirs, n - 1);
      assert others[..n - 1] == spans[..n - 1];
      NextStartsBefore(command, trim, others, theirs, spans, specs, n - 1);
      SameEnd(command, trim, spans, specs, others, theirs, n - 1);
      assert spans[..n] == spans[..n - 1] + [spans[n - 1]];
    }
  }

  lemma SameEnd(command: string, trim: string -> string, spans: seq<Span>, specs: seq<Spec>, others: seq<Span>,
                theirs: seq<Spec>, k: nat)
    requires Parsed(command, trim, spans, specs) && Parsed(command, trim, others, theirs)
    requires k < |spans| && k < |others| && spans[k].start == others[k].start
    ensures spans[k] == others[k] && specs[k] == theirs[k]
  {
    hide Opener, Closes;
    assert SpecOf(command, spans[k], specs[k], trim) && SpecOf(command, others[k], theirs[k], trim);
    ClosesOnce(command, ParenOf(command, spans[k].start), spans[k].end, others[k].end);
  }

  /** A command has one list of substitutions. */
  lemma ParsedOnce(command: string, trim: string -> string, spans: seq<Span>, specs: seq<Spec>, others: seq<Span>,
                   theirs: seq<Spec>)
    requires Parsed(command, trim, spans, specs) && Parsed(command, trim, others, theirs)
    ensures spans == others && specs == theirs
  {
    SameSpans(command, trim, spans, specs, others, theirs, |spans|);
    SameSpans(command, trim, others, theirs, spans, specs, |others|);
    assert spans[..|spans|] == spans && others[..|others|] == others;
    forall k | 0 <= k < |specs| ensures specs[k] == theirs[k] {
      SameEnd(command, trim, spans, specs, others, theirs, k);
    }
  }
}
