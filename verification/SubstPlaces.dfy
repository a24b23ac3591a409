/** Which substitutions of a command `expandLocalProcessSubstitutions` (`internal/pshell/local_process_subst.go`)
    replaces where they stand: on the line as it is at each turn, and on the command as it was typed. */
module SubstPlaces {
  import opened ProcessSubst
  import opened ExpandSubst

  // ---- The line with the first k substitutions in place ----

  /** Where the text after the first k spans starts. */
  function Cut(spans: seq<Span>, k: nat): nat
    requires k <= |spans|
  {
    if k == 0 then 0 else spans[k - 1].end + 1
  }

  predicate InLine(command: string, spans: seq<Span>, k: nat) {
    k < |spans| && Cut(spans, k) <= spans[k].start <= spans[k].end < |command|
  }

  function Slice(s: string, from: nat, end: nat): string {
    if from <= end <= |s| then s[from..end] else ""
  }

  function Raw(command: string, span: Span): string {
    Slice(command, span.start, span.end + 1)
  }

  function Gap(command: string, spans: seq<Span>, k: nat): string
    requires k < |spans|
  {
    Slice(command, Cut(spans, k), spans[k].start)
  }

  function Spliced(command: string, spans: seq<Span>, words: seq<string>, k: nat): string
    requires k <= |spans| == |words|
  {
    if k == 0 then "" else Spliced(command, spans, words, k - 1) + Gap(command, spans, k - 1) + words[k - 1]
  }

  /** What then stands before substitution k. */
  function Before(command: string, spans: seq<Span>, words: seq<string>, k: nat): string
    requires k < |spans| == |words|
  {
    Spliced(command, spans, words, k) + Gap(command, spans, k)
  }

  function Partly(command: string, spans: seq<Span>, words: seq<string>, k: nat): string
    requires k <= |spans| == |words|
  {
    Spliced(command, spans, words, k) + Slice(command, Cut(spans, k), |command|)
  }

  function Raws(command: string, spans: seq<Span>): seq<string> {
    seq(|spans|, k requires 0 <= k < |spans| => Raw(command, spans[k]))
  }

  function Parts(command: string, spans: seq<Span>, words: seq<string>): seq<string>
    requires |spans| == |words|
  {
    seq(|spans| + 1, k requires 0 <= k <= |spans| => Partly(command, spans, words, k))
  }

  function Places(command: string, spans: seq<Span>, words: seq<string>): seq<nat>
    requires |spans| == |words|
  {
    seq(|spans|, k requires 0 <= k < |spans| => |Before(command, spans, words, k)|)
  }

  /** The span lies behind the others, does not start with a quote, and gets quoted words. */
  ghost predicate Quotable(command: string, spans: seq<Span>, words: seq<string>, k: nat) {
    && InLine(command, spans, k) && command[spans[k].start] != '\''
    && k < |words| && words[k] != "" && words[k][0] == '\''
  }

  ghost predicate AllQuotable(command: string, spans: seq<Span>, words: seq<string>) {
    |words| == |spans| && forall k :: 0 <= k < |spans| ==> Quotable(command, spans, words, k)
  }

  lemma PiecesStand(before: string, raw: string, rest: string, words: string)
    ensures StandsAt(before + raw + rest, raw, |before|)
    ensures ReplacedAt(before + raw + rest, raw, words, |before|) == before + words + rest
  {
    var line := before + raw + rest;
    assert line[|before|..|before| + |raw|] == raw && line[|before| + |raw|..] == rest;
  }

  lemma SliceInTwo(s: string, a: nat, b: nat, c: nat)
    requires a <= b <= c <= |s|
    ensures Slice(s, a, c) == Slice(s, a, b) + Slice(s, b, c)
  {
  }

  lemma AroundSpan(command: string, spans: seq<Span>, words: seq<string>, k: nat)
    requires |spans| == |words| && InLine(command, spans, k)
    ensures Partly(command, spans, words, k)
         == Before(command, spans, words, k) + Raw(command, spans[k]) + Slice(command, Cut(spans, k + 1), |command|)
    ensures Partly(command, spans, words, k + 1)
         == Before(command, spans, words, k) + words[k] + Slice(command, Cut(spans, k + 1), |command|)
  {
    var span := spans[k];
    SliceInTwo(command, Cut(spans, k), span.start, |command|);
    SliceInTwo(command, span.start, span.end + 1, |command|);
  }

  lemma RawStarts(command: string, spans: seq<Span>, k: nat)
    requires InLine(command, spans, k)
    ensures Raw(command, spans[k]) != "" && Raw(command, spans[k])[0] == command[spans[k].start]
  {
  }

  lemma PutFrom(parts: seq<string>, raws: seq<string>, words: seq<string>, places: seq<nat>, k: nat, before: string,
                rest: string)
    requires k < |raws| && k < |words| && k < |places| && k + 1 < |parts|
    requires Puts(raws, words, k)
    requires parts[k] == before + raws[k] + rest && parts[k + 1] == before + words[k] + rest && places[k] == |before|
    requires k > 0 ==> places[k - 1] <= places[k]
    ensures Put(parts, raws, words, places, k)
  {
    PiecesStand(before, raws[k], rest, words[k]);
  }

  lemma PutAt(command: string, spans: seq<Span>, words: seq<string>, k: nat)
    requires AllQuotable(command, spans, words) && k < |spans|
    ensures Put(Parts(command, spans, words), Raws(command, spans), words, Places(command, spans, words), k)
  {
    assert Quotable(command, spans, words, k);
    AroundSpan(command, spans, words, k);
    RawStarts(command, spans, k);
    assert k > 0 ==> |Before(command, spans, words, k - 1)| <= |Spliced(command, spans, words, k)|;
    assert Parts(command, spans, words)[k] == Partly(command, spans, words, k);
    PutFrom(Parts(command, spans, words), Raws(command, spans), words, Places(command, spans, words), k,
            Before(command, spans, words, k), Slice(command, Cut(spans, k + 1), |command|));
  }

  lemma MeantToBe(command: string, spans: seq<Span>, words: seq<string>)
    requires AllQuotable(command, spans, words)
    ensures PutInPlace(Parts(command, spans, words), Raws(command, spans), words, Places(command, spans, words))
    ensures Parts(command, spans, words)[0] == command
  {
    forall k | 0 <= k < |spans|
      ensures Put(Parts(command, spans, words), Raws(command, spans), words, Places(command, spans, words), k)
    {
      PutAt(command, spans, words, k);
    }
  }

  // ---- Copies of a text on the line, and in the command ----

  /** Quoted words such as the paths of result files. */
  predicate PlainPaths(words: string) {
    words != "" && words[|words| - 1] == '\'' && '<' !in words && ')' !in words
  }

  /** The words do not occur in the text. */
  ghost predicate NotIn(raw: string, words: string) {
    forall j: nat :: !StandsAt(raw, words, j)
  }

  ghost predicate Foreign(raw: string, words: string) {
    PlainPaths(words) && NotIn(raw, words)
  }

  /** A text as substitutions have it: `<(...)` or `+<(...)`. */
  predicate IsText(raw: string) {
    && |raw| >= 2 && raw[|raw| - 1] == ')'
    && (raw[0] == '<' || (raw[0] == '+' && raw[1] == '<'))
  }

  /** A copy of the text in the command itself, within the gap before span i. */
  ghost predicate InGap(command: string, spans: seq<Span>, i: nat, raw: string, o: nat) {
    i < |spans| && Cut(spans, i) <= o && o + |raw| <= spans[i].start && StandsAt(command, raw, o)
  }

  lemma TextOnLine(line: string, raw: string, j: nat)
    requires StandsAt(line, raw, j) && IsText(raw)
    ensures line[j] == raw[0] && line[j + 1] == raw[1] && line[j + |raw| - 1] == ')'
  {
    var copy := line[j..j + |raw|];
    assert copy[0] == line[j] && copy[1] == line[j + 1] && copy[|raw| - 1] == line[j + |raw| - 1];
  }

  lemma WordsOnLine(before: string, words: string, tail: string, p: nat)
    requires PlainPaths(words) && |before| <= p < |before| + |words|
    ensures (before + words + tail)[p] != '<' && (before + words + tail)[p] != ')'
    ensures p == |before| + |words| - 1 ==> (before + words + tail)[p] == '\''
  {
    assert (before + words + tail)[p] == words[p - |before|];
  }

  /** What holds the words from end to end mentions them. */
  lemma WordsWithin(before: string, words: string, tail: string, raw: string, j: nat)
    requires StandsAt(before + words + tail, raw, j) && j <= |before| && |before| + |words| <= j + |raw|
    ensures StandsAt(raw, words, |before| - j)
  {
    forall p | 0 <= p < |words| ensures raw[|before| - j + p] == words[p] {
      assert (before + words + tail)[j..j + |raw|][|before| - j + p] == words[p];
    }
  }

  /** A copy of the text does not overlap the words: it would start or end in them, or hold all of them. */
  lemma NotInWords(before: string, words: string, tail: string, raw: string, j: nat)
    requires Foreign(raw, words) && IsText(raw) && StandsAt(before + words + tail, raw, j)
    ensures j + |raw| <= |before| || |before| + |words| <= j
  {
    TextOnLine(before + words + tail, raw, j);
    forall p | |before| <= p < |before| + |words|
      ensures (before + words + tail)[p] != '<' && (before + words + tail)[p] != ')'
      ensures p == |before| + |words| - 1 ==> (before + words + tail)[p] == '\''
    {
      WordsOnLine(before, words, tail, p);
    }
    assert j < |before| || |before| + |words| <= j;
    if j <= |before| && |before| + |words| <= j + |raw| {
      WordsWithin(before, words, tail, raw, j);
    }
  }

  lemma TailOnLine(a: string, tail: string, raw: string, j: nat)
    ensures StandsAt(a + tail, raw, |a| + j) <==> StandsAt(tail, raw, j)
  {
    if j + |raw| <= |tail| {
      assert (a + tail)[|a| + j..|a| + j + |raw|] == tail[j..j + |raw|];
    }
  }

  lemma FrontOnLine(g: string, rest: string, raw: string, j: nat)
    requires j + |raw| <= |g|
    ensures StandsAt(g + rest, raw, j) <==> StandsAt(g, raw, j)
  {
    assert (g + rest)[j..j + |raw|] == g[j..j + |raw|];
  }

  lemma GapOnLine(a: string, g: string, rest: string, raw: string, j: nat)
    requires j + |raw| <= |g|
    ensures StandsAt(a + g + rest, raw, |a| + j) <==> StandsAt(g, raw, j)
  {
    assert a + g + rest == a + (g + rest);
    TailOnLine(a, g + rest, raw, j);
    FrontOnLine(g, rest, raw, j);
  }

  lemma FourPieces(a: string, g: string, w: string, tail: string)
    ensures a + g + w + tail == a + (g + w + tail) == a + g + (w + tail)
  {
  }

  /** A copy that starts before the end of the words starts before the gap or lies in it. */
  lemma InGapOrBefore(a: string, g: string, w: string, tail: string, raw: string, j: nat)
    requires Foreign(raw, w) && IsText(raw) && StandsAt(a + g + w + tail, raw, j) && j < |a + g + w|
    ensures j < |a| ==> StandsAt(a + (g + w + tail), raw, j)
    ensures j >= |a| ==> j - |a| + |raw| <= |g| && StandsAt(g, raw, j - |a|)
  {
    FourPieces(a, g, w, tail);
    NotInWords(a + g, w, tail, raw, j);
    if j >= |a| {
      GapOnLine(a, g, w + tail, raw, j - |a|);
    }
  }

  /** A copy among the substitutions already replaced lies in a gap of the command. */
  lemma {:induction false} CopyInGap(command: string, spans: seq<Span>, words: seq<string>, k: nat, raw: string,
                                     tail: string, j: nat) returns (i: nat, o: nat)
    requires AllQuotable(command, spans, words) && k <= |spans| && IsText(raw)
    requires forall h :: 0 <= h < k ==> Foreign(raw, words[h])
    requires j < |Spliced(command, spans, words, k)| && StandsAt(Spliced(command, spans, words, k) + tail, raw, j)
    ensures i < k && InGap(command, spans, i, raw, o)
  {
    hide StandsAt, Gap, InGap, IsText, Foreign, InLine;
    var a, g, w := Spliced(command, spans, words, k - 1), Gap(command, spans, k - 1), words[k - 1];
    assert Quotable(command, spans, words, k - 1);
    InGapOrBefore(a, g, w, tail, raw, j);
    if j < |a| {
      i, o := CopyInGap(command, spans, words, k - 1, raw, g + w + tail, j);
    } else {
      i, o := k - 1, Cut(spans, k - 1) + (j - |a|);
      GapInCommand(command, spans, i, raw, j - |a|);
    }
  }

  lemma GapInCommand(command: string, spans: seq<Span>, i: nat, raw: string, j: nat)
    requires InLine(command, spans, i) && j + |raw| <= |Gap(command, spans, i)|
    ensures InGap(command, spans, i, raw, Cut(spans, i) + j) <==> StandsAt(Gap(command, spans, i), raw, j)
  {
    var a, g, rest := command[..Cut(spans, i)], Gap(command, spans, i), command[spans[i].start..];
    assert command == a + g + rest;
    GapOnLine(a, g, rest, raw, j);
  }

  lemma {:induction false} BeforeIsPrefix(command: string, spans: seq<Span>, words: seq<string>, i: nat, k: nat)
    requires i < k <= |spans| == |words|
    ensures Before(command, spans, words, i) <= Spliced(command, spans, words, k)
  {
    if i < k - 1 {
      BeforeIsPrefix(command, spans, words, i, k - 1);
    }
  }

  /** A copy in a gap before span k is there on the line as well. */
  lemma GapCopyOnLine(command: string, spans: seq<Span>, words: seq<string>, i: nat, k: nat, raw: string, o: nat)
    requires AllQuotable(command, spans, words) && i < k < |spans| && raw != "" && InGap(command, spans, i, raw, o)
    ensures EarlierCopy(Partly(command, spans, words, k), raw, |Before(command, spans, words, k)|)
  {
    var a, g, line := Spliced(command, spans, words, i), Gap(command, spans, i), Partly(command, spans, words, k);
    assert Quotable(command, spans, words, i);
    BeforeIsPrefix(command, spans, words, i, k);
    var j, rest := o - Cut(spans, i), line[|a + g|..];
    assert line == a + g + rest;
    GapInCommand(command, spans, i, raw, j);
    GapOnLine(a, g, rest, raw, j);
    assert StandsAt(line, raw, |a| + j);
  }

  /** The end of the line is the end of the command. */
  lemma SameTail(command: string, spans: seq<Span>, words: seq<string>, k: nat, raw: string, o: nat)
    requires |spans| == |words| && InLine(command, spans, k) && Cut(spans, k) <= o
    ensures StandsAt(command, raw, o)
       <==> StandsAt(Partly(command, spans, words, k), raw, |Spliced(command, spans, words, k)| + (o - Cut(spans, k)))
  {
    var cut := Cut(spans, k);
    assert command == command[..cut] + Slice(command, cut, |command|);
    TailOnLine(command[..cut], Slice(command, cut, |command|), raw, o - cut);
    TailOnLine(Spliced(command, spans, words, k), Slice(command, cut, |command|), raw, o - cut);
  }

  /** The stretch touches none of the first k substitutions. */
  ghost predicate Clear(spans: seq<Span>, k: nat, from: nat, end: nat) {
    forall i :: 0 <= i < k && i < |spans| ==> end <= spans[i].start || spans[i].end < from
  }

  /** In the command as typed: the text of substitution k before its place, clear of the substitutions before it. */
  ghost predicate CopyInCommand(command: string, spans: seq<Span>, k: nat) {
    k < |spans| && exists o: nat :: o < spans[k].start && ClearCopy(command, spans, k, o)
  }

  ghost predicate ClearCopy(command: string, spans: seq<Span>, k: nat, o: nat) {
    && k < |spans| && StandsAt(command, Raw(command, spans[k]), o)
    && Clear(spans, k, o, o + |Raw(command, spans[k])|)
  }

  ghost predicate InOrder(command: string, spans: seq<Span>) {
    forall k :: 0 <= k < |spans| ==> InLine(command, spans, k)
  }

  lemma {:induction false} CutsAscend(command: string, spans: seq<Span>, i: nat, k: nat)
    requires InOrder(command, spans) && i <= k <= |spans|
    ensures Cut(spans, i) <= Cut(spans, k)
    ensures i < k ==> spans[i].end < Cut(spans, k)
  {
    if i < k {
      assert InLine(command, spans, k - 1);
      CutsAscend(command, spans, i, k - 1);
    }
  }

  lemma {:induction false} ClearIsInGap(command: string, spans: seq<Span>, k: nat, raw: string, o: nat) returns (i: nat)
    requires InOrder(command, spans) && k <= |spans| && o < Cut(spans, k) && StandsAt(command, raw, o) && raw != ""
    requires Clear(spans, k, o, o + |raw|)
    ensures i < k && InGap(command, spans, i, raw, o)
  {
    assert InLine(command, spans, k - 1);
    assert o + |raw| <= spans[k - 1].start;
    if Cut(spans, k - 1) <= o {
      i := k - 1;
    } else {
      i := ClearIsInGap(command, spans, k - 1, raw, o);
    }
  }

  lemma GapIsClear(command: string, spans: seq<Span>, i: nat, k: nat, raw: string, o: nat)
    requires InOrder(command, spans) && i < k <= |spans| && InGap(command, spans, i, raw, o) && raw != ""
    ensures Clear(spans, k, o, o + |raw|) && o < spans[i].start
  {
    forall h | 0 <= h < k ensures o + |raw| <= spans[h].start || spans[h].end < o {
      assert InLine(command, spans, h) && InLine(command, spans, i);
      if h < i {
        CutsAscend(command, spans, h, i);
      } else if i < h {
        CutsAscend(command, spans, i, h);
      }
    }
  }

  lemma TailIsClear(command: string, spans: seq<Span>, k: nat, from: nat, end: nat)
    requires InOrder(command, spans) && k <= |spans| && Cut(spans, k) <= from
    ensures Clear(spans, k, from, end)
  {
    forall i | 0 <= i < k ensures spans[i].end < from {
      CutsAscend(command, spans, i, k);
    }
  }

  lemma QuotableInOrder(command: string, spans: seq<Span>, words: seq<string>)
    requires AllQuotable(command, spans, words)
    ensures InOrder(command, spans)
  {
    forall k | 0 <= k < |spans| ensures InLine(command, spans, k) {
      assert Quotable(command, spans, words, k);
    }
  }

  /** A copy before the place of substitution k, found in a gap or in the rest of the command. */
  lemma OnLineAt(command: string, spans: seq<Span>, words: seq<string>, k: nat, raw: string, j: nat) returns (o: nat)
    requires AllQuotable(command, spans, words) && k < |spans| && IsText(raw) && InLine(command, spans, k)
    requires forall h :: 0 <= h < k ==> Foreign(raw, words[h])
    requires j < |Before(command, spans, words, k)| && StandsAt(Partly(command, spans, words, k), raw, j)
    ensures o < spans[k].start && StandsAt(command, raw, o) && Clear(spans, k, o, o + |raw|)
  {
    QuotableInOrder(command, spans, words);
    var a := |Spliced(command, spans, words, k)|;
    if j < a {
      var i;
      i, o := CopyInGap(command, spans, words, k, raw, Slice(command, Cut(spans, k), |command|), j);
      GapIsClear(command, spans, i, k, raw, o);
      CutsAscend(command, spans, i, k);
      assert InLine(command, spans, i);
    } else {
      o := Cut(spans, k) + (j - a);
      SameTail(command, spans, words, k, raw, o);
      TailIsClear(command, spans, k, o, o + |raw|);
    }
  }

  lemma InCommandAt(command: string, spans: seq<Span>, words: seq<string>, k: nat, raw: string, o: nat)
    requires AllQuotable(command, spans, words) && k < |spans| && raw != "" && InLine(command, spans, k)
    requires o < spans[k].start && StandsAt(command, raw, o) && Clear(spans, k, o, o + |raw|)
    ensures EarlierCopy(Partly(command, spans, words, k), raw, |Before(command, spans, words, k)|)
  {
    QuotableInOrder(command, spans, words);
    if o < Cut(spans, k) {
      var i := ClearIsInGap(command, spans, k, raw, o);
      GapCopyOnLine(command, spans, words, i, k, raw, o);
    } else {
      SameTail(command, spans, words, k, raw, o);
      var j := |Spliced(command, spans, words, k)| + (o - Cut(spans, k));
      assert StandsAt(Partly(command, spans, words, k), raw, j) && j < |Before(command, spans, words, k)|;
    }
  }

  /** On the line after the earlier turns a copy stands before the place exactly when one does in the command, clear of
      the earlier substitutions. */
  lemma CopyIsInCommand(command: string, spans: seq<Span>, words: seq<string>, k: nat)
    requires AllQuotable(command, spans, words) && k < |spans| && IsText(Raw(command, spans[k]))
    requires forall h :: 0 <= h < k ==> Foreign(Raw(command, spans[k]), words[h])
    ensures EarlierCopy(Partly(command, spans, words, k), Raw(command, spans[k]), |Before(command, spans, words, k)|)
       <==> CopyInCommand(command, spans, k)
  {
    assert Quotable(command, spans, words, k);
    var raw := Raw(command, spans[k]);
    if EarlierCopy(Partly(command, spans, words, k), raw, |Before(command, spans, words, k)|) {
      var j: nat :| j < |Before(command, spans, words, k)| && StandsAt(Partly(command, spans, words, k), raw, j);
      var o := OnLineAt(command, spans, words, k, raw, j);
      assert ClearCopy(command, spans, k, o);
    }
    if CopyInCommand(command, spans, k) {
      var o: nat :| o < spans[k].start && ClearCopy(command, spans, k, o);
      InCommandAt(command, spans, words, k, raw, o);
    }
  }
}
