/** Highlighting keyword matches in a list line: `internal/list/tview.go`.  The regular expressions are parameters: what
    they found; so is the escaping of text for the terminal library. */
module Highlight {

  const MATCH_TAG := "[#ff69b4]"
  const RESET_TAG := "[-]"

  datatype Span = Span(start: nat, end: nat)

  predicate FitsLine(spans: seq<Span>, n: nat) {
    forall k :: 0 <= k < |spans| ==> spans[k].start <= spans[k].end <= n
  }

  predicate NoneEmpty(spans: seq<Span>) {
    forall k :: 0 <= k < |spans| ==> spans[k].start < spans[k].end
  }

  predicate Holds(span: Span, i: nat) {
    span.start <= i < span.end
  }

  predicate Covered(spans: seq<Span>, i: nat) {
    exists k :: 0 <= k < |spans| && Holds(spans[k], i)
  }

  lemma CoveredAppend(spans: seq<Span>, more: Span, i: nat)
    ensures Covered(spans + [more], i) <==> Covered(spans, i) || Holds(more, i)
  {
    var all := spans + [more];
    assert all[|spans|] == more;
    if Covered(spans, i) {
      var k :| 0 <= k < |spans| && Holds(spans[k], i);
      assert all[k] == spans[k];
    }
  }

  // ---- Sorting ----

  predicate Above(a: Span, b: Span) {
    if a.start == b.start then b.end < a.end else b.start < a.start
  }

  ghost predicate Ascending(spans: seq<Span>) {
    forall j, k :: 0 <= j < k < |spans| ==> !Above(spans[j], spans[k])
  }

  function Insert(spans: seq<Span>, span: Span): (r: seq<Span>)
    ensures multiset(r) == multiset(spans) + multiset{span}
  {
    if spans != [] && Above(span, spans[0]) then
      assert spans == [spans[0]] + spans[1..];
      [spans[0]] + Insert(spans[1..], span)
    else [span] + spans
  }

  /** The order is total, so the result of any sort is this one. */
  function Sort(spans: seq<Span>): (r: seq<Span>)
    ensures multiset(r) == multiset(spans)
  {
    if spans == [] then []
    else
      assert spans == [spans[0]] + spans[1..];
      Insert(Sort(spans[1..]), spans[0])
  }

  lemma {:induction false} InsertAscends(spans: seq<Span>, span: Span)
    requires Ascending(spans)
    ensures Ascending(Insert(spans, span))
  {
    if spans != [] && Above(span, spans[0]) {
      InsertAscends(spans[1..], span);
      var rest := Insert(spans[1..], span);
      forall k | 0 <= k < |rest| ensures !Above(spans[0], rest[k]) {
        assert rest[k] in multiset(rest);
        assert rest[k] == span || rest[k] in spans[1..];
      }
    }
  }

  lemma {:induction false} SortAscends(spans: seq<Span>)
    ensures forall j, k :: 0 <= j < k < |Sort(spans)| ==>
      var a, b := Sort(spans)[j], Sort(spans)[k];
      a.start < b.start || (a.start == b.start && a.end <= b.end)
    ensures Ascending(Sort(spans))
  {
    if spans != [] {
      SortAscends(spans[1..]);
      InsertAscends(Sort(spans[1..]), spans[0]);
    }
  }

  lemma FoundIn(a: seq<Span>, b: seq<Span>, k: nat) returns (j: nat)
    requires multiset(a) == multiset(b) && k < |a|
    ensures j < |b| && b[j] == a[k]
  {
    assert a[k] in multiset(b);
    j :| 0 <= j < |b| && b[j] == a[k];
  }

  lemma SameSpans(a: seq<Span>, b: seq<Span>, n: nat)
    requires multiset(a) == multiset(b) && FitsLine(b, n) && NoneEmpty(b)
    ensures FitsLine(a, n) && NoneEmpty(a)
    ensures forall i :: Covered(a, i) <==> Covered(b, i)
  {
    forall k | 0 <= k < |a| ensures a[k].start < a[k].end <= n {
      var j := FoundIn(a, b, k);
    }
    forall i ensures Covered(a, i) <==> Covered(b, i) {
      if Covered(a, i) {
        var k :| 0 <= k < |a| && Holds(a[k], i);
        var j := FoundIn(a, b, k);
      }
      if Covered(b, i) {
        var k :| 0 <= k < |b| && Holds(b[k], i);
        var j := FoundIn(b, a, k);
      }
    }
  }

  // ---- Merging ----

  /** In order, not empty, with at least one character between neighbours. */
  ghost predicate Separated(merged: seq<Span>) {
    && NoneEmpty(merged)
    && (forall j, k :: 0 <= j < k < |merged| ==> merged[j].end < merged[k].start)
  }

  ghost predicate SameCover(a: seq<Span>, b: seq<Span>) {
    forall i :: Covered(a, i) <==> Covered(b, i)
  }

  ghost predicate Merging(spans: seq<Span>, merged: seq<Span>, n: nat) {
    && Separated(merged) && FitsLine(merged, n) && SameCover(merged, spans)
    && (merged == [] <==> spans == [])
    && (spans != [] ==> merged[|merged| - 1].start <= spans[|spans| - 1].start)
  }

  lemma MergeApart(spans: seq<Span>, merged: seq<Span>, current: Span, n: nat)
    requires Merging(spans, merged, n) && current.start < current.end <= n
    requires merged != [] ==> merged[|merged| - 1].end < current.start
    ensures Merging(spans + [current], merged + [current], n)
  {
    forall i ensures Covered(merged + [current], i) <==> Covered(spans + [current], i) {
      CoveredAppend(spans, current, i);
      CoveredAppend(merged, current, i);
    }
  }

  lemma MergeTouching(spans: seq<Span>, merged: seq<Span>, current: Span, n: nat)
    requires Merging(spans, merged, n) && current.start < current.end <= n && merged != []
    requires spans[|spans| - 1].start <= current.start <= merged[|merged| - 1].end
    ensures var last := merged[|merged| - 1];
            var longer := Span(last.start, if current.end > last.end then current.end else last.end);
            Merging(spans + [current], merged[|merged| - 1 := longer], n)
  {
    var init, last := merged[..|merged| - 1], merged[|merged| - 1];
    var longer := Span(last.start, if current.end > last.end then current.end else last.end);
    assert merged == init + [last] && merged[|merged| - 1 := longer] == init + [longer];
    forall i ensures Covered(init + [longer], i) <==> Covered(spans + [current], i) {
      CoveredAppend(init, last, i);
      CoveredAppend(init, longer, i);
      CoveredAppend(spans, current, i);
      assert Covered(merged, i) <==> Covered(spans, i);
      assert Holds(longer, i) <==> Holds(last, i) || Holds(current, i);
    }
  }

  /** Sorted spans merged: disjoint, not touching, and over the same characters. */
  method MergeSpans(spans: seq<Span>, n: nat) returns (merged: seq<Span>)
    requires Ascending(spans) && FitsLine(spans, n) && NoneEmpty(spans)
    ensures Separated(merged) && FitsLine(merged, n) && SameCover(merged, spans)
  {
    merged := [];
    for k := 0 to |spans|
      invariant Merging(spans[..k], merged, n)
    {
      var current := spans[k];
      assert spans[..k + 1] == spans[..k] + [current];
      if |merged| == 0 || current.start > merged[|merged| - 1].end {
        MergeApart(spans[..k], merged, current, n);
        merged := merged + [current];
        continue;
      }
      assert !Above(spans[k - 1], current);
      MergeTouching(spans[..k], merged, current, n);
      var last := merged[|merged| - 1];
      if current.end > last.end {
        merged := merged[|merged| - 1 := Span(last.start, current.end)];
      } else {
        assert merged[|merged| - 1 := last] == merged;
      }
    }
    assert spans[..|spans|] == spans;
  }

  // ---- Rendering ----

  datatype Piece = Piece(text: string, marked: bool)

  datatype Cell = Cell(c: char, marked: bool)

  function CellsOf(text: string, marked: bool): seq<Cell> {
    seq(|text|, i requires 0 <= i < |text| => Cell(text[i], marked))
  }

  /** The line as it appears, character by character. */
  function Cells(pieces: seq<Piece>): seq<Cell> {
    if pieces == [] then []
    else Cells(pieces[..|pieces| - 1]) + CellsOf(pieces[|pieces| - 1].text, pieces[|pieces| - 1].marked)
  }

  function Rendered(pieces: seq<Piece>, escape: string -> string): string {
    if pieces == [] then ""
    else
      var last := pieces[|pieces| - 1];
      Rendered(pieces[..|pieces| - 1], escape) + RenderedPiece(last, escape)
  }

  function RenderedPiece(piece: Piece, escape: string -> string): string {
    if piece.marked then MATCH_TAG + escape(piece.text) + RESET_TAG else escape(piece.text)
  }

  /** The first n characters of the line, those inside a span marked. */
  function Marked(line: string, spans: seq<Span>, n: nat): seq<Cell>
    requires n <= |line|
  {
    seq(n, i requires 0 <= i < n => Cell(line[i], Covered(spans, i)))
  }

  /** Marked stretches are as long as possible, unmarked ones too. */
  ghost predicate Alternates(pieces: seq<Piece>) {
    forall k :: 0 < k < |pieces| ==> pieces[k].marked != pieces[k - 1].marked
  }

  ghost predicate NoneBlank(pieces: seq<Piece>) {
    forall k :: 0 <= k < |pieces| ==> pieces[k].text != ""
  }

  lemma PlainPiece(line: string, merged: seq<Span>, cursor: nat, next: nat)
    requires cursor <= next <= |line|
    requires forall i :: cursor <= i < next ==> !Covered(merged, i)
    ensures Marked(line, merged, next) == Marked(line, merged, cursor) + CellsOf(line[cursor..next], false)
  {
  }

  lemma MarkedPiece(line: string, merged: seq<Span>, k: nat)
    requires FitsLine(merged, |line|) && Separated(merged) && k < |merged|
    ensures Marked(line, merged, merged[k].end)
         == Marked(line, merged, merged[k].start) + CellsOf(line[merged[k].start..merged[k].end], true)
  {
    forall i | merged[k].start <= i < merged[k].end ensures Covered(merged, i) {
      assert Holds(merged[k], i);
    }
  }

  /** Nothing is covered between neighbouring spans, before the first or after the last. */
  lemma GapIsPlain(merged: seq<Span>, k: nat, i: nat)
    requires Separated(merged) && k <= |merged|
    requires k > 0 ==> merged[k - 1].end <= i
    requires k < |merged| ==> i < merged[k].start
    ensures !Covered(merged, i)
  {
    forall j | 0 <= j < |merged| ensures !Holds(merged[j], i) {
      if j < k {
        assert merged[j].end <= merged[k - 1].end;
      } else {
        assert merged[k].start <= merged[j].start;
      }
    }
  }

  function EndOf(merged: seq<Span>, k: nat): nat
    requires k <= |merged|
  {
    if k == 0 then 0 else merged[k - 1].end
  }

  ghost predicate Written(line: string, merged: seq<Span>, k: nat, pieces: seq<Piece>)
    requires k <= |merged|
  {
    && EndOf(merged, k) <= |line|
    && Cells(pieces) == Marked(line, merged, EndOf(merged, k))
    && Alternates(pieces) && NoneBlank(pieces)
    && (pieces == [] <==> k == 0)
    && (k > 0 ==> pieces[|pieces| - 1].marked)
  }

  function Before(line: string, merged: seq<Span>, k: nat): seq<Piece>
    requires k < |merged| && EndOf(merged, k) <= |line| && merged[k].start <= |line|
  {
    if merged[k].start > EndOf(merged, k) then [Piece(line[EndOf(merged, k)..merged[k].start], false)] else []
  }

  function MarkedAt(line: string, merged: seq<Span>, k: nat): Piece
    requires FitsLine(merged, |line|) && k < |merged|
  {
    Piece(line[merged[k].start..merged[k].end], true)
  }

  lemma CellsStep(line: string, merged: seq<Span>, k: nat, pieces: seq<Piece>)
    requires FitsLine(merged, |line|) && Separated(merged) && k < |merged| && EndOf(merged, k) <= merged[k].start
    requires Cells(pieces) == Marked(line, merged, EndOf(merged, k))
    ensures Cells(pieces + Before(line, merged, k) + [MarkedAt(line, merged, k)]) == Marked(line, merged, merged[k].end)
  {
    var cursor, item := EndOf(merged, k), merged[k];
    forall i | cursor <= i < item.start ensures !Covered(merged, i) {
      GapIsPlain(merged, k, i);
    }
    PlainPiece(line, merged, cursor, item.start);
    CellsAppend(pieces, Before(line, merged, k));
    assert item.start == cursor ==> CellsOf(line[cursor..item.start], false) == [];
    MarkedPiece(line, merged, k);
    CellsAppend(pieces + Before(line, merged, k), [MarkedAt(line, merged, k)]);
  }

  lemma WriteStep(line: string, merged: seq<Span>, k: nat, pieces: seq<Piece>)
    requires FitsLine(merged, |line|) && Separated(merged) && k < |merged| && Written(line, merged, k, pieces)
    ensures EndOf(merged, k) <= merged[k].start
    ensures Written(line, merged, k + 1, pieces + Before(line, merged, k) + [MarkedAt(line, merged, k)])
  {
    assert k > 0 ==> EndOf(merged, k) < merged[k].start;
    CellsStep(line, merged, k, pieces);
    AppendAlternates(pieces, Before(line, merged, k), MarkedAt(line, merged, k));
  }

  lemma AppendAlternates(pieces: seq<Piece>, gap: seq<Piece>, marked: Piece)
    requires Alternates(pieces) && NoneBlank(pieces) && marked.marked && marked.text != ""
    requires |gap| <= 1 && (gap != [] ==> !gap[0].marked && gap[0].text != "")
    requires pieces != [] ==> pieces[|pieces| - 1].marked && gap != []
    ensures Alternates(pieces + gap + [marked]) && NoneBlank(pieces + gap + [marked])
  {
    var all := pieces + gap + [marked];
    forall j | 0 <= j < |all| ensures all[j].text != "" && (j > 0 ==> all[j].marked != all[j - 1].marked) {
      if j >= |pieces| + |gap| {
        assert all[j] == marked;
      } else if j >= |pieces| {
        assert all[j] == gap[0];
      }
    }
  }

  lemma CellsAppend(pieces: seq<Piece>, more: seq<Piece>)
    requires |more| <= 1
    ensures Cells(pieces + more) == Cells(pieces) + if more == [] then [] else CellsOf(more[0].text, more[0].marked)
  {
    assert more == [] ==> pieces + more == pieces;
    assert (pieces + more)[..|pieces|] == pieces;
  }

  lemma RenderedAppend(pieces: seq<Piece>, more: seq<Piece>, escape: string -> string)
    requires |more| <= 1
    ensures Rendered(pieces + more, escape)
         == Rendered(pieces, escape) + if more == [] then "" else RenderedPiece(more[0], escape)
  {
    assert more == [] ==> pieces + more == pieces;
    assert (pieces + more)[..|pieces|] == pieces;
  }

  /** The text after the last span. */
  function After(line: string, merged: seq<Span>): seq<Piece>
    requires EndOf(merged, |merged|) <= |line|
  {
    if EndOf(merged, |merged|) < |line| then [Piece(line[EndOf(merged, |merged|)..], false)] else []
  }

  lemma LastStretch(line: string, merged: seq<Span>, pieces: seq<Piece>)
    requires FitsLine(merged, |line|) && Separated(merged) && Written(line, merged, |merged|, pieces)
    ensures Cells(pieces + After(line, merged)) == Marked(line, merged, |line|)
    ensures Alternates(pieces + After(line, merged)) && NoneBlank(pieces + After(line, merged))
  {
    var cursor := EndOf(merged, |merged|);
    forall i | cursor <= i < |line| ensures !Covered(merged, i) {
      GapIsPlain(merged, |merged|, i);
    }
    PlainPiece(line, merged, cursor, |line|);
    if cursor < |line| {
      assert line[cursor..] == line[cursor..|line|];
      assert (pieces + After(line, merged))[..|pieces|] == pieces;
    } else {
      assert pieces + After(line, merged) == pieces;
    }
  }

  function Concat(texts: seq<string>): string {
    if texts == [] then "" else Concat(texts[..|texts| - 1]) + texts[|texts| - 1]
  }

  ghost function Tagged(pieces: seq<Piece>, escape: string -> string): seq<string> {
    seq(|pieces|, k requires 0 <= k < |pieces| =>
      if pieces[k].marked then "[#ff69b4]" + escape(pieces[k].text) + "[-]" else escape(pieces[k].text))
  }

  lemma {:induction false} RenderedIsTagged(pieces: seq<Piece>, escape: string -> string)
    ensures Rendered(pieces, escape) == Concat(Tagged(pieces, escape))
  {
    if pieces != [] {
      RenderedIsTagged(pieces[..|pieces| - 1], escape);
      assert Tagged(pieces, escape)[..|pieces| - 1] == Tagged(pieces[..|pieces| - 1], escape);
    }
  }

  /** The text is alternating pieces, the marked ones between tags, that show the line, marked exactly where the spans
      are. */
  ghost predicate Highlights(out: string, line: string, spans: seq<Span>, escape: string -> string) {
    exists pieces ::
      && out == Concat(Tagged(pieces, escape))
      && Cells(pieces) == Marked(line, spans, |line|)
      && Alternates(pieces) && (line != "" ==> NoneBlank(pieces))
  }

  method Render(line: string, merged: seq<Span>, escape: string -> string) returns (out: string)
    requires FitsLine(merged, |line|) && Separated(merged)
    ensures Highlights(out, line, merged, escape)
  {
    hide Rendered, RenderedPiece, Written, Cells, Marked, Alternates, NoneBlank, Before, MarkedAt;
    out := "";
    ghost var pieces: seq<Piece> := [];
    var cursor := 0;
    NothingWritten(line, merged, escape);
    for k := 0 to |merged|
      invariant Written(line, merged, k, pieces) && cursor == EndOf(merged, k)
      invariant out == Rendered(pieces, escape)
    {
      WriteStep(line, merged, k, pieces);
      RenderedStep(pieces, line, merged, k, escape);
      out := RenderSpan(out, line, merged, k, cursor, escape);
      pieces := pieces + Before(line, merged, k) + [MarkedAt(line, merged, k)];
      cursor := merged[k].end;
    }
    LastStretch(line, merged, pieces);
    RenderedAfter(pieces, line, merged, escape);
    if cursor < |line| {
      out := out + escape(line[cursor..]);
    }
    Shown(out, pieces + After(line, merged), line, merged, escape);
  }

  /** One turn of the loop over the spans. */
  method RenderSpan(written: string, line: string, merged: seq<Span>, k: nat, cursor: nat, escape: string -> string)
      returns (out: string)
    requires FitsLine(merged, |line|) && k < |merged| && cursor == EndOf(merged, k) <= merged[k].start
    ensures out == written + RenderedGap(Before(line, merged, k), escape)
                   + RenderedPiece(MarkedAt(line, merged, k), escape)
  {
    var item := merged[k];
    out := written;
    if item.start > cursor {
      out := out + escape(line[cursor..item.start]);
    }
    TagsAround(out, escape(line[item.start..item.end]));
    out := out + MATCH_TAG;
    out := out + escape(line[item.start..item.end]);
    out := out + RESET_TAG;
  }

  function RenderedGap(gap: seq<Piece>, escape: string -> string): string
    requires |gap| <= 1
  {
    if gap == [] then "" else RenderedPiece(gap[0], escape)
  }

  lemma NothingWritten(line: string, merged: seq<Span>, escape: string -> string)
    requires FitsLine(merged, |line|)
    ensures Written(line, merged, 0, []) && Rendered([], escape) == ""
  {
  }

  lemma RenderedStep(pieces: seq<Piece>, line: string, merged: seq<Span>, k: nat, escape: string -> string)
    requires FitsLine(merged, |line|) && k < |merged| && EndOf(merged, k) <= merged[k].start
    ensures Rendered(pieces + Before(line, merged, k) + [MarkedAt(line, merged, k)], escape)
         == Rendered(pieces, escape) + RenderedGap(Before(line, merged, k), escape)
            + RenderedPiece(MarkedAt(line, merged, k), escape)
  {
    hide Rendered, RenderedPiece;
    var gap := Before(line, merged, k);
    RenderedAppend(pieces, gap, escape);
    RenderedAppend(pieces + gap, [MarkedAt(line, merged, k)], escape);
  }

  lemma RenderedAfter(pieces: seq<Piece>, line: string, merged: seq<Span>, escape: string -> string)
    requires EndOf(merged, |merged|) <= |line|
    ensures Rendered(pieces + After(line, merged), escape)
         == Rendered(pieces, escape)
            + if EndOf(merged, |merged|) < |line| then escape(line[EndOf(merged, |merged|)..]) else ""
  {
    hide Rendered;
    RenderedAppend(pieces, After(line, merged), escape);
  }

  lemma Shown(out: string, pieces: seq<Piece>, line: string, merged: seq<Span>, escape: string -> string)
    requires out == Rendered(pieces, escape) && Cells(pieces) == Marked(line, merged, |line|)
    requires Alternates(pieces) && NoneBlank(pieces)
    ensures Highlights(out, line, merged, escape)
  {
    hide Cells, Marked;
    RenderedIsTagged(pieces, escape);
  }

  lemma TagsAround(before: string, text: string)
    ensures before + MATCH_TAG + text + RESET_TAG == before + (MATCH_TAG + text + RESET_TAG)
  {
  }

  lemma Unmarked(line: string, escape: string -> string)
    ensures Rendered([Piece(line, false)], escape) == escape(line)
    ensures Cells([Piece(line, false)]) == CellsOf(line, false)
  {
    assert [Piece(line, false)][..0] == [];
  }

  /** highlightLine: `found` are the places the keywords were found at, in any order, overlapping or empty.  A character
      of the line is marked exactly when some place found holds it, no character is lost, and no tag is spent between
      two marked characters. */
  method HighlightLine(line: string, found: seq<Span>, escape: string -> string) returns (out: string)
    requires FitsLine(found, |line|)
    ensures Highlights(out, line, found, escape)
  {
    var spans := [];
    for k := 0 to |found|
      invariant FitsLine(spans, |line|) && NoneEmpty(spans) && SameCover(spans, found[..k])
    {
      assert found[..k + 1] == found[..k] + [found[k]];
      forall i ensures Covered(found[..k + 1], i) <==> Covered(spans, i) || Holds(found[k], i) {
        CoveredAppend(found[..k], found[k], i);
        assert Covered(found[..k], i) <==> Covered(spans, i);
      }
      if found[k].start == found[k].end {
        continue;
      }
      forall i ensures Covered(spans + [found[k]], i) <==> Covered(spans, i) || Holds(found[k], i) {
        CoveredAppend(spans, found[k], i);
      }
      spans := spans + [found[k]];
    }
    assert found[..|found|] == found;
    if |spans| == 0 {
      assert line[0..|line|] == line;
      PlainPiece(line, found, 0, |line|);
      Unmarked(line, escape);
      RenderedIsTagged([Piece(line, false)], escape);
      return escape(line);
    }
    var sorted := Sort(spans);
    SortAscends(spans);
    SameSpans(sorted, spans, |line|);
    var merged := MergeSpans(sorted, |line|);
    out := Render(line, merged, escape);
    assert Marked(line, merged, |line|) == Marked(line, found, |line|);
  }
}
