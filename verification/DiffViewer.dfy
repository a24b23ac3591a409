/** The scroll state of `internal/lsdiff/view.go`.  Pane heights are what the terminal last reported. */
module DiffViewer {
  import opened DiffAlign
  import opened DiffTable

  function Min(a: int, b: int): int { if a < b then a else b }

  function Max(a: int, b: int): int { if a > b then a else b }

  function MaxLines(documents: seq<Document>): (most: nat)
    ensures forall c :: 0 <= c < |documents| ==> |documents[c].lines| <= most
    ensures most == 0 || exists c :: 0 <= c < |documents| && |documents[c].lines| == most
  {
    if documents == [] then 0
    else Max(MaxLines(documents[..|documents| - 1]), |documents[|documents| - 1].lines|)
  }

  /** The largest row offset for the longest document and the visible height (0: not laid out yet). */
  function MaxOffset(maxLines: nat, height: nat): (offset: nat)
    ensures offset <= Max(0, maxLines - 1)
    ensures maxLines <= Max(offset + height, 1) || (height == 0 && maxLines == offset + 1)
  {
    if maxLines == 0 then 0
    else if height == 0 then maxLines - 1
    else if maxLines <= height then 0
    else maxLines - height
  }

  /** The smallest positive pane height, 0 if there is none. */
  function LeastHeight(heights: seq<int>): (least: nat)
    ensures forall i :: 0 <= i < |heights| && heights[i] > 0 ==> 0 < least <= heights[i]
    ensures least > 0 ==> least in heights
  {
    if heights == [] then 0
    else
      var least, last := LeastHeight(heights[..|heights| - 1]), heights[|heights| - 1];
      if last <= 0 || 0 < least <= last then least else last
  }

  /** Rows[offset..end] is what a pane shows. */
  function EndRow(rows: nat, offset: nat, height: nat): nat {
    if height > 0 then Min(rows, offset + height) else rows
  }

  predicate Shows(rows: nat, offset: nat, height: nat, r: nat) {
    offset <= r < EndRow(rows, offset, height)
  }

  ghost predicate Reachable(rows: nat, maxLines: nat, height: nat, r: nat) {
    exists offset: nat :: offset <= MaxOffset(maxLines, height) && Shows(rows, offset, height, r)
  }

  /** The offset limit comes from the longest document, not from the table, so a row can be brought on screen
      if and only if it lies within the longest document or the first screen. */
  lemma RowReachable(rows: nat, maxLines: nat, height: nat, r: nat)
    requires maxLines <= rows && r < rows
    ensures Reachable(rows, maxLines, height, r) <==> height == 0 || r < Max(maxLines, height)
  {
    var offset := MaxOffset(maxLines, height);
    if height == 0 {
      assert Shows(rows, 0, height, r);
    } else if r < offset {
      assert Shows(rows, r, height, r);
    } else if r < Max(maxLines, height) {
      assert Shows(rows, offset, height, r);
    }
  }

  ghost predicate IsExample(documents: seq<Document>, scripts: seq<seq<OpCode>>) {
    && documents == [Document(["x"]), Document(["a", "x"]), Document(["x", "b"])]
    && scripts == [[OpCode(Insert, 0, 0, 0, 1), OpCode(Equal, 0, 1, 1, 2)],
      [OpCode(Equal, 0, 1, 0, 1), OpCode(Insert, 1, 1, 1, 2)]]
  }

  lemma ExampleIsValid(documents: seq<Document>, scripts: seq<seq<OpCode>>)
    requires IsExample(documents, scripts)
    ensures ValidInput(documents, scripts)
  {
    forall c | 1 <= c < 3
      ensures ValidScript(scripts[c - 1], documents[0].lines, documents[c].lines)
    {
      var ops := scripts[c - 1];
      assert Continues(ops, 0, documents[0].lines, documents[c].lines)
        && Continues(ops, 1, documents[0].lines, documents[c].lines);
    }
  }

  lemma ExampleRows(documents: seq<Document>, scripts: seq<seq<OpCode>>)
    requires IsExample(documents, scripts) && ValidInput(documents, scripts)
    ensures |Table(PairAlignments(documents, scripts), |documents[0].lines|)| >= 3
  {
    var als := PairAlignments(documents, scripts);
    InsertedAtLeast(scripts[0], 2, 0);
    InsertedLength(scripts[0], 2, documents[0].lines, documents[1].lines, 0);
    InsertedAtLeast(scripts[1], 2, 1);
    InsertedLength(scripts[1], 2, documents[0].lines, documents[2].lines, 1);
    TableLength(als, 1);
    assert SumOfHeights(als, 1, 2) == SumOfHeights(als, 1, 1) + Height(als, 1, 1);
  }

  /** Three documents whose table has a last row that no scrolling reveals on a screen of two rows. */
  lemma UnreachableRow(documents: seq<Document>, scripts: seq<seq<OpCode>>)
    requires IsExample(documents, scripts)
    ensures ValidInput(documents, scripts)
    ensures var rows := |Table(PairAlignments(documents, scripts), |documents[0].lines|)|;
      rows > 0 && !Reachable(rows, MaxLines(documents), 2, rows - 1)
  {
    ExampleIsValid(documents, scripts);
    ExampleRows(documents, scripts);
    var rows, most := |Table(PairAlignments(documents, scripts), |documents[0].lines|)|, MaxLines(documents);
    assert most <= 2 by {
      var c :| most == 0 || (0 <= c < 3 && |documents[c].lines| == most);
    }
    RowReachable(rows, most, 2, rows - 1);
  }

  class Viewer {
    const comparison: Comparison
    const contains: (string, string) -> bool   // case-insensitive substring search
    var paneHeights: seq<int>
    var rowOffset: int
    var colOffset: int
    var searchTerm: string

    /** What every key, mouse or resize event keeps. */
    ghost predicate Valid()
      reads this
    {
      && Faithful(CellsOf(comparison.rows), comparison.documents)
      && |paneHeights| == |comparison.documents|
      && 0 <= rowOffset <= Max(0, MaxLines(comparison.documents) - 1)
      && 0 <= colOffset
    }

    constructor (comparison: Comparison, contains: (string, string) -> bool)
      requires Faithful(CellsOf(comparison.rows), comparison.documents)
      ensures Valid() && this.comparison == comparison && this.contains == contains && rowOffset == 0
        && searchTerm == ""
    {
      this.comparison := comparison;
      this.contains := contains;
      paneHeights := seq(|comparison.documents|, _ => 0);
      rowOffset, colOffset, searchTerm := 0, 0, "";
    }

    /** The terminal lays the panes out again. */
    method Resize(heights: seq<int>)
      requires Valid() && |heights| == |comparison.documents|
      modifies this`paneHeights
      ensures Valid() && paneHeights == heights
    {
      paneHeights := heights;
    }

    method VisibleHeight() returns (height: nat)
      ensures height == LeastHeight(paneHeights)
    {
      height := 0;
      for i := 0 to |paneHeights|
        invariant height == LeastHeight(paneHeights[..i])
      {
        assert paneHeights[..i + 1][..i] == paneHeights[..i];
        if paneHeights[i] <= 0 {
          continue;
        }
        if height == 0 || paneHeights[i] < height {
          height := paneHeights[i];
        }
      }
      assert paneHeights[..|paneHeights|] == paneHeights;
    }

    ghost function Limit(): nat
      reads this
    {
      MaxOffset(MaxLines(comparison.documents), LeastHeight(paneHeights))
    }

    method MaxRowOffset() returns (limit: nat)
      ensures limit == Limit()
    {
      var maxLines := 0;
      for i := 0 to |comparison.documents|
        invariant maxLines == MaxLines(comparison.documents[..i])
      {
        assert comparison.documents[..i + 1][..i] == comparison.documents[..i];
        if |comparison.documents[i].lines| > maxLines {
          maxLines := |comparison.documents[i].lines|;
        }
      }
      assert comparison.documents[..|comparison.documents|] == comparison.documents;
      var visible := VisibleHeight();
      if maxLines == 0 {
        return 0;
      }
      if visible <= 0 {
        return maxLines - 1;
      }
      if maxLines <= visible {
        return 0;
      }
      limit := maxLines - visible;
    }

    method ScrollVertical(delta: int)
      requires Valid()
      modifies this`rowOffset
      ensures Valid() && rowOffset == Min(Max(old(rowOffset) + delta, 0), Limit())
    {
      rowOffset := rowOffset + delta;
      if rowOffset < 0 {
        rowOffset := 0;
      }
      var limit := MaxRowOffset();
      if rowOffset > limit {
        rowOffset := limit;
      }
    }

    method ScrollHorizontal(delta: int)
      requires Valid()
      modifies this`colOffset
      ensures Valid() && colOffset == Max(old(colOffset) + delta, 0)
    {
      colOffset := colOffset + delta;
      if colOffset < 0 {
        colOffset := 0;
      }
    }

    ghost predicate Matches(r: nat, term: string)
      requires r < |comparison.rows|
    {
      var cells := comparison.rows[r].cells;
      exists c :: 0 <= c < |cells| && cells[c].present && contains(cells[c].text, term)
    }

    ghost predicate IsFirstMatch(r: nat, term: string) {
      r < |comparison.rows| && term != "" && Matches(r, term) && forall k :: 0 <= k < r ==> !Matches(k, term)
    }

    /** Moves to the first matching row, as far down as the limit allows; without a match nothing moves. */
    method JumpToFirstMatch()
      requires Valid()
      modifies this`rowOffset
      ensures Valid()
      ensures (searchTerm == "" || forall r :: 0 <= r < |comparison.rows| ==> !Matches(r, searchTerm)) ==>
        rowOffset == old(rowOffset)
      ensures forall r: nat :: IsFirstMatch(r, searchTerm) ==> rowOffset == Min(r, Limit())
    {
      var limit := MaxRowOffset();
      if searchTerm == "" {
        return;
      }
      for r := 0 to |comparison.rows|
        invariant rowOffset == old(rowOffset)
        invariant forall k :: 0 <= k < r ==> !Matches(k, searchTerm)
      {
        var found := RowMatches(r, searchTerm);
        if found {
          assert IsFirstMatch(r, searchTerm);
          rowOffset := r;
          if rowOffset > limit {
            rowOffset := limit;
          }
          return;
        }
      }
    }

    method RowMatches(r: nat, term: string) returns (found: bool)
      requires r < |comparison.rows|
      ensures found == Matches(r, term)
    {
      var cells := comparison.rows[r].cells;
      for c := 0 to |cells|
        invariant forall k :: 0 <= k < c ==> !(cells[k].present && contains(cells[k].text, term))
      {
        if cells[c].present && contains(cells[c].text, term) {
          return true;
        }
      }
      return false;
    }

    /** The document's cells in the rows from the offset on: as many rows as the lowest pane has lines for, or all if
        no pane has a height yet. */
    ghost predicate ShowsOnScreen(cells: seq<LineCell>, docIndex: nat)
      reads this
    {
      var height := LeastHeight(paneHeights);
      && 0 <= rowOffset
      && |cells| == (if height == 0 then |comparison.rows| - rowOffset else Min(height, |comparison.rows| - rowOffset))
      && forall k :: 0 <= k < |cells| ==>
           var row := comparison.rows[rowOffset + k];
           docIndex < |row.cells| && cells[k] == row.cells[docIndex]
    }

    /** render and renderDocument: the slice of rows and the cell of every row are in range, for every pane. */
    method Render() returns (panes: seq<seq<LineCell>>)
      requires Valid()
      modifies this`rowOffset, this`colOffset
      ensures Valid() && rowOffset == Min(old(rowOffset), Limit())
      ensures |panes| == |comparison.documents|
      ensures forall d :: 0 <= d < |panes| ==> ShowsOnScreen(panes[d], d)
    {
      var limit := MaxRowOffset();
      rowOffset := Min(rowOffset, limit);
      colOffset := Max(0, colOffset);
      panes := [];
      for d := 0 to |comparison.documents|
        invariant Valid() && |panes| == d && rowOffset == Min(old(rowOffset), Limit())
        invariant forall k :: 0 <= k < d ==> ShowsOnScreen(panes[k], k)
      {
        var pane := RenderDocument(d);
        panes := panes + [pane];
      }
    }

    method RenderDocument(docIndex: nat) returns (cells: seq<LineCell>)
      requires Valid() && docIndex < |comparison.documents|
      ensures ShowsOnScreen(cells, docIndex)
    {
      var start, end := rowOffset, |comparison.rows|;
      var visible := VisibleHeight();
      if visible > 0 {
        end := Min(|comparison.rows|, start + visible);
      }
      RowsSuffice();
      cells := [];
      assert forall r :: 0 <= r < |comparison.rows| ==> comparison.rows[r].cells == CellsOf(comparison.rows)[r];
      for r := start to end
        invariant |cells| == r - start
        invariant forall k :: 0 <= k < |cells| ==>
          docIndex < |comparison.rows[start + k].cells| && cells[k] == comparison.rows[start + k].cells[docIndex]
      {
        cells := cells + [comparison.rows[r].cells[docIndex]];
      }
    }

    lemma RowsSuffice()
      requires Valid()
      ensures rowOffset <= |comparison.rows|
    {
      var documents := comparison.documents;
      if MaxLines(documents) > 0 {
        var c :| 0 <= c < |documents| && |documents[c].lines| == MaxLines(documents);
        FaithfulIsLongEnough(CellsOf(comparison.rows), documents, c);
      }
    }
  }
}
