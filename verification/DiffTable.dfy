/** The table that `AlignDocuments` folds out of the pairwise alignments, and what a reader finds in it. */
module DiffTable {
  import opened DiffAlign

  // ---- The table, cell by cell ----

  ghost predicate Shaped(als: seq<PairAlignment>, n: nat) {
    forall c :: 0 <= c < |als| ==> |als[c].mapped| == n && |als[c].inserts| == n + 1
  }

  /** Column c of the table is alignment c; the base document is aligned with itself. */
  ghost function PairAlignments(documents: seq<Document>, scripts: seq<seq<OpCode>>): (als: seq<PairAlignment>)
    requires ValidInput(documents, scripts) && documents != []
    ensures |als| == |documents| && Shaped(als, |documents[0].lines|)
  {
    var base := documents[0].lines;
    seq(|documents|, c requires 0 <= c < |documents| =>
      if c == 0 then PairAlignment(Numbered(base), Empties(|base| + 1))
      else Alignment(scripts[c - 1], base, documents[c].lines))
  }

  ghost function BaseCells(als: seq<PairAlignment>, n: nat, i: nat): seq<LineCell>
    requires Shaped(als, n) && i < n
  {
    seq(|als|, c requires 0 <= c < |als| => als[c].mapped[i])
  }

  /** The largest number of lines that any document inserts at segment q. */
  ghost function Height(als: seq<PairAlignment>, n: nat, q: nat): (h: nat)
    requires Shaped(als, n) && q <= n
    ensures forall c :: 0 <= c < |als| ==> |als[c].inserts[q]| <= h
    ensures h == 0 || exists c :: 0 <= c < |als| && |als[c].inserts[q]| == h
  {
    if als == [] then 0
    else
      var last := |als| - 1;
      var h := Height(als[..last], n, q);
      if |als[last].inserts[q]| > h then |als[last].inserts[q]| else h
  }

  ghost function InsertedCells(als: seq<PairAlignment>, n: nat, q: nat, r: nat): seq<LineCell>
    requires Shaped(als, n) && q <= n
  {
    seq(|als|, c requires 0 <= c < |als| => if r < |als[c].inserts[q]| then als[c].inserts[q][r] else BLANK)
  }

  ghost function Segment(als: seq<PairAlignment>, n: nat, q: nat): (rows: seq<seq<LineCell>>)
    requires Shaped(als, n) && q <= n
    ensures |rows| == Height(als, n, q)
  {
    seq(Height(als, n, q), r requires 0 <= r => InsertedCells(als, n, q, r))
  }

  ghost function BaseRows(als: seq<PairAlignment>, n: nat): seq<seq<LineCell>>
    requires Shaped(als, n)
  {
    seq(n, i requires 0 <= i < n => BaseCells(als, n, i))
  }

  ghost function Segments(als: seq<PairAlignment>, n: nat): seq<seq<seq<LineCell>>>
    requires Shaped(als, n)
  {
    seq(n + 1, q requires 0 <= q <= n => Segment(als, n, q))
  }

  ghost function Table(als: seq<PairAlignment>, n: nat): seq<seq<LineCell>>
    requires Shaped(als, n)
  {
    Interleave(BaseRows(als, n), Segments(als, n))
  }

  // ---- Every row ----

  lemma {:induction false} InterleaveElement<T>(base: seq<T>, segments: seq<seq<T>>, r: nat)
    requires |segments| == |base| + 1 && r < |Interleave(base, segments)|
    ensures Interleave(base, segments)[r] in base
         || exists q :: 0 <= q < |segments| && Interleave(base, segments)[r] in segments[q]
  {
    if base != [] {
      var n := |base| - 1;
      var front := Interleave(base[..n], segments[..n + 1]);
      if r < |front| {
        InterleaveElement(base[..n], segments[..n + 1], r);
      } else if r > |front| {
        assert Interleave(base, segments)[r] == segments[n + 1][r - |front| - 1];
      }
    }
  }

  /** Every row has one cell per document and shows a line of at least one. */
  lemma TableRow(als: seq<PairAlignment>, n: nat, r: nat)
    requires Shaped(als, n) && als != [] && r < |Table(als, n)|
    requires forall i :: 0 <= i < n ==> als[0].mapped[i].present
    requires forall c, q :: 0 <= c < |als| && 0 <= q <= n ==>
      forall k :: 0 <= k < |als[c].inserts[q]| ==> als[c].inserts[q][k].present
    ensures |Table(als, n)[r]| == |als|
    ensures exists c :: 0 <= c < |als| && Table(als, n)[r][c].present
  {
    hide Interleave;
    InterleaveElement(BaseRows(als, n), Segments(als, n), r);
    var row := Table(als, n)[r];
    if row in BaseRows(als, n) {
      assert row[0].present;
    } else {
      var q :| 0 <= q <= n && row in Segments(als, n)[q];
      var k :| 0 <= k < Height(als, n, q) && row == InsertedCells(als, n, q, k);
      var c :| 0 <= c < |als| && |als[c].inserts[q]| == Height(als, n, q);
      assert row[c].present;
    }
  }

  // ---- Every column ----

  /** Padding and neighbouring documents do not show in a column: it reads as that document's own alignment. */
  lemma {:induction false} ColumnOfInterleave(rows: seq<seq<LineCell>>, segments: seq<seq<seq<LineCell>>>, c: nat,
                                              a: PairAlignment)
    requires |segments| == |rows| + 1 && |a.mapped| == |rows| && |a.inserts| == |segments|
    requires forall i :: 0 <= i < |rows| ==> c < |rows[i]| && rows[i][c] == a.mapped[i]
    requires forall q :: 0 <= q < |segments| ==>
      && (forall r :: 0 <= r < |segments[q]| ==> c < |segments[q][r]|)
      && PresentCells(Column(segments[q], c)) == PresentCells(a.inserts[q])
    ensures forall r :: 0 <= r < |Interleave(rows, segments)| ==> c < |Interleave(rows, segments)[r]|
    ensures PresentCells(Column(Interleave(rows, segments), c)) == Reading(a)
  {
    if rows != [] {
      var n := |rows| - 1;
      var front := PairAlignment(a.mapped[..n], a.inserts[..n + 1]);
      ColumnOfInterleave(rows[..n], segments[..n + 1], c, front);
      var before := Interleave(rows[..n], segments[..n + 1]);
      ColumnAppend(before, [rows[n]], c);
      ColumnAppend(before + [rows[n]], segments[n + 1], c);
      assert Column([rows[n]], c) == [a.mapped[n]];
      PresentAppendTwice(Column(before, c), [a.mapped[n]], Column(segments[n + 1], c));
      PresentAppendTwice(Interleave(front.mapped, front.inserts), [a.mapped[n]], a.inserts[n + 1]);
    }
  }

  lemma ColumnAppend(xs: seq<seq<LineCell>>, ys: seq<seq<LineCell>>, c: nat)
    requires forall r :: 0 <= r < |xs| ==> c < |xs[r]|
    requires forall r :: 0 <= r < |ys| ==> c < |ys[r]|
    ensures forall r :: 0 <= r < |xs + ys| ==> c < |(xs + ys)[r]|
    ensures Column(xs + ys, c) == Column(xs, c) + Column(ys, c)
  {
  }

  lemma SegmentColumn(als: seq<PairAlignment>, n: nat, q: nat, c: nat)
    requires Shaped(als, n) && q <= n && c < |als|
    ensures PresentCells(Column(Segment(als, n, q), c)) == PresentCells(als[c].inserts[q])
  {
    var cells, own := Column(Segment(als, n, q), c), als[c].inserts[q];
    assert cells == own + cells[|own|..];
    PresentAppend(own, cells[|own|..]);
    AllBlank(cells[|own|..]);
  }

  lemma TableColumn(als: seq<PairAlignment>, n: nat, c: nat)
    requires Shaped(als, n) && c < |als|
    ensures forall r :: 0 <= r < |Table(als, n)| ==> c < |Table(als, n)[r]|
    ensures PresentCells(Column(Table(als, n), c)) == Reading(als[c])
  {
    forall q | 0 <= q <= n
      ensures PresentCells(Column(Segments(als, n)[q], c)) == PresentCells(als[c].inserts[q])
    {
      SegmentColumn(als, n, q, c);
    }
    ColumnOfInterleave(BaseRows(als, n), Segments(als, n), c, als[c]);
  }

  // ---- The number of rows ----

  ghost function TotalLength<T>(segments: seq<seq<T>>): nat {
    if segments == [] then 0 else TotalLength(segments[..|segments| - 1]) + |segments[|segments| - 1]|
  }

  lemma {:induction false} InterleaveLength<T>(base: seq<T>, segments: seq<seq<T>>)
    requires |segments| == |base| + 1
    ensures |Interleave(base, segments)| == |base| + TotalLength(segments)
  {
    if base == [] {
      assert segments[..0] == [];
    } else {
      InterleaveLength(base[..|base| - 1], segments[..|base|]);
    }
  }

  lemma {:induction false} PresentLength(cells: seq<LineCell>)
    ensures |PresentCells(cells)| <= |cells|
  {
    if cells != [] {
      PresentLength(cells[..|cells| - 1]);
    }
  }

  ghost function SumOfHeights(als: seq<PairAlignment>, n: nat, count: nat): nat
    requires Shaped(als, n) && count <= n + 1
  {
    if count == 0 then 0 else SumOfHeights(als, n, count - 1) + Height(als, n, count - 1)
  }

  lemma {:induction false} TotalIsSumOfHeights(als: seq<PairAlignment>, n: nat, count: nat)
    requires Shaped(als, n) && count <= n + 1
    ensures TotalLength(Segments(als, n)[..count]) == SumOfHeights(als, n, count)
  {
    hide Height;
    if count > 0 {
      TotalIsSumOfHeights(als, n, count - 1);
      assert Segments(als, n)[..count][..count - 1] == Segments(als, n)[..count - 1];
    }
  }

  /** As many rows as base lines, plus the largest insertion at each place between them. */
  lemma TableLength(als: seq<PairAlignment>, n: nat)
    requires Shaped(als, n)
    ensures |Table(als, n)| == n + SumOfHeights(als, n, n + 1)
  {
    hide Interleave, TotalLength, SumOfHeights, Segment;
    InterleaveLength(BaseRows(als, n), Segments(als, n));
    TotalIsSumOfHeights(als, n, n + 1);
    assert Segments(als, n)[..n + 1] == Segments(als, n);
  }

  /** The lines of the other document that the first n opcodes insert just before base line q. */
  ghost function InsertedAt(ops: seq<OpCode>, n: nat, q: nat): nat
    requires n <= |ops|
  {
    if n == 0 then 0 else InsertedAt(ops, n - 1, q) + (if ops[n - 1].i2 == q then Excess(ops[n - 1]) else 0)
  }

  ghost function Excess(op: OpCode): nat {
    if op.j2 - op.j1 > op.i2 - op.i1 then op.j2 - op.j1 - (op.i2 - op.i1) else 0
  }

  lemma {:induction false} InsertedLength(ops: seq<OpCode>, n: nat, base: seq<string>, other: seq<string>, q: nat)
    requires ValidScript(ops, base, other) && n <= |ops|
    ensures InsertedAt(ops, n, q) == if q <= EndI(ops, n) then |AlignPrefix(ops, n, base, other).inserts[q]| else 0
  {
    hide ValidScript, AlignPrefix, Overflow;
    if n == 0 {
      AlignStart(ops, base, other);
    } else {
      InsertedLength(ops, n - 1, base, other, q);
      InsertsStep(ops, n - 1, base, other, q);
      OverflowIsExcess(ops[n - 1], other);
    }
  }

  lemma OverflowIsExcess(op: OpCode, other: seq<string>)
    requires op.i1 <= op.i2 && op.j1 <= op.j2 <= |other|
    ensures |Overflow(op, other)| == Excess(op)
    ensures forall r :: 0 <= r < |Overflow(op, other)| ==> Overflow(op, other)[r].present
  {
    NumberedPresent(other);
  }

  /** What the next opcode adds to segment q. */
  lemma InsertsStep(ops: seq<OpCode>, n: nat, base: seq<string>, other: seq<string>, q: nat)
    requires ValidScript(ops, base, other) && n < |ops|
    ensures Continues(ops, n, base, other) && ops[n].i1 == EndI(ops, n) && ops[n].i2 == EndI(ops, n + 1)
    ensures q <= ops[n].i2 ==>
      AlignPrefix(ops, n + 1, base, other).inserts[q]
      == (if q <= ops[n].i1 then AlignPrefix(ops, n, base, other).inserts[q] else [])
         + (if q == ops[n].i2 then Overflow(ops[n], other) else [])
  {
    hide ValidScript, AlignPrefix, Extend, Paired, Overflow;
    AlignStep(ops, n, base, other);
    if q <= ops[n].i2 {
      ExtendAt(AlignPrefix(ops, n, base, other), Paired(ops[n], other), Overflow(ops[n], other), q);
    }
  }

  lemma {:induction false} InsertedAtLeast(ops: seq<OpCode>, n: nat, m: nat)
    requires m < n <= |ops|
    ensures InsertedAt(ops, n, ops[m].i2) >= Excess(ops[m])
  {
    if m < n - 1 {
      InsertedAtLeast(ops, n - 1, m);
    }
  }

  /** A line that the script pairs with a base line is shown in that base line's row; an unpaired base line
      has a blank there. */
  lemma {:induction false} PairedLinesShareRow(ops: seq<OpCode>, n: nat, base: seq<string>, other: seq<string>, m: nat,
                                               k: nat)
    requires ValidScript(ops, base, other) && m < n <= |ops| && k < ops[m].i2 - ops[m].i1
    ensures Continues(ops, m, base, other) && ops[m].i1 + k < EndI(ops, n)
    ensures AlignPrefix(ops, n, base, other).mapped[ops[m].i1 + k]
         == if k < ops[m].j2 - ops[m].j1 then LineCell(ops[m].j1 + k + 1, other[ops[m].j1 + k], true)
            else LineCell(0, "", false)
  {
    hide ValidScript, Continues, EndI, AlignPrefix, Paired;
    StandsWhereNextBegins(ops, m, base, other);
    StandsWhereNextBegins(ops, n - 1, base, other);
    if m < n - 1 {
      PairedLinesShareRow(ops, n - 1, base, other, m, k);
    } else {
      PairedAt(ops[m], other, k);
    }
    MappedAt(ops, n, base, other, ops[m].i1 + k);
  }

  lemma StandsWhereNextBegins(ops: seq<OpCode>, n: nat, base: seq<string>, other: seq<string>)
    requires ValidScript(ops, base, other) && n < |ops|
    ensures Continues(ops, n, base, other) && ValidOp(ops[n], base, other)
    ensures ops[n].i1 == EndI(ops, n) && ops[n].i2 == EndI(ops, n + 1)
  {
  }

  lemma PairedAt(op: OpCode, other: seq<string>, k: nat)
    requires op.i1 <= op.i2 && op.j1 <= op.j2 <= |other| && k < op.i2 - op.i1
    ensures Paired(op, other)[k] == if k < op.j2 - op.j1 then LineCell(op.j1 + k + 1, other[op.j1 + k], true)
                                    else LineCell(0, "", false)
  {
  }

  lemma MappedAt(ops: seq<OpCode>, n: nat, base: seq<string>, other: seq<string>, i: nat)
    requires ValidScript(ops, base, other) && 0 < n <= |ops| && i < EndI(ops, n)
    ensures Continues(ops, n - 1, base, other)
    ensures AlignPrefix(ops, n, base, other).mapped[i]
         == if i < EndI(ops, n - 1) then AlignPrefix(ops, n - 1, base, other).mapped[i]
            else Paired(ops[n - 1], other)[i - ops[n - 1].i1]
  {
    hide ValidScript, AlignPrefix, Extend, Paired, Overflow;
    AlignStep(ops, n - 1, base, other);
    ExtendAt(AlignPrefix(ops, n - 1, base, other), Paired(ops[n - 1], other), Overflow(ops[n - 1], other), i);
  }

  // ---- The promise to the reader ----

  /** Every row is complete and shows something, and column c reads back as document c, numbered from 1. */
  ghost predicate Faithful(rows: seq<seq<LineCell>>, documents: seq<Document>) {
    && (forall r :: 0 <= r < |rows| ==>
          |rows[r]| == |documents| && exists c :: 0 <= c < |rows[r]| && rows[r][c].present)
    && (forall c :: 0 <= c < |documents| ==> ShowLines(PresentCells(Column(rows, c)), documents[c].lines))
  }

  lemma AlignmentReads(documents: seq<Document>, scripts: seq<seq<OpCode>>, c: nat)
    requires ValidInput(documents, scripts) && c < |documents|
    ensures ShowLines(Reading(PairAlignments(documents, scripts)[c]), documents[c].lines)
  {
    hide Reading, Numbered, AlignPrefix;
    NumberedShows(documents[c].lines);
    if c == 0 {
      BaseReads(documents[0].lines);
    } else {
      AlignPrefixReads(scripts[c - 1], |scripts[c - 1]|, documents[0].lines, documents[c].lines);
    }
  }

  lemma BaseReads(base: seq<string>)
    ensures Reading(PairAlignment(Numbered(base), Empties(|base| + 1))) == Numbered(base)
  {
    hide Reading, Numbered, Extend, PresentCells, Empties;
    BaseExtends(Numbered(base));
    ExtendReads(PairAlignment([], [[]]), Numbered(base), []);
    NothingReads(base);
    NumberedPresent(base);
    AllPresent(Numbered(base));
    AllPresent([]);
  }

  lemma BaseExtends(cells: seq<LineCell>)
    ensures Extend(PairAlignment([], [[]]), cells, []) == PairAlignment(cells, Empties(|cells| + 1))
  {
    var a := Extend(PairAlignment([], [[]]), cells, []);
    forall q | 0 <= q <= |cells|
      ensures a.inserts[q] == []
    {
      ExtendAt(PairAlignment([], [[]]), cells, [], q);
    }
  }

  lemma {:induction false} InsertsPresentPrefix(ops: seq<OpCode>, n: nat, base: seq<string>, other: seq<string>, q: nat,
                                                k: nat)
    requires ValidScript(ops, base, other) && n <= |ops| && q <= EndI(ops, n)
    requires k < |AlignPrefix(ops, n, base, other).inserts[q]|
    ensures AlignPrefix(ops, n, base, other).inserts[q][k].present
  {
    hide ValidScript, AlignPrefix, Overflow;
    if n == 0 {
      AlignStart(ops, base, other);
    } else {
      InsertsStep(ops, n - 1, base, other, q);
      OverflowIsExcess(ops[n - 1], other);
      if q <= EndI(ops, n - 1) && k < |AlignPrefix(ops, n - 1, base, other).inserts[q]| {
        InsertsPresentPrefix(ops, n - 1, base, other, q, k);
      }
    }
  }

  lemma InsertsPresent(documents: seq<Document>, scripts: seq<seq<OpCode>>)
    requires ValidInput(documents, scripts) && documents != []
    ensures var als, n := PairAlignments(documents, scripts), |documents[0].lines|;
      && (forall i :: 0 <= i < n ==> als[0].mapped[i].present)
      && forall c, q :: 0 <= c < |als| && 0 <= q <= n ==>
           forall k :: 0 <= k < |als[c].inserts[q]| ==> als[c].inserts[q][k].present
  {
    var als, n := PairAlignments(documents, scripts), |documents[0].lines|;
    forall c, q, k | 0 <= c < |als| && 0 <= q <= n && 0 <= k < |als[c].inserts[q]|
      ensures als[c].inserts[q][k].present
    {
      if c > 0 {
        assert als[c] == Alignment(scripts[c - 1], documents[0].lines, documents[c].lines);
        InsertsPresentPrefix(scripts[c - 1], |scripts[c - 1]|, documents[0].lines, documents[c].lines, q, k);
      }
    }
  }

  lemma TableIsFaithful(documents: seq<Document>, scripts: seq<seq<OpCode>>)
    requires ValidInput(documents, scripts) && documents != []
    ensures Faithful(Table(PairAlignments(documents, scripts), |documents[0].lines|), documents)
  {
    var als, n := PairAlignments(documents, scripts), |documents[0].lines|;
    var rows: seq<seq<LineCell>> := Table(als, n);
    forall r | 0 <= r < |rows|
      ensures |rows[r]| == |documents| && exists c :: 0 <= c < |rows[r]| && rows[r][c].present
    {
      InsertsPresent(documents, scripts);
      TableRow(als, n, r);
    }
    forall c | 0 <= c < |documents|
      ensures ShowLines(PresentCells(Column(rows, c)), documents[c].lines)
    {
      TableColumn(als, n, c);
      AlignmentReads(documents, scripts, c);
    }
  }

  /** No document is longer than the table, which is what keeps the viewer's slices in range. */
  lemma FaithfulIsLongEnough(rows: seq<seq<LineCell>>, documents: seq<Document>, c: nat)
    requires Faithful(rows, documents) && c < |documents|
    ensures |documents[c].lines| <= |rows|
  {
    assert ShowLines(PresentCells(Column(rows, c)), documents[c].lines);
    PresentLength(Column(rows, c));
    assert |Column(rows, c)| == |rows|;
  }

  // ---- rowChanged, mergeInsertedRows, AlignDocuments ----

  method RowChanged(row: AlignedRow) returns (changed: bool)
    ensures changed <==> Disagrees(row.cells)
  {
    var reference, haveReference := "", false;
    ghost var first := 0;
    for i := 0 to |row.cells|
      invariant haveReference ==> 0 <= first < i && row.cells[first].present && row.cells[first].text == reference
      invariant haveReference ==> forall k :: first <= k < i ==> row.cells[k].present && row.cells[k].text == reference
      invariant forall k :: 0 <= k < (if haveReference then first else i) ==> !row.cells[k].present
    {
      var cell := row.cells[i];
      if !cell.present {
        if haveReference {
          return true;
        }
        continue;
      }
      if !haveReference {
        reference, haveReference, first := cell.text, true, i;
        continue;
      }
      if cell.text != reference {
        return true;
      }
    }
    if !haveReference {
      return false;
    }
    for i := 0 to |row.cells|
      invariant forall k :: 0 <= k < i ==> row.cells[k].present
    {
      if !row.cells[i].present {
        return true;
      }
    }
    return false;
  }

  method MergeInsertedRows(existing: seq<AlignedRow>, inserted: seq<LineCell>, previousDocCount: nat)
    returns (rows: seq<AlignedRow>)
    ensures |rows| == if |existing| > |inserted| then |existing| else |inserted|
    ensures forall i :: 0 <= i < |rows| ==>
      rows[i].cells == (if i < |existing| then existing[i].cells else Blanks(previousDocCount))
                       + [if i < |inserted| then inserted[i] else BLANK]
  {
    var maxRows := if |existing| > |inserted| then |existing| else |inserted|;
    rows := [];
    for i := 0 to maxRows
      invariant |rows| == i
      invariant forall k :: 0 <= k < i ==>
        rows[k].cells == (if k < |existing| then existing[k].cells else Blanks(previousDocCount))
                         + [if k < |inserted| then inserted[k] else BLANK]
    {
      if i < |existing| {
        var row := existing[i];
        if i < |inserted| {
          row := row.(cells := row.cells + [inserted[i]]);
        } else {
          row := row.(cells := row.cells + [BLANK]);
        }
        rows := rows + [row];
        continue;
      }
      rows := rows + [AlignedRow(Blanks(previousDocCount) + [inserted[i]], false)];
    }
  }

  ghost function CellsOf(rows: seq<AlignedRow>): seq<seq<LineCell>> {
    seq(|rows|, r requires 0 <= r < |rows| => rows[r].cells)
  }

  lemma SegmentGrows(als: seq<PairAlignment>, n: nat, d: nat, q: nat, existing: seq<AlignedRow>,
                     merged: seq<AlignedRow>)
    requires Shaped(als, n) && d < |als| && q <= n && CellsOf(existing) == Segment(als[..d], n, q)
    requires var inserted := als[d].inserts[q];
      && |merged| == (if |existing| > |inserted| then |existing| else |inserted|)
      && forall i :: 0 <= i < |merged| ==>
           merged[i].cells == (if i < |existing| then existing[i].cells else Blanks(d))
             + [if i < |inserted| then inserted[i] else BLANK]
    ensures CellsOf(merged) == Segment(als[..d + 1], n, q)
  {
    hide Height, InsertedCells;
    HeightGrows(als, n, d, q);
    assert |existing| == |CellsOf(existing)| == Height(als[..d], n, q);
    forall i | 0 <= i < |merged|
      ensures merged[i].cells == InsertedCells(als[..d + 1], n, q, i)
    {
      InsertedCellsGrow(als, n, d, q, i);
      if i < |existing| {
        assert existing[i].cells == CellsOf(existing)[i] == InsertedCells(als[..d], n, q, i);
      }
    }
  }

  lemma HeightGrows(als: seq<PairAlignment>, n: nat, d: nat, q: nat)
    requires Shaped(als, n) && d < |als| && q <= n
    ensures Height(als[..d + 1], n, q)
         == var h := Height(als[..d], n, q); if |als[d].inserts[q]| > h then |als[d].inserts[q]| else h
  {
    assert als[..d + 1][..d] == als[..d];
  }

  lemma InsertedCellsGrow(als: seq<PairAlignment>, n: nat, d: nat, q: nat, r: nat)
    requires Shaped(als, n) && d < |als| && q <= n
    ensures InsertedCells(als[..d + 1], n, q, r)
         == (if r < Height(als[..d], n, q) then InsertedCells(als[..d], n, q, r) else Blanks(d))
            + [if r < |als[d].inserts[q]| then als[d].inserts[q][r] else BLANK]
  {
  }

  /** The fold so far: base rows and segments show the first d documents. */
  ghost predicate RowsShow(als: seq<PairAlignment>, n: nat, d: nat, baseRows: seq<AlignedRow>)
    requires Shaped(als, n) && d <= |als|
  {
    |baseRows| == n && forall i :: 0 <= i < n ==> baseRows[i].cells == BaseCells(als[..d], n, i)
  }

  ghost predicate SegmentsShow(als: seq<PairAlignment>, n: nat, d: nat, segments: seq<seq<AlignedRow>>)
    requires Shaped(als, n) && d <= |als|
  {
    |segments| == n + 1 && forall q :: 0 <= q <= n ==> CellsOf(segments[q]) == Segment(als[..d], n, q)
  }

  /** The loop over the segments for document d. */
  method MergeSegments(ghost als: seq<PairAlignment>, ghost n: nat, d: nat, inserts: array<seq<LineCell>>,
                       segments: array<seq<AlignedRow>>)
    requires Shaped(als, n) && d < |als| && inserts.Length == segments.Length == n + 1 && inserts[..] == als[d].inserts
    requires SegmentsShow(als, n, d, segments[..])
    modifies segments
    ensures SegmentsShow(als, n, d + 1, segments[..])
  {
    hide Segment, CellsOf, MergedTo;
    ghost var given := inserts[..];
    MergeStarts(als, n, d, segments[..]);
    for q := 0 to segments.Length
      invariant inserts[..] == given
      invariant MergedTo(als, n, d, q, segments[..])
    {
      ghost var was := segments[..];
      NextToMerge(als, n, d, q, was);
      var merged := MergeInsertedRows(segments[q], inserts[q], d);
      SegmentGrows(als, n, d, q, segments[q], merged);
      MergeStep(als, n, d, q, was, merged);
      segments[q] := merged;
      assert segments[..] == was[q := merged];
    }
    MergeEnds(als, n, d, segments[..]);
  }

  /** The first q segments show document d too. */
  ghost predicate MergedTo(als: seq<PairAlignment>, n: nat, d: nat, q: nat, segments: seq<seq<AlignedRow>>)
    requires Shaped(als, n) && d < |als|
  {
    |segments| == n + 1 &&
    forall k :: 0 <= k <= n ==> CellsOf(segments[k]) == Segment(als[..if k < q then d + 1 else d], n, k)
  }

  lemma MergeStarts(als: seq<PairAlignment>, n: nat, d: nat, segments: seq<seq<AlignedRow>>)
    requires Shaped(als, n) && d < |als| && SegmentsShow(als, n, d, segments)
    ensures MergedTo(als, n, d, 0, segments)
  {
    hide Segment, CellsOf;
  }

  lemma NextToMerge(als: seq<PairAlignment>, n: nat, d: nat, q: nat, segments: seq<seq<AlignedRow>>)
    requires Shaped(als, n) && d < |als| && q <= n && MergedTo(als, n, d, q, segments)
    ensures |segments| == n + 1 && CellsOf(segments[q]) == Segment(als[..d], n, q)
  {
    hide Segment, CellsOf;
  }

  lemma MergeStep(als: seq<PairAlignment>, n: nat, d: nat, q: nat, segments: seq<seq<AlignedRow>>,
                  merged: seq<AlignedRow>)
    requires Shaped(als, n) && d < |als| && q < |segments| && MergedTo(als, n, d, q, segments)
    requires q <= n && CellsOf(merged) == Segment(als[..d + 1], n, q)
    ensures MergedTo(als, n, d, q + 1, segments[q := merged])
  {
    hide Segment, CellsOf;
  }

  lemma MergeEnds(als: seq<PairAlignment>, n: nat, d: nat, segments: seq<seq<AlignedRow>>)
    requires Shaped(als, n) && d < |als| && MergedTo(als, n, d, n + 1, segments)
    ensures SegmentsShow(als, n, d + 1, segments)
  {
    hide Segment, CellsOf;
  }

  /** The loop over the base rows for document d. */
  method AppendMapped(ghost als: seq<PairAlignment>, ghost n: nat, ghost d: nat, mapped: array<LineCell>,
                      baseRows: array<AlignedRow>)
    requires Shaped(als, n) && d < |als| && mapped.Length == baseRows.Length == n && mapped[..] == als[d].mapped
    requires RowsShow(als, n, d, baseRows[..])
    modifies baseRows
    ensures RowsShow(als, n, d + 1, baseRows[..])
  {
    for i := 0 to baseRows.Length
      invariant forall k :: 0 <= k < i ==> baseRows[k].cells == BaseCells(als[..d + 1], n, k)
      invariant forall k :: i <= k < n ==> baseRows[k].cells == BaseCells(als[..d], n, k)
    {
      assert mapped[i] == mapped[..][i];
      baseRows[i] := baseRows[i].(cells := baseRows[i].cells + [mapped[i]]);
    }
  }

  /** The closing loops: rows in table order, then the highlight flags. */
  method Flatten(baseRows: array<AlignedRow>, segments: array<seq<AlignedRow>>) returns (rows: seq<AlignedRow>)
    requires segments.Length == baseRows.Length + 1
    ensures rows == Interleave(baseRows[..], segments[..])
  {
    rows := [];
    for i := 0 to baseRows.Length
      invariant rows + segments[i] == Interleave(baseRows[..i], segments[..i + 1])
    {
      assert baseRows[..i + 1][..i] == baseRows[..i] && segments[..i + 2][..i + 1] == segments[..i + 1];
      rows := rows + segments[i];
      rows := rows + [baseRows[i]];
    }
    rows := rows + segments[segments.Length - 1];
    assert baseRows[..baseRows.Length] == baseRows[..] && segments[..segments.Length] == segments[..];
  }

  lemma {:induction false} CellsOfInterleave(baseRows: seq<AlignedRow>, segments: seq<seq<AlignedRow>>,
                                             base: seq<seq<LineCell>>, segs: seq<seq<seq<LineCell>>>)
    requires |segments| == |baseRows| + 1 && |segs| == |segments| && |base| == |baseRows|
    requires forall i :: 0 <= i < |base| ==> baseRows[i].cells == base[i]
    requires forall q :: 0 <= q < |segs| ==> CellsOf(segments[q]) == segs[q]
    ensures CellsOf(Interleave(baseRows, segments)) == Interleave(base, segs)
  {
    if base != [] {
      var n := |base| - 1;
      CellsOfInterleave(baseRows[..n], segments[..n + 1], base[..n], segs[..n + 1]);
    }
  }

  /** Before the loop the table shows the base document alone. */
  lemma BaseShows(documents: seq<Document>, scripts: seq<seq<OpCode>>, baseRows: seq<AlignedRow>,
                  segments: seq<seq<AlignedRow>>)
    requires ValidInput(documents, scripts) && documents != []
    requires var base := documents[0].lines;
      && |baseRows| == |base| && (forall i :: 0 <= i < |base| ==> baseRows[i].cells == [CellOf(base, i)])
      && |segments| == |base| + 1 && (forall q :: 0 <= q <= |base| ==> segments[q] == [])
    ensures RowsShow(PairAlignments(documents, scripts), |documents[0].lines|, 1, baseRows)
    ensures SegmentsShow(PairAlignments(documents, scripts), |documents[0].lines|, 1, segments)
  {
    var als, n := PairAlignments(documents, scripts), |documents[0].lines|;
    assert als[..1] == [PairAlignment(Numbered(documents[0].lines), Empties(n + 1))];
    forall q | 0 <= q <= n
      ensures Height(als[..1], n, q) == 0
    {
      assert als[..1][..0] == [];
    }
  }

  /** After the loop the flattened rows are the table. */
  lemma AllShown(documents: seq<Document>, scripts: seq<seq<OpCode>>, baseRows: seq<AlignedRow>,
                 segments: seq<seq<AlignedRow>>)
    requires ValidInput(documents, scripts) && documents != []
    requires RowsShow(PairAlignments(documents, scripts), |documents[0].lines|, |documents|, baseRows)
    requires SegmentsShow(PairAlignments(documents, scripts), |documents[0].lines|, |documents|, segments)
    ensures CellsOf(Interleave(baseRows, segments)) == Table(PairAlignments(documents, scripts), |documents[0].lines|)
    ensures Faithful(CellsOf(Interleave(baseRows, segments)), documents)
  {
    var als, n := PairAlignments(documents, scripts), |documents[0].lines|;
    assert als[..|documents|] == als;
    CellsOfInterleave(baseRows, segments, BaseRows(als, n), Segments(als, n));
    TableIsFaithful(documents, scripts);
  }

  /** One turn of the loop over the documents that follow the base. */
  method FoldDocument(ghost als: seq<PairAlignment>, d: nat, base: seq<string>, other: seq<string>, ops: seq<OpCode>,
                      baseRows: array<AlignedRow>, segments: array<seq<AlignedRow>>)
    requires ValidScript(ops, base, other) && Shaped(als, |base|) && d < |als| && als[d] == Alignment(ops, base, other)
    requires RowsShow(als, |base|, d, baseRows[..]) && SegmentsShow(als, |base|, d, segments[..])
    modifies baseRows, segments
    ensures RowsShow(als, |base|, d + 1, baseRows[..]) && SegmentsShow(als, |base|, d + 1, segments[..])
  {
    hide BaseCells, CellsOf, Segment, Reading, Alignment;
    var mapped, inserts := AlignToBase(base, other, ops);
    assert |baseRows[..]| == baseRows.Length && |segments[..]| == segments.Length;
    MergeSegments(als, |base|, d, inserts, segments);
    AppendMapped(als, |base|, d, mapped, baseRows);
  }

  method AlignDocuments(documents: seq<Document>, scripts: seq<seq<OpCode>>) returns (comparison: Comparison)
    requires ValidInput(documents, scripts)
    ensures documents == [] ==> comparison == Comparison([], [])
    ensures comparison.documents == documents
    ensures documents != [] ==>
      CellsOf(comparison.rows) == Table(PairAlignments(documents, scripts), |documents[0].lines|)
    ensures Faithful(CellsOf(comparison.rows), documents)
    ensures forall r :: 0 <= r < |comparison.rows| ==>
      (comparison.rows[r].changed <==> Disagrees(comparison.rows[r].cells))
  {
    if |documents| == 0 {
      return Comparison([], []);
    }
    var baseRows, insertSegments := BaseTable(documents, scripts);
    FoldDocuments(documents, scripts, baseRows, insertSegments);
    AllShown(documents, scripts, baseRows[..], insertSegments[..]);
    var rows := Flatten(baseRows, insertSegments);
    rows := MarkChanged(rows);
    return Comparison(documents, rows);
  }

  /** The base document alone: its lines, and a segment for insertions around each of them. */
  method BaseTable(documents: seq<Document>, ghost scripts: seq<seq<OpCode>>)
      returns (baseRows: array<AlignedRow>, segments: array<seq<AlignedRow>>)
    requires ValidInput(documents, scripts) && documents != []
    ensures fresh(baseRows) && fresh(segments)
    ensures RowsShow(PairAlignments(documents, scripts), |documents[0].lines|, 1, baseRows[..])
    ensures SegmentsShow(PairAlignments(documents, scripts), |documents[0].lines|, 1, segments[..])
  {
    var base := documents[0].lines;
    baseRows := new AlignedRow[|base|](i requires 0 <= i < |base| =>
      AlignedRow([LineCell(i + 1, base[i], true)], false));
    segments := new seq<AlignedRow>[|base| + 1](_ => []);
    BaseShows(documents, scripts, baseRows[..], segments[..]);
  }

  /** The loop over the documents that follow the base. */
  method FoldDocuments(documents: seq<Document>, scripts: seq<seq<OpCode>>, baseRows: array<AlignedRow>,
                       segments: array<seq<AlignedRow>>)
    requires ValidInput(documents, scripts) && documents != []
    requires RowsShow(PairAlignments(documents, scripts), |documents[0].lines|, 1, baseRows[..])
    requires SegmentsShow(PairAlignments(documents, scripts), |documents[0].lines|, 1, segments[..])
    modifies baseRows, segments
    ensures RowsShow(PairAlignments(documents, scripts), |documents[0].lines|, |documents|, baseRows[..])
    ensures SegmentsShow(PairAlignments(documents, scripts), |documents[0].lines|, |documents|, segments[..])
  {
    var base := documents[0].lines;
    ghost var als, n := PairAlignments(documents, scripts), |base|;
    for d := 1 to |documents|
      invariant RowsShow(als, n, d, baseRows[..]) && SegmentsShow(als, n, d, segments[..])
    {
      FoldDocument(als, d, base, documents[d].lines, scripts[d - 1], baseRows, segments);
    }
  }

  method MarkChanged(rows: seq<AlignedRow>) returns (marked: seq<AlignedRow>)
    ensures CellsOf(marked) == CellsOf(rows)
    ensures forall r :: 0 <= r < |marked| ==> (marked[r].changed <==> Disagrees(marked[r].cells))
  {
    marked := rows;
    for i := 0 to |rows|
      invariant |marked| == |rows| && forall k :: 0 <= k < |rows| ==> marked[k].cells == rows[k].cells
      invariant forall k :: 0 <= k < i ==> (marked[k].changed <==> Disagrees(marked[k].cells))
    {
      var changed := RowChanged(marked[i]);
      marked := marked[i := marked[i].(changed := changed)];
    }
  }
}
