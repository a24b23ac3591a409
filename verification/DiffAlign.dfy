/** The n-way alignment of `internal/lsdiff/align.go`.

    Document 0 is the base.  Every other document is compared with it by a
    matcher, which is not modelled: its result is an arbitrary script of opcodes
    meeting the matcher's contract, `ValidScript`. */
module DiffAlign {
  import Bytes

  datatype Document = Document(lines: seq<string>)
  datatype LineCell = LineCell(lineNo: nat, text: string, present: bool)
  datatype AlignedRow = AlignedRow(cells: seq<LineCell>, changed: bool)
  datatype Comparison = Comparison(documents: seq<Document>, rows: seq<AlignedRow>)
  datatype PairAlignment = PairAlignment(mapped: seq<LineCell>, inserts: seq<seq<LineCell>>)

  datatype Tag = Equal | Delete | Insert | Replace
  datatype OpCode = OpCode(tag: Tag, i1: nat, i2: nat, j1: nat, j2: nat)

  const BLANK := LineCell(0, "", false)

  // ---- The matcher's contract ----

  predicate ValidOp(op: OpCode, base: seq<string>, other: seq<string>) {
    && op.i1 <= op.i2 <= |base|
    && op.j1 <= op.j2 <= |other|
    && (op.tag.Equal? ==> base[op.i1..op.i2] == other[op.j1..op.j2])
    && (op.tag.Delete? ==> op.j1 == op.j2)
    && (op.tag.Insert? ==> op.i1 == op.i2)
  }

  /** Where the first n opcodes end. */
  function EndI(ops: seq<OpCode>, n: nat): nat
    requires n <= |ops|
  {
    if n == 0 then 0 else ops[n - 1].i2
  }

  function EndJ(ops: seq<OpCode>, n: nat): nat
    requires n <= |ops|
  {
    if n == 0 then 0 else ops[n - 1].j2
  }

  predicate Continues(ops: seq<OpCode>, k: nat, base: seq<string>, other: seq<string>) {
    k < |ops| && ops[k].i1 == EndI(ops, k) && ops[k].j1 == EndJ(ops, k) && ValidOp(ops[k], base, other)
  }

  /** The opcodes consume both documents from their start to their end, without a gap. */
  predicate ValidScript(ops: seq<OpCode>, base: seq<string>, other: seq<string>) {
    && (forall k :: 0 <= k < |ops| ==> Continues(ops, k, base, other))
    && EndI(ops, |ops|) == |base| && EndJ(ops, |ops|) == |other|
  }

  predicate ValidInput(documents: seq<Document>, scripts: seq<seq<OpCode>>) {
    documents != [] ==>
      && |scripts| == |documents| - 1
      && forall c :: 1 <= c < |documents| ==> ValidScript(scripts[c - 1], documents[0].lines, documents[c].lines)
  }

  // ---- What an aligned document must look like ----

  function CellOf(lines: seq<string>, j: nat): LineCell
    requires j < |lines|
  {
    LineCell(j + 1, lines[j], true)
  }

  /** A document as the cells that a reader of its column should meet. */
  function Numbered(lines: seq<string>): (cells: seq<LineCell>)
    ensures |cells| == |lines|
  {
    seq(|lines|, j requires 0 <= j < |lines| => CellOf(lines, j))
  }

  /** The cells are the document's lines, all of them, in order and numbered from 1. */
  ghost predicate ShowLines(cells: seq<LineCell>, lines: seq<string>) {
    && |cells| == |lines|
    && forall j :: 0 <= j < |lines| ==> cells[j].present && cells[j].lineNo == j + 1 && cells[j].text == lines[j]
  }

  lemma NumberedShows(lines: seq<string>)
    ensures ShowLines(Numbered(lines), lines)
  {
  }

  function PresentCells(cells: seq<LineCell>): seq<LineCell> {
    if cells == [] then []
    else
      var last := cells[|cells| - 1];
      PresentCells(cells[..|cells| - 1]) + (if last.present then [last] else [])
  }

  function Column(rows: seq<seq<LineCell>>, c: nat): seq<LineCell>
    requires forall r :: 0 <= r < |rows| ==> c < |rows[r]|
  {
    seq(|rows|, r requires 0 <= r < |rows| => rows[r][c])
  }

  /** segments[0], base[0], segments[1], base[1], ..., segments[n]. */
  function Interleave<T>(base: seq<T>, segments: seq<seq<T>>): seq<T>
    requires |segments| == |base| + 1
  {
    if base == [] then segments[0]
    else
      var n := |base| - 1;
      Interleave(base[..n], segments[..n + 1]) + [base[n]] + segments[n + 1]
  }

  /** The row a viewer highlights: some document has a line that another lacks or has differently. */
  predicate Disagrees(cells: seq<LineCell>) {
    exists p, q :: 0 <= p < |cells| && 0 <= q < |cells| && cells[p].present &&
                   (!cells[q].present || cells[q].text != cells[p].text)
  }

  // ---- The pairwise alignment, per opcode ----

  function Paired(op: OpCode, other: seq<string>): (cells: seq<LineCell>)
    requires op.i1 <= op.i2 && op.j1 <= op.j2 <= |other|
    ensures |cells| == op.i2 - op.i1
  {
    seq(op.i2 - op.i1, k requires 0 <= k => if k < op.j2 - op.j1 then CellOf(other, op.j1 + k) else BLANK)
  }

  function Overflow(op: OpCode, other: seq<string>): seq<LineCell>
    requires op.i1 <= op.i2 && op.j1 <= op.j2 <= |other|
  {
    if op.j2 - op.j1 <= op.i2 - op.i1 then [] else Numbered(other)[op.j1 + (op.i2 - op.i1)..op.j2]
  }

  function Empties<T>(n: nat): (segments: seq<seq<T>>)
    ensures |segments| == n && forall q :: 0 <= q < n ==> segments[q] == []
  {
    seq(n, _ => [])
  }

  /** `paired` cells extend the base rows; `overflow` cells join the segment that follows them. */
  function Extend(a: PairAlignment, paired: seq<LineCell>, overflow: seq<LineCell>): (b: PairAlignment)
    requires |a.inserts| == |a.mapped| + 1
    ensures |b.mapped| == |a.mapped| + |paired| && |b.inserts| == |b.mapped| + 1
  {
    var widened := a.inserts + Empties(|paired|);
    var last := |a.mapped| + |paired|;
    PairAlignment(a.mapped + paired, widened[last := widened[last] + overflow])
  }

  /** Mapped cells and insert segments once the first n opcodes are consumed: the last segment is still open. */
  function AlignPrefix(ops: seq<OpCode>, n: nat, base: seq<string>, other: seq<string>): (a: PairAlignment)
    requires ValidScript(ops, base, other) && n <= |ops|
    ensures |a.mapped| == EndI(ops, n) && |a.inserts| == EndI(ops, n) + 1
  {
    if n == 0 then PairAlignment([], [[]])
    else
      assert Continues(ops, n - 1, base, other);
      Extend(AlignPrefix(ops, n - 1, base, other), Paired(ops[n - 1], other), Overflow(ops[n - 1], other))
  }

  lemma AlignStart(ops: seq<OpCode>, base: seq<string>, other: seq<string>)
    requires ValidScript(ops, base, other)
    ensures AlignPrefix(ops, 0, base, other) == PairAlignment([], [[]])
  {
  }

  /** The next opcode extends the alignment, which stands where the opcode begins. */
  lemma AlignStep(ops: seq<OpCode>, n: nat, base: seq<string>, other: seq<string>)
    requires ValidScript(ops, base, other) && n < |ops|
    ensures Continues(ops, n, base, other) && |AlignPrefix(ops, n, base, other).mapped| == ops[n].i1
    ensures AlignPrefix(ops, n + 1, base, other)
         == Extend(AlignPrefix(ops, n, base, other), Paired(ops[n], other), Overflow(ops[n], other))
  {
  }

  function Alignment(ops: seq<OpCode>, base: seq<string>, other: seq<string>): (a: PairAlignment)
    requires ValidScript(ops, base, other)
    ensures |a.mapped| == |base| && |a.inserts| == |base| + 1
  {
    AlignPrefix(ops, |ops|, base, other)
  }

  lemma ExtendAt(a: PairAlignment, paired: seq<LineCell>, overflow: seq<LineCell>, q: nat)
    requires |a.inserts| == |a.mapped| + 1 && q <= |a.mapped| + |paired|
    ensures q < |a.mapped| + |paired| ==>
      Extend(a, paired, overflow).mapped[q] == if q < |a.mapped| then a.mapped[q] else paired[q - |a.mapped|]
    ensures Extend(a, paired, overflow).inserts[q]
         == (if q <= |a.mapped| then a.inserts[q] else []) + (if q == |a.mapped| + |paired| then overflow else [])
  {
  }

  // ---- Reading an interleaving ----

  lemma {:induction false} PresentAppend(xs: seq<LineCell>, ys: seq<LineCell>)
    ensures PresentCells(xs + ys) == PresentCells(xs) + PresentCells(ys)
  {
    if ys == [] {
      assert xs + ys == xs;
    } else {
      var n := |ys| - 1;
      PresentAppend(xs, ys[..n]);
      assert (xs + ys)[..|xs + ys| - 1] == xs + ys[..n];
    }
  }

  lemma PresentAppendTwice(xs: seq<LineCell>, ys: seq<LineCell>, zs: seq<LineCell>)
    ensures PresentCells(xs + ys + zs) == PresentCells(xs) + (PresentCells(ys) + PresentCells(zs))
  {
    PresentAppend(xs + ys, zs);
    PresentAppend(xs, ys);
    Bytes.ConcatAssociative(PresentCells(xs), PresentCells(ys), PresentCells(zs));
  }

  lemma {:induction false} AllPresent(cells: seq<LineCell>)
    requires forall r :: 0 <= r < |cells| ==> cells[r].present
    ensures PresentCells(cells) == cells
  {
    if cells != [] {
      AllPresent(cells[..|cells| - 1]);
    }
  }

  lemma {:induction false} AllBlank(cells: seq<LineCell>)
    requires forall r :: 0 <= r < |cells| ==> !cells[r].present
    ensures PresentCells(cells) == []
  {
    if cells != [] {
      AllBlank(cells[..|cells| - 1]);
    }
  }

  /** Extending the base with cells and empty segments appends those cells to the reading. */
  lemma {:induction false} InterleaveExtend<T>(base: seq<T>, segments: seq<seq<T>>, more: seq<T>)
    requires |segments| == |base| + 1
    ensures Interleave(base + more, segments + Empties(|more|)) == Interleave(base, segments) + more
  {
    if more == [] {
      assert base + more == base && segments + Empties(|more|) == segments;
    } else {
      var n := |more| - 1;
      InterleaveExtend(base, segments, more[..n]);
      assert (base + more)[..|base| + n] == base + more[..n];
      assert (segments + Empties(|more|))[..|base| + n + 1] == segments + Empties(n);
      assert more == more[..n] + [more[n]];
    }
  }

  /** Appending to the open segment appends to the reading. */
  lemma InterleaveAppend<T>(base: seq<T>, segments: seq<seq<T>>, more: seq<T>)
    requires |segments| == |base| + 1
    ensures Interleave(base, segments[|base| := segments[|base|] + more]) == Interleave(base, segments) + more
  {
    var after := segments[|base| := segments[|base|] + more];
    if base != [] {
      assert after[..|base|] == segments[..|base|];
    }
  }

  lemma SlicesJoin<T>(s: seq<T>, a: nat, b: nat, c: nat)
    requires a <= b <= c <= |s|
    ensures s[a..b] + s[b..c] == s[a..c]
  {
  }

  lemma SliceGrows<T>(s: seq<T>, a: nat, b: nat)
    requires a <= b < |s|
    ensures s[a..b + 1] == s[a..b] + [s[b]]
  {
  }

  function Blanks(n: nat): seq<LineCell> {
    seq(n, _ => BLANK)
  }

  function Common(op: OpCode): nat
    requires op.i1 <= op.i2 && op.j1 <= op.j2
  {
    if op.j2 - op.j1 < op.i2 - op.i1 then op.j2 - op.j1 else op.i2 - op.i1
  }

  /** The shape of a mapped range: lines as far as both ranges reach, then blanks. */
  lemma PairedSplit(op: OpCode, other: seq<string>)
    requires op.i1 <= op.i2 && op.j1 <= op.j2 <= |other|
    ensures Paired(op, other) == Numbered(other)[op.j1..op.j1 + Common(op)] + Blanks(op.i2 - op.i1 - Common(op))
  {
    var cells := Numbered(other)[op.j1..op.j1 + Common(op)] + Blanks(op.i2 - op.i1 - Common(op));
    forall k | 0 <= k < op.i2 - op.i1
      ensures cells[k] == Paired(op, other)[k]
    {
      if k < Common(op) {
        assert cells[k] == Numbered(other)[op.j1 + k];
      } else {
        assert cells[k] == Blanks(op.i2 - op.i1 - Common(op))[k - Common(op)];
      }
    }
  }

  lemma OverflowIsRest(op: OpCode, other: seq<string>)
    requires op.i1 <= op.i2 && op.j1 <= op.j2 <= |other|
    ensures Overflow(op, other) == Numbered(other)[op.j1 + Common(op)..op.j2]
  {
  }

  lemma PartsRead(lines: seq<LineCell>, blanks: seq<LineCell>, rest: seq<LineCell>)
    requires forall r :: 0 <= r < |lines| ==> lines[r].present
    requires forall r :: 0 <= r < |blanks| ==> !blanks[r].present
    requires forall r :: 0 <= r < |rest| ==> rest[r].present
    ensures PresentCells(lines + blanks) + PresentCells(rest) == lines + rest
  {
    hide PresentCells;
    PresentAppend(lines, blanks);
    AllPresent(lines);
    AllBlank(blanks);
    AllPresent(rest);
    assert lines + [] == lines;
  }

  lemma OpReads(op: OpCode, other: seq<string>)
    requires op.i1 <= op.i2 && op.j1 <= op.j2 <= |other|
    ensures PresentCells(Paired(op, other)) + PresentCells(Overflow(op, other)) == Numbered(other)[op.j1..op.j2]
  {
    hide Paired, Overflow, PresentCells, Blanks, Numbered;
    PairedSplit(op, other);
    OverflowIsRest(op, other);
    NumberedPresent(other);
    SlicesRead(Numbered(other), op.j1, op.j1 + Common(op), op.j2, op.i2 - op.i1 - Common(op));
  }

  lemma NumberedPresent(lines: seq<string>)
    ensures forall r :: 0 <= r < |lines| ==> Numbered(lines)[r].present
  {
  }

  lemma SlicesRead(cells: seq<LineCell>, a: nat, b: nat, c: nat, n: nat)
    requires a <= b <= c <= |cells| && forall r :: 0 <= r < |cells| ==> cells[r].present
    ensures PresentCells(cells[a..b] + Blanks(n)) + PresentCells(cells[b..c]) == cells[a..c]
  {
    hide PresentCells;
    PartsRead(cells[a..b], Blanks(n), cells[b..c]);
    SlicesJoin(cells, a, b, c);
  }

  ghost function Reading(a: PairAlignment): seq<LineCell>
    requires |a.inserts| == |a.mapped| + 1
  {
    PresentCells(Interleave(a.mapped, a.inserts))
  }

  lemma ExtendReads(a: PairAlignment, paired: seq<LineCell>, overflow: seq<LineCell>)
    requires |a.inserts| == |a.mapped| + 1
    ensures Reading(Extend(a, paired, overflow)) == Reading(a) + (PresentCells(paired) + PresentCells(overflow))
  {
    hide PresentCells, Interleave;
    var was := Interleave(a.mapped, a.inserts);
    var now := Extend(a, paired, overflow);
    assert Interleave(now.mapped, now.inserts) == was + paired + overflow by {
      InterleaveExtend(a.mapped, a.inserts, paired);
      InterleaveAppend(a.mapped + paired, a.inserts + Empties(|paired|), overflow);
    }
    PresentAppendTwice(was, paired, overflow);
  }

  /** Whatever the script pairs, deletes or inserts, the other document is read back up to where the script stands. */
  lemma {:induction false} AlignPrefixReads(ops: seq<OpCode>, n: nat, base: seq<string>, other: seq<string>)
    requires ValidScript(ops, base, other) && n <= |ops|
    ensures EndJ(ops, n) <= |other|
    ensures Reading(AlignPrefix(ops, n, base, other)) == Numbered(other)[..EndJ(ops, n)]
  {
    hide Reading, Numbered, Extend, Paired, Overflow;
    if n == 0 {
      NothingReads(other);
    } else {
      AlignStep(ops, n - 1, base, other);
      AlignPrefixReads(ops, n - 1, base, other);
      NextOpReads(AlignPrefix(ops, n - 1, base, other), ops[n - 1], other);
    }
  }

  lemma NothingReads(other: seq<string>)
    ensures Reading(PairAlignment([], [[]])) == Numbered(other)[..0]
  {
    assert Interleave<LineCell>([], [[]]) == [];
  }

  lemma NextOpReads(a: PairAlignment, op: OpCode, other: seq<string>)
    requires |a.inserts| == |a.mapped| + 1 && op.i1 <= op.i2 && op.j1 <= op.j2 <= |other|
    requires Reading(a) == Numbered(other)[..op.j1]
    ensures Reading(Extend(a, Paired(op, other), Overflow(op, other))) == Numbered(other)[..op.j2]
  {
    hide Paired, Overflow, Numbered, Extend, Reading;
    ExtendReads(a, Paired(op, other), Overflow(op, other));
    OpReads(op, other);
    SlicesJoin(Numbered(other), 0, op.j1, op.j2);
  }

  // ---- alignToBase ----

  /** The cells written over those from i on. */
  function Patched(s: seq<LineCell>, i: nat, cells: seq<LineCell>): (t: seq<LineCell>)
    requires i + |cells| <= |s|
    ensures |t| == |s|
  {
    s[..i] + cells + s[i + |cells|..]
  }

  lemma PatchNext(s: seq<LineCell>, i: nat, cells: seq<LineCell>, cell: LineCell)
    requires i + |cells| < |s|
    ensures Patched(s, i, cells)[i + |cells| := cell] == Patched(s, i, cells + [cell])
  {
  }

  lemma PatchTwice(s: seq<LineCell>, i: nat, cells: seq<LineCell>, more: seq<LineCell>)
    requires i + |cells| + |more| <= |s|
    ensures Patched(Patched(s, i, cells), i + |cells|, more) == Patched(s, i, cells + more)
  {
  }

  method CopyLines(mapped: array<LineCell>, i: nat, other: seq<string>, j: nat, count: nat)
    requires i + count <= mapped.Length && j + count <= |other|
    modifies mapped
    ensures mapped[..] == Patched(old(mapped[..]), i, Numbered(other)[j..j + count])
  {
    hide Patched, Numbered;
    PatchNothing(mapped[..], i);
    assert Numbered(other)[j..j] == [];
    for k := 0 to count
      invariant mapped[..] == Patched(old(mapped[..]), i, Numbered(other)[j..j + k])
    {
      CopyNext(old(mapped[..]), i, other, j, k);
      ghost var was := mapped[..];
      mapped[i + k] := LineCell(j + k + 1, other[j + k], true);
      assert mapped[..] == was[i + k := CellOf(other, j + k)];
    }
  }

  lemma CopyNext(s: seq<LineCell>, i: nat, other: seq<string>, j: nat, k: nat)
    requires i + k < |s| && j + k < |other|
    ensures Patched(s, i, Numbered(other)[j..j + k])[i + k := CellOf(other, j + k)]
         == Patched(s, i, Numbered(other)[j..j + k + 1])
  {
    PatchNext(s, i, Numbered(other)[j..j + k], CellOf(other, j + k));
    SliceGrows(Numbered(other), j, j + k);
  }

  method BlankLines(mapped: array<LineCell>, i: nat, end: nat)
    requires i <= end <= mapped.Length
    modifies mapped
    ensures mapped[..] == Patched(old(mapped[..]), i, Blanks(end - i))
  {
    hide Patched;
    PatchNothing(mapped[..], i);
    assert Blanks(0) == [];
    for k := i to end
      invariant mapped[..] == Patched(old(mapped[..]), i, Blanks(k - i))
    {
      BlankNext(old(mapped[..]), i, k - i);
      ghost var was := mapped[..];
      mapped[k] := BLANK;
      assert mapped[..] == was[k := BLANK];
    }
  }

  lemma BlankNext(s: seq<LineCell>, i: nat, n: nat)
    requires i + n < |s|
    ensures Patched(s, i, Blanks(n))[i + n := BLANK] == Patched(s, i, Blanks(n + 1))
  {
    PatchNext(s, i, Blanks(n), BLANK);
    assert Blanks(n + 1) == Blanks(n) + [BLANK];
  }

  lemma NumberedNext(lines: seq<string>, j: nat, k: nat)
    requires j <= k < |lines|
    ensures Numbered(lines)[j..k + 1] == Numbered(lines)[j..k] + [CellOf(lines, k)]
  {
    SliceGrows(Numbered(lines), j, k);
  }

  method InsertLines(inserts: array<seq<LineCell>>, row: nat, other: seq<string>, j: nat, end: nat)
    requires row < inserts.Length && j <= end <= |other|
    modifies inserts
    ensures inserts[row] == old(inserts[row]) + Numbered(other)[j..end]
    ensures forall q :: 0 <= q < inserts.Length && q != row ==> inserts[q] == old(inserts[q])
  {
    hide Numbered;
    for k := j to end
      invariant inserts[row] == old(inserts[row]) + Numbered(other)[j..k]
      invariant forall q :: 0 <= q < inserts.Length && q != row ==> inserts[q] == old(inserts[q])
    {
      NumberedNext(other, j, k);
      inserts[row] := inserts[row] + [LineCell(k + 1, other[k], true)];
    }
  }

  method ApplyReplace(op: OpCode, other: seq<string>, mapped: array<LineCell>, inserts: array<seq<LineCell>>)
    requires op.i1 <= op.i2 <= mapped.Length && op.j1 <= op.j2 <= |other| && inserts.Length == mapped.Length + 1
    modifies mapped, inserts
    ensures mapped[..] == Patched(old(mapped[..]), op.i1, Paired(op, other))
    ensures inserts[op.i2] == old(inserts[op.i2]) + Overflow(op, other)
    ensures forall q :: 0 <= q < inserts.Length && q != op.i2 ==> inserts[q] == old(inserts[q])
  {
    hide Patched, Paired, Overflow, Numbered, Blanks;
    var aLen, bLen := op.i2 - op.i1, op.j2 - op.j1;
    var common := if aLen < bLen then aLen else bLen;
    ghost var was := mapped[..];
    CopyLines(mapped, op.i1, other, op.j1, common);
    ghost var copied := mapped[..];
    BlankLines(mapped, op.i1 + common, op.i2);
    ReplaceWrites(op, other, was, copied, mapped[..]);
    InsertRest(op, other, inserts, common);
  }

  method InsertRest(op: OpCode, other: seq<string>, inserts: array<seq<LineCell>>, common: nat)
    requires op.i1 <= op.i2 < inserts.Length && op.j1 <= op.j2 <= |other| && common == Common(op)
    modifies inserts
    ensures inserts[op.i2] == old(inserts[op.i2]) + Overflow(op, other)
    ensures forall q :: 0 <= q < inserts.Length && q != op.i2 ==> inserts[q] == old(inserts[q])
  {
    hide Overflow, Numbered;
    OverflowIsRest(op, other);
    InsertLines(inserts, op.i1 + common, other, op.j1 + common, op.j2);
  }

  lemma ReplaceWrites(op: OpCode, other: seq<string>, was: seq<LineCell>, copied: seq<LineCell>, now: seq<LineCell>)
    requires op.i1 <= op.i2 <= |was| && op.j1 <= op.j2 <= |other|
    requires copied == Patched(was, op.i1, Numbered(other)[op.j1..op.j1 + Common(op)])
    requires |copied| == |was| && now == Patched(copied, op.i1 + Common(op), Blanks(op.i2 - op.i1 - Common(op)))
    ensures now == Patched(was, op.i1, Paired(op, other))
  {
    hide Patched, Paired, Numbered;
    PairedSplit(op, other);
    PatchTwice(was, op.i1, Numbered(other)[op.j1..op.j1 + Common(op)], Blanks(op.i2 - op.i1 - Common(op)));
  }

  /** One turn of the opcode switch. */
  method ApplyOp(op: OpCode, base: seq<string>, other: seq<string>, mapped: array<LineCell>,
                 inserts: array<seq<LineCell>>)
    requires ValidOp(op, base, other) && mapped.Length == |base| && inserts.Length == |base| + 1
    modifies mapped, inserts
    ensures mapped[..] == Patched(old(mapped[..]), op.i1, Paired(op, other))
    ensures inserts[op.i2] == old(inserts[op.i2]) + Overflow(op, other)
    ensures forall q :: 0 <= q < inserts.Length && q != op.i2 ==> inserts[q] == old(inserts[q])
  {
    hide Patched, Paired, Overflow, Numbered, Blanks;
    PlainOps(op, other);
    match op.tag
    case Equal =>
      assert op.i2 - op.i1 == |base[op.i1..op.i2]| == |other[op.j1..op.j2]| == op.j2 - op.j1;
      CopyLines(mapped, op.i1, other, op.j1, op.i2 - op.i1);
    case Delete =>
      BlankLines(mapped, op.i1, op.i2);
    case Insert =>
      InsertLines(inserts, op.i1, other, op.j1, op.j2);
      PatchNothing(mapped[..], op.i1);
    case Replace =>
      ApplyReplace(op, other, mapped, inserts);
  }

  lemma PatchNothing(s: seq<LineCell>, i: nat)
    requires i <= |s|
    ensures Patched(s, i, []) == s
  {
  }

  lemma PlainOps(op: OpCode, other: seq<string>)
    requires op.i1 <= op.i2 && op.j1 <= op.j2 <= |other|
    ensures op.i2 - op.i1 == op.j2 - op.j1 ==>
      Paired(op, other) == Numbered(other)[op.j1..op.j2] && Overflow(op, other) == []
    ensures op.j1 == op.j2 ==> Paired(op, other) == Blanks(op.i2 - op.i1) && Overflow(op, other) == []
    ensures op.i1 == op.i2 ==> Paired(op, other) == [] && Overflow(op, other) == Numbered(other)[op.j1..op.j2]
  {
    PairedSplit(op, other);
    OverflowIsRest(op, other);
    var cells := Numbered(other)[op.j1..op.j1 + Common(op)];
    assert cells + [] == cells && [] + Blanks(op.i2 - op.i1) == Blanks(op.i2 - op.i1);
  }

  /** The arrays hold the alignment of the opcodes consumed so far; later segments are still empty. */
  ghost predicate Holds(mapped: seq<LineCell>, inserts: seq<seq<LineCell>>, a: PairAlignment)
    requires |a.inserts| == |a.mapped| + 1
  {
    && |inserts| == |mapped| + 1
    && a.mapped <= mapped
    && a.inserts <= inserts
    && forall q :: |a.inserts| <= q < |inserts| ==> inserts[q] == []
  }

  lemma HoldsExtend(mapped: seq<LineCell>, inserts: seq<seq<LineCell>>, a: PairAlignment,
                    paired: seq<LineCell>, overflow: seq<LineCell>,
                    mapped': seq<LineCell>, inserts': seq<seq<LineCell>>)
    requires |a.inserts| == |a.mapped| + 1 && Holds(mapped, inserts, a) && |a.mapped| + |paired| <= |mapped|
    requires mapped' == Patched(mapped, |a.mapped|, paired)
    requires |inserts'| == |inserts| && inserts'[|a.mapped| + |paired|] == inserts[|a.mapped| + |paired|] + overflow
    requires forall q :: 0 <= q < |inserts| && q != |a.mapped| + |paired| ==> inserts'[q] == inserts[q]
    ensures Holds(mapped', inserts', Extend(a, paired, overflow))
  {
    hide Paired, Overflow;
    var now := Extend(a, paired, overflow);
    forall q | 0 <= q < |now.inserts|
      ensures now.inserts[q] == inserts'[q]
    {
      if q < |a.inserts| {
        assert a.inserts[q] == inserts[q];
      }
    }
    assert a.mapped == mapped[..|a.mapped|];
  }

  /** The arrays hold the alignment of the first n opcodes. */
  ghost predicate Consumed(ops: seq<OpCode>, n: nat, base: seq<string>, other: seq<string>,
                           mapped: seq<LineCell>, inserts: seq<seq<LineCell>>)
    requires ValidScript(ops, base, other)
  {
    n <= |ops| && |mapped| == |base| && Holds(mapped, inserts, AlignPrefix(ops, n, base, other))
  }

  lemma ConsumedStep(ops: seq<OpCode>, n: nat, base: seq<string>, other: seq<string>,
                     mapped: seq<LineCell>, inserts: seq<seq<LineCell>>, mapped': seq<LineCell>,
                     inserts': seq<seq<LineCell>>)
    requires ValidScript(ops, base, other) && Continues(ops, n, base, other)
      && Consumed(ops, n, base, other, mapped, inserts)
    requires mapped' == Patched(mapped, ops[n].i1, Paired(ops[n], other))
    requires |inserts'| == |inserts| && inserts'[ops[n].i2] == inserts[ops[n].i2] + Overflow(ops[n], other)
    requires forall q :: 0 <= q < |inserts| && q != ops[n].i2 ==> inserts'[q] == inserts[q]
    ensures Consumed(ops, n + 1, base, other, mapped', inserts')
  {
    hide AlignPrefix, Extend, Holds, Patched, Paired, Overflow;
    AlignStep(ops, n, base, other);
    HoldsExtend(mapped, inserts, AlignPrefix(ops, n, base, other), Paired(ops[n], other), Overflow(ops[n], other),
      mapped', inserts');
  }

  lemma ConsumedAll(ops: seq<OpCode>, base: seq<string>, other: seq<string>, mapped: seq<LineCell>,
                    inserts: seq<seq<LineCell>>)
    requires ValidScript(ops, base, other) && Consumed(ops, |ops|, base, other, mapped, inserts)
    ensures PairAlignment(mapped, inserts) == Alignment(ops, base, other)
    ensures ShowLines(Reading(PairAlignment(mapped, inserts)), other)
  {
    AlignPrefixReads(ops, |ops|, base, other);
    NumberedShows(other);
  }

  method AlignToBase(base: seq<string>, other: seq<string>, ops: seq<OpCode>)
    returns (mapped: array<LineCell>, inserts: array<seq<LineCell>>)
    requires ValidScript(ops, base, other)
    ensures fresh(mapped) && fresh(inserts) && mapped.Length == |base| && inserts.Length == |base| + 1
    ensures PairAlignment(mapped[..], inserts[..]) == Alignment(ops, base, other)
    ensures ShowLines(Reading(PairAlignment(mapped[..], inserts[..])), other)
  {
    hide Patched, Paired, Overflow, Extend, Reading, Alignment;
    mapped := new LineCell[|base|](_ => BLANK);
    inserts := new seq<LineCell>[|base| + 1](_ => []);
    for n := 0 to |ops|
      invariant Consumed(ops, n, base, other, mapped[..], inserts[..])
    {
      assert Continues(ops, n, base, other);
      ghost var wasMapped, wasInserts := mapped[..], inserts[..];
      ApplyOp(ops[n], base, other, mapped, inserts);
      ConsumedStep(ops, n, base, other, wasMapped, wasInserts, mapped[..], inserts[..]);
    }
    ConsumedAll(ops, base, other, mapped[..], inserts[..]);
  }
}
