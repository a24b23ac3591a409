/** The layouts that a new page or a split starts from (`internal/mux/layout.go`, lines 156-199). */
module LayoutBuild {
  import opened LayoutTree
  import opened Layout

  /** The integer that the rounded-up square root of n stands for. */
  function CeilSqrt(n: nat): (c: nat)
    ensures n <= c * c
    ensures c > 0 ==> (c - 1) * (c - 1) < n
  {
    CeilSqrtFrom(n, 0)
  }

  function CeilSqrtFrom(n: nat, c: nat): (r: nat)
    requires c > 0 ==> (c - 1) * (c - 1) < n
    ensures n <= r * r
    ensures r > 0 ==> (r - 1) * (r - 1) < n
    decreases n - c * c
  {
    if n <= c * c then c else CeilSqrtFrom(n, c + 1)
  }

  /** A single pane, or a line of panes in the given direction. */
  ghost predicate IsLine(t: Tree, panes: seq<Pane>, direction: int) {
    if |panes| == 1 then t == Leaf(panes[0])
    else
      && t.pane == null && t.direction == direction && |t.children| == |panes|
      && forall i :: 0 <= i < |panes| ==> t.children[i] == Leaf(panes[i])
  }

  lemma LineLeaves(t: Tree, panes: seq<Pane>, direction: int)
    requires |panes| >= 1 && IsLine(t, panes, direction)
    ensures WellFormed(t) && Leaves(t) == panes
  {
    if |panes| > 1 {
      LineLeavesFrom(t.children, panes, 0);
    }
  }

  lemma {:induction false} LineLeavesFrom(ts: seq<Tree>, panes: seq<Pane>, i: nat)
    requires |ts| == |panes| && i <= |ts| && forall k :: 0 <= k < |ts| ==> ts[k] == Leaf(panes[k])
    ensures LeavesFrom(ts, i) == panes[i..]
    decreases |ts| - i
  {
    if i < |ts| {
      LineLeavesFrom(ts, panes, i + 1);
    }
  }

  method BuildLinearLayout(panes: seq<Pane>, direction: int) returns (node: LayoutNode?)
    ensures |panes| == 0 ==> node == null
    ensures |panes| > 0 ==> node != null && node.Valid() && fresh(node.repr) && IsLine(node.Model(), panes, direction)
  {
    if |panes| == 0 {
      return null;
    }
    if |panes| == 1 {
      node := new LayoutNode.ForPane(panes[0]);
      return;
    }
    node := BuildRow(panes, direction);
  }

  method BuildRow(panes: seq<Pane>, direction: int) returns (node: LayoutNode)
    ensures node.Valid() && fresh(node.repr) && node.Model() == Tree(null, direction, LeafRow(panes))
  {
    hide LayoutNode.Valid, LayoutNode.Model;
    node := new LayoutNode.ForChildren(direction);
    for i := 0 to |panes|
      invariant node.Valid() && fresh(node.repr) && node.Model() == Tree(null, direction, LeafRow(panes[..i]))
    {
      AddLeaf(node, panes[i]);
      assert LeafRow(panes[..i + 1]) == LeafRow(panes[..i]) + [Leaf(panes[i])];
    }
    assert panes[..|panes|] == panes;
  }

  ghost function LeafRow(panes: seq<Pane>): seq<Tree> {
    seq(|panes|, i requires 0 <= i < |panes| => Leaf(panes[i]))
  }

  method AddLeaf(node: LayoutNode, pane: Pane)
    requires node.Valid()
    modifies node
    ensures node.Valid() && fresh(node.repr - old(node.repr))
    ensures node.Model() == old(node.Model()).(children := old(node.Model()).children + [Leaf(pane)])
  {
    hide LayoutNode.Valid, LayoutNode.Model;
    var leaf := new LayoutNode.ForPane(pane);
    node.Append(leaf);
  }

  // ---- The balanced grid ----

  /** The rows of the grid, each a line across: as few as hold all panes with no row longer than `most`, none more than
      one pane longer than another, the longer ones first. */
  ghost predicate IsGrid(t: Tree, panes: seq<Pane>, most: nat) {
    && t.pane == null && t.direction == FLEX_ROW
    && 2 <= |t.children| <= most && (|t.children| - 1) * most < |panes| <= |t.children| * most
    && (forall r :: 0 <= r < |t.children| ==> IsGridRow(t, r, most))
    && (forall r, s :: 0 <= r < |t.children| && 0 <= s < |t.children| ==> NotMuchLonger(t, r, s))
    && (forall r, s :: 0 <= r < s < |t.children| ==> NoShorter(t, r, s))
    && Leaves(t) == panes
  }

  ghost predicate IsGridRow(t: Tree, r: nat, most: nat)
    requires r < |t.children|
  {
    IsLine(t.children[r], Leaves(t.children[r]), FLEX_COLUMN) && 1 <= |Leaves(t.children[r])| <= most
  }

  ghost predicate NotMuchLonger(t: Tree, r: nat, s: nat)
    requires r < |t.children| && s < |t.children|
  {
    |Leaves(t.children[r])| <= |Leaves(t.children[s])| + 1
  }

  ghost predicate NoShorter(t: Tree, r: nat, s: nat)
    requires r < |t.children| && s < |t.children|
  {
    |Leaves(t.children[r])| >= |Leaves(t.children[s])|
  }

  /** The layout is a single pane, a line or a grid, and shows the panes in their order. */
  ghost predicate IsBalanced(t: Tree, panes: seq<Pane>) {
    if |panes| <= 3 then IsLine(t, panes, FLEX_COLUMN) else IsGrid(t, panes, CeilSqrt(|panes|))
  }

  lemma BalancedIsWellFormed(t: Tree, panes: seq<Pane>)
    requires |panes| >= 1 && IsBalanced(t, panes)
    ensures WellFormed(t) && Leaves(t) == panes
  {
    if |panes| <= 3 {
      LineLeaves(t, panes, FLEX_COLUMN);
    } else {
      forall r | 0 <= r < |t.children|
        ensures WellFormed(t.children[r])
      {
        assert IsGridRow(t, r, CeilSqrt(|panes|));
        LineLeaves(t.children[r], Leaves(t.children[r]), FLEX_COLUMN);
      }
    }
  }

  lemma MulMono(a: nat, b: nat, c: nat)
    requires a <= b
    ensures a * c <= b * c
  {
  }

  lemma MulCancel(a: nat, b: nat, c: nat)
    ensures a * c < b * c ==> a < b
  {
    if b <= a {
      MulMono(b, a, c);
    }
  }

  lemma DivBounds(x: nat, c: nat, low: nat, high: nat)
    requires c > 0 && low * c <= x < (high + 1) * c
    ensures low <= x / c <= high
  {
    var q := x / c;
    assert q * c <= x < (q + 1) * c;
    MulCancel(low, q + 1, c);
    MulCancel(q, high + 1, c);
  }

  lemma SmallSquares(c: nat)
    ensures c <= 1 ==> c * c <= 1
    ensures c >= 3 ==> (c - 1) * (c - 1) >= 2 * (c - 1)
  {
    if c <= 1 {
      MulMono(c, 1, c);
    } else {
      MulMono(1, c - 1, c - 1);
      if c >= 3 {
        MulMono(2, c - 1, c - 1);
      }
    }
  }

  lemma ColsBounds(n: nat, cols: nat)
    requires n >= 4 && cols == CeilSqrt(n)
    ensures 2 <= cols < n
  {
    SmallSquares(cols);
  }

  lemma RowsBounds(n: nat, cols: nat, rows: nat)
    requires 2 <= cols < n <= cols * cols && rows == (n + cols - 1) / cols
    ensures 2 <= rows <= cols && (rows - 1) * cols < n <= rows * cols
  {
    DivBounds(n + cols - 1, cols, 2, cols);
    assert rows * cols + (n + cols - 1) % cols == n + cols - 1;
  }

  /** A row has `base` or `base + 1` panes, and no more than there are columns. */
  lemma RowSizes(n: nat, cols: nat, rows: nat, base: nat, rest: nat)
    requires 2 <= rows <= cols < n <= rows * cols && base == n / rows && rest == n % rows
    ensures base >= 1 && (if rest > 0 then base + 1 else base) <= cols
    ensures base * rows + rest == n
  {
    assert base * rows + rest == n;
    DivBounds(n, rows, 1, cols);
    MulCancel(base, cols, rows);
  }

  lemma {:induction false} LeavesAppend(ts: seq<Tree>, t: Tree, i: nat)
    requires i <= |ts|
    ensures LeavesFrom(ts + [t], i) == LeavesFrom(ts, i) + Leaves(t)
    decreases |ts| - i
  {
    if i == |ts| {
      assert LeavesFrom(ts + [t], i + 1) == [];
    } else {
      LeavesAppend(ts, t, i + 1);
    }
  }

  function RowSize(i: nat, base: nat, rest: nat): nat {
    if i < rest then base + 1 else base
  }

  ghost function RowOffset(i: nat, base: nat, rest: nat): nat {
    if i == 0 then 0 else RowOffset(i - 1, base, rest) + RowSize(i - 1, base, rest)
  }

  /** The row sizes add up to the number of panes, so no slice is out of range. */
  lemma {:induction false} OffsetsAddUp(i: nat, rows: nat, base: nat, rest: nat)
    requires i <= rows && rest < rows
    ensures RowOffset(i, base, rest) == i * base + (if i < rest then i else rest)
  {
    if i > 0 {
      OffsetsAddUp(i - 1, rows, base, rest);
    }
  }

  /** Row r is a line of the panes from RowOffset(r) up to RowOffset(r + 1). */
  ghost predicate ShowsRow(ts: seq<Tree>, r: nat, panes: seq<Pane>, base: nat, rest: nat) {
    && r < |ts|
    && RowOffset(r + 1, base, rest) <= |panes|
    && IsLine(ts[r], panes[RowOffset(r, base, rest)..RowOffset(r + 1, base, rest)], FLEX_COLUMN)
  }

  ghost predicate ShowsRows(ts: seq<Tree>, panes: seq<Pane>, base: nat, rest: nat) {
    forall r :: 0 <= r < |ts| ==> ShowsRow(ts, r, panes, base, rest)
  }

  lemma ShowsRowsAppend(ts: seq<Tree>, t: Tree, panes: seq<Pane>, base: nat, rest: nat)
    requires ShowsRows(ts, panes, base, rest) && RowOffset(|ts| + 1, base, rest) <= |panes|
    requires IsLine(t, panes[RowOffset(|ts|, base, rest)..RowOffset(|ts| + 1, base, rest)], FLEX_COLUMN)
    ensures ShowsRows(ts + [t], panes, base, rest)
  {
    forall r | 0 <= r < |ts|
      ensures ShowsRow(ts + [t], r, panes, base, rest)
    {
      assert ShowsRow(ts, r, panes, base, rest);
    }
  }

  lemma {:induction false} RowsShown(ts: seq<Tree>, panes: seq<Pane>, base: nat, rest: nat, count: nat)
    requires base >= 1 && ShowsRows(ts, panes, base, rest) && count <= |ts|
    ensures RowOffset(count, base, rest) <= |panes|
      && LeavesFrom(ts[..count], 0) == panes[..RowOffset(count, base, rest)]
    ensures forall r :: 0 <= r < count ==>
      IsLine(ts[r], Leaves(ts[r]), FLEX_COLUMN) && |Leaves(ts[r])| == RowSize(r, base, rest)
  {
    if count > 0 {
      var r := count - 1;
      var from, to := RowOffset(r, base, rest), RowOffset(count, base, rest);
      RowsShown(ts, panes, base, rest, r);
      assert ShowsRow(ts, r, panes, base, rest);
      LineLeaves(ts[r], panes[from..to], FLEX_COLUMN);
      LeavesAppend(ts[..r], ts[r], 0);
      assert ts[..count] == ts[..r] + [ts[r]] && panes[..from] + panes[from..to] == panes[..to];
    }
  }

  lemma GridDone(t: Tree, panes: seq<Pane>, cols: nat, rows: nat, base: nat, rest: nat)
    requires base >= 1 && (if rest > 0 then base + 1 else base) <= cols && 2 <= rows <= cols
    requires (rows - 1) * cols < |panes| <= rows * cols
    requires t.pane == null && t.direction == FLEX_ROW && |t.children| == rows && RowOffset(rows, base, rest) == |panes|
    requires ShowsRows(t.children, panes, base, rest)
    ensures IsGrid(t, panes, cols)
  {
    RowsShown(t.children, panes, base, rest, rows);
    assert t.children[..rows] == t.children;
  }

  method BuildBalancedLayout(panes: seq<Pane>, direction: int) returns (node: LayoutNode?)
    ensures |panes| == 0 ==> node == null
    ensures |panes| > 0 ==> node != null && node.Valid() && fresh(node.repr) && IsBalanced(node.Model(), panes)
  {
    if |panes| == 0 {
      return null;
    } else if |panes| == 1 {
      node := new LayoutNode.ForPane(panes[0]);
      return;
    } else if |panes| <= 3 {
      node := BuildLinearLayout(panes, FLEX_COLUMN);
      return;
    }
    var cols := CeilSqrt(|panes|);
    ColsBounds(|panes|, cols);
    var rows := (|panes| + cols - 1) / cols;
    RowsBounds(|panes|, cols, rows);
    if rows <= 1 {
      assert false;
    }
    node := BuildGrid(panes, cols, rows);
  }

  method BuildGrid(panes: seq<Pane>, ghost cols: nat, rows: nat) returns (node: LayoutNode)
    requires 2 <= rows <= cols < |panes| <= rows * cols && (rows - 1) * cols < |panes|
    ensures node.Valid() && fresh(node.repr) && IsGrid(node.Model(), panes, cols)
  {
    hide LayoutNode.Valid, LayoutNode.Model;
    var base := |panes| / rows;
    var rest := |panes| % rows;
    RowSizes(|panes|, cols, rows, base, rest);
    OffsetsAddUp(rows, rows, base, rest);
    node := BuildRows(panes, rows, base, rest);
    GridDone(node.Model(), panes, cols, rows, base, rest);
  }

  method BuildRows(panes: seq<Pane>, rows: nat, base: nat, rest: nat) returns (node: LayoutNode)
    requires base >= 1 && RowOffset(rows, base, rest) == |panes|
    ensures node.Valid() && fresh(node.repr)
    ensures node.Model() == Tree(null, FLEX_ROW, node.Model().children) && |node.Model().children| == rows
    ensures ShowsRows(node.Model().children, panes, base, rest)
  {
    hide LayoutNode.Valid, LayoutNode.Model;
    node := new LayoutNode.ForChildren(FLEX_ROW);
    ghost var ts: seq<Tree> := [];
    var offset := 0;
    for i := 0 to rows
      invariant node.Valid() && fresh(node.repr) && node.Model() == Tree(null, FLEX_ROW, ts) && |ts| == i
      invariant offset == RowOffset(i, base, rest) && ShowsRows(ts, panes, base, rest)
    {
      OffsetsGrow(i + 1, rows, base, rest);
      offset, ts := AddRow(node, panes, i, base, rest, offset, ts);
    }
  }

  /** One turn of the loop: the next row of panes joins the grid. */
  method AddRow(node: LayoutNode, panes: seq<Pane>, i: nat, base: nat, rest: nat, offset: nat, ghost ts: seq<Tree>)
      returns (next: nat, ghost ts': seq<Tree>)
    requires node.Valid() && node.Model() == Tree(null, FLEX_ROW, ts) && |ts| == i && base >= 1
    requires offset == RowOffset(i, base, rest) && RowOffset(i + 1, base, rest) <= |panes|
      && ShowsRows(ts, panes, base, rest)
    modifies node
    ensures node.Valid() && fresh(node.repr - old(node.repr)) && node.Model() == Tree(null, FLEX_ROW, ts')
      && |ts'| == i + 1
    ensures next == RowOffset(i + 1, base, rest) && ShowsRows(ts', panes, base, rest)
  {
    hide LayoutNode.Valid, LayoutNode.Model;
    var size := base;
    if i < rest {
      size := size + 1;
    }
    next := offset + size;
    var line := BuildLinearLayout(panes[offset..next], FLEX_COLUMN);
    ghost var t := line.Model();
    node.Append(line);
    ShowsRowsAppend(ts, t, panes, base, rest);
    ts' := ts + [t];
  }

  lemma {:induction false} OffsetsGrow(i: nat, rows: nat, base: nat, rest: nat)
    requires i <= rows
    ensures RowOffset(i, base, rest) <= RowOffset(rows, base, rest)
    decreases rows - i
  {
    if i < rows {
      OffsetsGrow(i + 1, rows, base, rest);
    }
  }
}
