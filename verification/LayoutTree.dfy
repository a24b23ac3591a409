/** The pane layout tree of `internal/mux/layout.go` as a value: what splitting and removing do to it. */
module LayoutTree {
  import opened Options

  /** Panes are told apart by reference; their ids need not be unique. */
  class Pane {
    const id: int
    const server: string

    constructor (id: int, server: string)
      ensures this.id == id && this.server == server
    {
      this.id, this.server := id, server;
    }
  }

  datatype Tree = Tree(pane: Pane?, direction: int, children: seq<Tree>)

  function Leaf(pane: Pane?): Tree {
    Tree(pane, 0, [])
  }

  // ---- Splitting and removing ----

  /** The first node, parents before children, that carries `target` becomes a pair of `target` and `next`. */
  function Split(t: Tree, target: Pane?, next: Tree, direction: int): Option<Tree>
    decreases t, 0
  {
    if t.pane == target then Some(Tree(null, direction, [Leaf(t.pane), next]))
    else
      match SplitFrom(t.children, 0, target, next, direction)
      case None => None
      case Some(children) => Some(t.(children := children))
  }

  function SplitFrom(ts: seq<Tree>, i: nat, target: Pane?, next: Tree, direction: int): (r: Option<seq<Tree>>)
    requires i <= |ts|
    ensures r.Some? ==> |r.value| == |ts|
    decreases ts, |ts| - i
  {
    if i == |ts| then None
    else
      match Split(ts[i], target, next, direction)
      case None => SplitFrom(ts, i + 1, target, next, direction)
      case Some(child) => Some(ts[i := child])
  }

  /** A node without children is void, a node with a single child is replaced by it. */
  function Compact(t: Tree): Tree {
    if |t.children| == 0 then Tree(null, 0, [])
    else if |t.children| == 1 then t.children[0]
    else t
  }

  function Remove(t: Tree, target: Pane?): Option<Tree>
    decreases t, 0
  {
    if t.pane == target then Some(t.(pane := null))
    else
      match RemoveFrom(t.children, 0, target)
      case None => None
      case Some(children) => Some(Compact(t.(children := children)))
  }

  function RemoveFrom(ts: seq<Tree>, i: nat, target: Pane?): Option<seq<Tree>>
    requires i <= |ts|
    decreases ts, |ts| - i
  {
    if i == |ts| then None
    else
      match Remove(ts[i], target)
      case None => RemoveFrom(ts, i + 1, target)
      case Some(child) =>
        Some(if Void(child) then ts[..i] + ts[i + 1..] else ts[i := child])
  }

  predicate Void(t: Tree) {
    t.pane == null && t.children == []
  }

  // ---- Well-formed trees and their panes ----

  /** Leaves carry panes; every other node has at least two children. */
  predicate WellFormed(t: Tree) {
    if t.pane != null then t.children == [] && t.direction == 0
    else |t.children| >= 2 && forall i :: 0 <= i < |t.children| ==> WellFormed(t.children[i])
  }

  /** The panes from left to right. */
  function Leaves(t: Tree): seq<Pane>
    decreases t, 0
  {
    if t.pane != null then [t.pane] else LeavesFrom(t.children, 0)
  }

  function LeavesFrom(ts: seq<Tree>, i: nat): seq<Pane>
    requires i <= |ts|
    decreases ts, |ts| - i
  {
    if i == |ts| then [] else Leaves(ts[i]) + LeavesFrom(ts, i + 1)
  }

  function InsertAfter<T(==)>(xs: seq<T>, x: T, ys: seq<T>): seq<T> {
    if xs == [] then []
    else if xs[0] == x then [x] + ys + xs[1..]
    else [xs[0]] + InsertAfter(xs[1..], x, ys)
  }

  function Without<T(==)>(xs: seq<T>, x: T): seq<T> {
    if xs == [] then []
    else if xs[0] == x then xs[1..]
    else [xs[0]] + Without(xs[1..], x)
  }

  lemma HeadOf<T>(xs: seq<T>, zs: seq<T>, x: T)
    requires xs != []
    ensures (xs + zs)[0] == xs[0] && (xs + zs)[1..] == xs[1..] + zs && xs == [xs[0]] + xs[1..]
    ensures x in xs <==> x == xs[0] || x in xs[1..]
  {
  }

  lemma ConsConcat<T>(x: T, xs: seq<T>, ys: seq<T>)
    ensures [x] + (xs + ys) == [x] + xs + ys
  {
  }

  lemma {:induction false} InsertAfterConcat<T>(xs: seq<T>, zs: seq<T>, x: T, ys: seq<T>)
    ensures InsertAfter(xs + zs, x, ys) == if x in xs then InsertAfter(xs, x, ys) + zs else xs + InsertAfter(zs, x, ys)
  {
    hide InsertAfter;
    InsertAfterHead(xs, x, ys);
    InsertAfterHead(xs + zs, x, ys);
    if xs == [] {
      assert xs + zs == zs;
    } else {
      HeadOf(xs, zs, x);
      if xs[0] == x {
        assert [x] + ys + (xs[1..] + zs) == [x] + ys + xs[1..] + zs;
      } else {
        InsertAfterConcat(xs[1..], zs, x, ys);
        ConsConcat(xs[0], InsertAfter(xs[1..], x, ys), zs);
        ConsConcat(xs[0], xs[1..], InsertAfter(zs, x, ys));
      }
    }
  }

  lemma InsertAfterHead<T>(xs: seq<T>, x: T, ys: seq<T>)
    ensures InsertAfter(xs, x, ys) == if xs == [] then [] else if xs[0] == x then [x] + ys + xs[1..]
                                      else [xs[0]] + InsertAfter(xs[1..], x, ys)
  {
  }

  lemma {:induction false} WithoutConcat<T>(xs: seq<T>, zs: seq<T>, x: T)
    ensures Without(xs + zs, x) == if x in xs then Without(xs, x) + zs else xs + Without(zs, x)
  {
    hide Without;
    WithoutHead(xs, x);
    WithoutHead(xs + zs, x);
    if xs == [] {
      assert xs + zs == zs;
    } else {
      HeadOf(xs, zs, x);
      if xs[0] != x {
        WithoutConcat(xs[1..], zs, x);
        ConsConcat(xs[0], Without(xs[1..], x), zs);
        ConsConcat(xs[0], xs[1..], Without(zs, x));
      }
    }
  }

  lemma WithoutHead<T>(xs: seq<T>, x: T)
    ensures Without(xs, x) == if xs == [] then [] else if xs[0] == x then xs[1..] else [xs[0]] + Without(xs[1..], x)
  {
  }

  lemma {:induction false} LeavesAgree(ts: seq<Tree>, us: seq<Tree>, i: nat, k: nat)
    requires i <= |ts| && |us| - k == |ts| - i && k <= |us|
    requires forall j :: i <= j < |ts| ==> us[j - i + k] == ts[j]
    ensures LeavesFrom(ts, i) == LeavesFrom(us, k)
    decreases |ts| - i
  {
    if i < |ts| {
      LeavesAgree(ts, us, i + 1, k + 1);
    }
  }

  lemma {:induction false} SomeLeaf(t: Tree)
    requires WellFormed(t)
    ensures Leaves(t) != []
  {
    if t.pane == null {
      SomeLeaf(t.children[0]);
    }
  }

  /** Splitting finds exactly the panes of the tree, puts the new panes right after the target and keeps the
      tree well-formed. */
  lemma {:induction false} SplitTree(t: Tree, target: Pane, next: Tree, direction: int)
    requires WellFormed(t) && WellFormed(next)
    ensures Split(t, target, next, direction).Some? <==> target in Leaves(t)
    ensures Split(t, target, next, direction).Some? ==>
      var t' := Split(t, target, next, direction).value;
      WellFormed(t') && Leaves(t') == InsertAfter(Leaves(t), target, Leaves(next))
    decreases t, 0
  {
    if t.pane == target {
      var pair := [Leaf(t.pane), next];
      assert LeavesFrom(pair, 2) == [];
      assert LeavesFrom(pair, 1) == Leaves(next);
    } else {
      SplitForest(t.children, 0, target, next, direction);
    }
  }

  lemma {:induction false} SplitForest(ts: seq<Tree>, i: nat, target: Pane, next: Tree, direction: int)
    requires i <= |ts| && WellFormed(next) && forall j :: 0 <= j < |ts| ==> WellFormed(ts[j])
    ensures SplitFrom(ts, i, target, next, direction).Some? <==> target in LeavesFrom(ts, i)
    ensures SplitFrom(ts, i, target, next, direction).Some? ==>
      var ts' := SplitFrom(ts, i, target, next, direction).value;
      && |ts'| == |ts| && (forall j :: 0 <= j < |ts'| ==> WellFormed(ts'[j]))
      && (forall j :: 0 <= j < i ==> ts'[j] == ts[j])
      && LeavesFrom(ts', i) == InsertAfter(LeavesFrom(ts, i), target, Leaves(next))
    decreases ts, |ts| - i
  {
    hide Split, WellFormed, Leaves;
    if i < |ts| {
      SplitTree(ts[i], target, next, direction);
      InsertAfterConcat(Leaves(ts[i]), LeavesFrom(ts, i + 1), target, Leaves(next));
      match Split(ts[i], target, next, direction)
      case Some(child) =>
        ChildChanged(ts, i, child);
      case None =>
        SplitForest(ts, i + 1, target, next, direction);
    }
  }

  /** The trees differ in one leaf, which shows `target` in the one and is `pair` in the other. */
  ghost predicate LeafReplaced(t: Tree, t': Tree, target: Pane, pair: Tree) {
    if t.pane == target then t' == pair
    else
      && t'.pane == t.pane && t'.direction == t.direction && |t'.children| == |t.children|
      && exists i :: 0 <= i < |t.children| && LeafReplaced(t.children[i], t'.children[i], target, pair)
                     && t' == t.(children := t.children[i := t'.children[i]])
  }

  /** Splitting puts a pair in the given direction where the target's leaf was, and changes nothing else. */
  lemma {:induction false} SplitReplacesLeaf(t: Tree, target: Pane, next: Tree, direction: int)
    requires Split(t, target, next, direction).Some?
    ensures LeafReplaced(t, Split(t, target, next, direction).value, target,
                         Tree(null, direction, [Tree(target, 0, []), next]))
  {
    if t.pane != target {
      var i := SplitWithin(t.children, 0, target, next, direction);
      SplitReplacesLeaf(t.children[i], target, next, direction);
    }
  }

  lemma {:induction false} SplitWithin(ts: seq<Tree>, i: nat, target: Pane, next: Tree, direction: int) returns (k: nat)
    requires i <= |ts| && SplitFrom(ts, i, target, next, direction).Some?
    ensures i <= k < |ts| && Split(ts[k], target, next, direction).Some?
    ensures SplitFrom(ts, i, target, next, direction).value == ts[k := Split(ts[k], target, next, direction).value]
    decreases |ts| - i
  {
    if Split(ts[i], target, next, direction).Some? {
      k := i;
    } else {
      k := SplitWithin(ts, i + 1, target, next, direction);
    }
  }

  /** Removing finds exactly the panes of the tree and takes out that one; a tree of one pane is left void. */
  lemma {:induction false} RemoveTree(t: Tree, target: Pane)
    requires WellFormed(t)
    ensures Remove(t, target).Some? <==> target in Leaves(t)
    ensures Remove(t, target).Some? ==>
      var t' := Remove(t, target).value;
      && (if t.pane == null then WellFormed(t') else Void(t') && t'.direction == 0)
      && (if Void(t') then Leaves(t) == [target] else Leaves(t') == Without(Leaves(t), target))
    decreases t, 0
  {
    if t.pane == null {
      RemoveForest(t.children, 0, target);
      if Remove(t, target).Some? {
        CompactLeaves(RemoveFrom(t.children, 0, target).value, t.direction);
      }
    }
  }

  lemma CompactLeaves(ts: seq<Tree>, direction: int)
    requires |ts| >= 1 && forall j :: 0 <= j < |ts| ==> WellFormed(ts[j])
    ensures var t := Compact(Tree(null, direction, ts)); WellFormed(t) && Leaves(t) == LeavesFrom(ts, 0)
  {
    if |ts| == 1 {
      assert LeavesFrom(ts, 1) == [];
    }
  }

  lemma {:induction false} RemoveForest(ts: seq<Tree>, i: nat, target: Pane)
    requires i <= |ts| && forall j :: 0 <= j < |ts| ==> WellFormed(ts[j])
    ensures RemoveFrom(ts, i, target).Some? <==> target in LeavesFrom(ts, i)
    ensures RemoveFrom(ts, i, target).Some? ==>
      var ts' := RemoveFrom(ts, i, target).value;
      && |ts| - 1 <= |ts'| && i <= |ts'| && (forall j :: 0 <= j < |ts'| ==> WellFormed(ts'[j]))
      && (forall j :: 0 <= j < i ==> ts'[j] == ts[j])
      && LeavesFrom(ts', i) == Without(LeavesFrom(ts, i), target)
    decreases ts, |ts| - i
  {
    hide Remove, WellFormed, Leaves, Without;
    if i < |ts| {
      RemoveTree(ts[i], target);
      WithoutOnly(target);
      WithoutConcat(Leaves(ts[i]), LeavesFrom(ts, i + 1), target);
      match Remove(ts[i], target)
      case Some(child) =>
        ChildReplaced(ts, i, child);
        StillWellFormed(ts, i, child);
      case None =>
        RemoveForest(ts, i + 1, target);
    }
  }

  lemma WithoutOnly<T>(x: T)
    ensures Without([x], x) == []
  {
  }

  lemma StillWellFormed(ts: seq<Tree>, i: nat, child: Tree)
    requires i < |ts| && (forall j :: 0 <= j < |ts| ==> WellFormed(ts[j])) && (Void(child) || WellFormed(child))
    ensures var ts' := if Void(child) then ts[..i] + ts[i + 1..] else ts[i := child];
      (forall j :: 0 <= j < |ts'| ==> WellFormed(ts'[j])) && forall j :: 0 <= j < i ==> ts'[j] == ts[j]
  {
    hide WellFormed;
  }

  lemma ChildChanged(ts: seq<Tree>, i: nat, child: Tree)
    requires i < |ts|
    ensures LeavesFrom(ts[i := child], i) == Leaves(child) + LeavesFrom(ts, i + 1)
  {
    LeavesAgree(ts, ts[i := child], i + 1, i + 1);
  }

  /** What takes the place of child i, if anything does. */
  lemma ChildReplaced(ts: seq<Tree>, i: nat, child: Tree)
    requires i < |ts|
    ensures var ts' := if Void(child) then ts[..i] + ts[i + 1..] else ts[i := child];
      LeavesFrom(ts', i) == (if Void(child) then [] else Leaves(child)) + LeavesFrom(ts, i + 1)
  {
    if Void(child) {
      LeavesAgree(ts, ts[..i] + ts[i + 1..], i + 1, i);
    } else {
      ChildChanged(ts, i, child);
    }
  }

  // ---- Removing undoes splitting ----

  /** At any depth: opening a fresh pane and removing it gives back the very same tree, node for node. */
  lemma {:induction false} RemoveUndoesSplit(t: Tree, target: Pane, fresh': Pane, direction: int)
    requires WellFormed(t) && target in Leaves(t) && fresh' !in Leaves(t)
    ensures Split(t, target, Leaf(fresh'), direction).Some?
    ensures Remove(Split(t, target, Leaf(fresh'), direction).value, fresh') == Some(t)
    decreases t, 0
  {
    SplitTree(t, target, Leaf(fresh'), direction);
    if t.pane == target {
      var pair := [Leaf(target), Leaf(fresh')];
      assert Remove(Leaf(fresh'), fresh') == Some(Leaf(null));
      assert RemoveFrom(pair, 1, fresh') == Some(pair[..1] + pair[2..]);
      assert pair[..1] + pair[2..] == [t];
      assert Remove(Leaf(target), fresh') == None;
    } else {
      RemoveUndoesSplitFrom(t.children, 0, target, fresh', direction);
    }
  }

  lemma {:induction false} RemoveUndoesSplitFrom(ts: seq<Tree>, i: nat, target: Pane, fresh': Pane, direction: int)
    requires i <= |ts| && forall j :: 0 <= j < |ts| ==> WellFormed(ts[j])
    requires target in LeavesFrom(ts, i) && fresh' !in LeavesFrom(ts, i)
    ensures SplitFrom(ts, i, target, Leaf(fresh'), direction).Some?
    ensures RemoveFrom(SplitFrom(ts, i, target, Leaf(fresh'), direction).value, i, fresh') == Some(ts)
    decreases ts, |ts| - i
  {
    SplitTree(ts[i], target, Leaf(fresh'), direction);
    match Split(ts[i], target, Leaf(fresh'), direction)
    case Some(child) =>
      RemoveUndoesSplit(ts[i], target, fresh', direction);
      assert ts[i := child][i := ts[i]] == ts;
    case None =>
      RemoveUndoesSplitFrom(ts, i + 1, target, fresh', direction);
      RemoveTree(ts[i], fresh');
      SplitForest(ts, i + 1, target, Leaf(fresh'), direction);
  }

  /** A lost focus: splitting at no pane in particular hits the root itself, whose panes are dropped. */
  lemma SplitAtNothing(t: Tree, next: Tree, direction: int)
    requires WellFormed(t) && t.pane == null
    ensures Split(t, null, next, direction) == Some(Tree(null, direction, [Leaf(null), next]))
    ensures Leaves(Split(t, null, next, direction).value) == Leaves(next)
  {
    var pair := [Leaf(null), next];
    assert LeavesFrom(pair, 2) == [] && LeavesFrom(pair, 1) == Leaves(next);
    assert Leaves(Leaf(null)) == [];
  }
}
