/** The layout tree of `internal/mux/layout.go` in place: nodes rewritten by split, remove and compact. */
module Layout {
  import opened LayoutTree

  const FLEX_ROW := 0
  const FLEX_COLUMN := 1

  class LayoutNode {
    var pane: Pane?
    var direction: int
    var children: seq<LayoutNode>
    ghost var repr: set<LayoutNode>

    constructor ForPane(pane: Pane?)
      ensures Valid() && repr == {this} && Model() == Leaf(pane)
      ensures this.pane == pane && children == []
    {
      this.pane, direction, children, repr := pane, 0, [], {this};
    }

    /** A node around a slice of children that is still to grow. */
    constructor ForChildren(direction: int)
      ensures Valid() && repr == {this} && Model() == Tree(null, direction, [])
    {
      this.pane, this.direction, children, repr := null, direction, [], {this};
    }

    method Append(child: LayoutNode)
      requires Valid() && child.Valid() && repr !! child.repr
      modifies this
      ensures Valid() && repr == old(repr) + child.repr
      ensures Model() == old(Model()).(children := old(Model()).children + [old(child.Model())])
    {
      hide Models;
      ghost var was, ts := children, Model().children;
      children := children + [child];
      repr := repr + child.repr;
      SameSubtree(child);
      forall j | 0 <= j < |was|
        ensures was[j].Valid() && was[j].repr == old(was[j].repr) && was[j].Model() == ts[j]
      {
        SameSubtree(was[j]);
      }
    }

    /** A tree of distinct nodes. */
    ghost predicate Valid()
      reads this, repr
      decreases repr
    {
      && this in repr
      && (forall c <- children :: c in repr && c.repr <= repr && this !in c.repr && c.Valid())
      && (forall i, j :: 0 <= i < j < |children| ==> children[i].repr !! children[j].repr)
    }

    ghost function Model(): Tree
      requires Valid()
      reads this, repr
      decreases repr, 0
    {
      Tree(pane, direction, Models(children, repr - {this}))
    }

    method SplitAt(target: Pane?, next: Pane?, direction: int) returns (ok: bool)
      requires Valid()
      modifies repr
      ensures Valid() && fresh(repr - old(repr))
      ensures ok == Split(old(Model()), target, Leaf(next), direction).Some?
      ensures Model() == if ok then Split(old(Model()), target, Leaf(next), direction).value else old(Model())
    {
      var leaf := new LayoutNode.ForPane(next);
      ok := SplitLayout(target, leaf, direction);
    }

    method SplitLayout(target: Pane?, next: LayoutNode, direction: int) returns (ok: bool)
      requires Valid() && next.Valid() && repr !! next.repr
      modifies repr
      ensures Valid() && fresh(repr - old(repr) - next.repr)
      ensures ok == Split(old(Model()), target, old(next.Model()), direction).Some?
      ensures ok ==> Model() == Split(old(Model()), target, old(next.Model()), direction).value
      ensures !ok ==> unchanged(old(repr))
      decreases repr, 1
    {
      hide Models;
      if pane == target {
        BecomePair(next, direction);
        return true;
      }
      ghost var ts := Model().children;
      for i := 0 to |children|
        invariant unchanged(old(repr))
        invariant SplitFrom(ts, 0, target, old(next.Model()), direction)
          == SplitFrom(ts, i, target, old(next.Model()), direction)
      {
        var done := SplitChild(i, target, next, direction);
        if done {
          return true;
        }
      }
      return false;
    }

    /** One turn of the search: child i is split in place, or nothing happens. */
    method SplitChild(i: nat, target: Pane?, next: LayoutNode, direction: int) returns (done: bool)
      requires Valid() && next.Valid() && repr !! next.repr && i < |children|
      modifies repr
      ensures Valid() && fresh(repr - old(repr) - next.repr)
      ensures done == Split(old(Model().children[i]), target, old(next.Model()), direction).Some?
      ensures done ==>
        Model() == Tree(old(pane), old(this.direction),
                        old(Model().children)
                          [i := Split(old(Model().children[i]), target, old(next.Model()), direction).value])
      ensures !done ==> unchanged(old(repr))
      decreases repr, 0
    {
      hide Models;
      ghost var ts := Model().children;
      var child := children[i];
      done := child.SplitLayout(target, next, direction);
      if done {
        SiblingsKept(i);
        Widen(i, ts);
      }
    }

    /** Nothing outside child i has changed. */
    twostate lemma SiblingsKept(i: nat)
      requires old(Valid()) && i < |old(children)| && unchanged(this)
      requires forall n <- old(repr) :: n !in old(children[i].repr) ==> unchanged(n)
      ensures forall j :: 0 <= j < |children| && j != i ==>
        children[j].Valid() && children[j].repr == old(children[j].repr)
          && children[j].Model() == old(Model().children[j])
    {
      forall j | 0 <= j < |children| && j != i
        ensures children[j].Valid() && children[j].repr == old(children[j].repr)
          && children[j].Model() == old(Model().children[j])
      {
        assert old(children[j]).repr !! old(children[i].repr);
        SameSubtree(children[j]);
      }
    }

    /** Child i has changed within itself, perhaps with new nodes. */
    ghost method Widen(i: nat, ts: seq<Tree>)
      requires i < |children| && |ts| == |children| && this in repr
      requires forall c <- children :: c.Valid() && this !in c.repr
      requires forall j :: 0 <= j < |children| && j != i ==>
        children[j] in repr && children[j].repr <= repr && children[j].repr !! children[i].repr
          && children[j].Model() == ts[j]
      requires forall j, k :: 0 <= j < k < |children| && j != i && k != i ==> children[j].repr !! children[k].repr
      modifies this`repr
      ensures repr == old(repr) + children[i].repr && Valid()
      ensures Model() == Tree(pane, direction, ts[i := children[i].Model()])
    {
      hide Models;
      repr := repr + children[i].repr;
      forall j | 0 <= j < |children|
        ensures children[j].Valid() && children[j].Model() == old(children[j].Model())
          && children[j].repr == old(children[j].repr)
      {
        SameSubtree(children[j]);
      }
    }

    method BecomePair(next: LayoutNode, direction: int)
      requires Valid() && next.Valid() && repr !! next.repr
      modifies this
      ensures Valid() && fresh(repr - {this} - next.repr)
      ensures Model() == Tree(null, direction, [Leaf(old(pane)), old(next.Model())])
    {
      hide Models;
      var current := new LayoutNode.ForPane(pane);
      label made:
      pane := null;
      this.direction := direction;
      children := [current, next];
      repr := {this, current} + next.repr;
      SameSubtree@made(current);
      SameSubtree@made(next);
      assert forall c <- children :: c == current || c == next;
    }

    method RemovePane(target: Pane?) returns (ok: bool)
      requires Valid()
      modifies repr
      ensures Valid() && repr <= old(repr)
      ensures ok == Remove(old(Model()), target).Some?
      ensures ok ==> Model() == Remove(old(Model()), target).value
      ensures !ok ==> unchanged(old(repr))
      decreases repr, 1
    {
      hide Models;
      if pane == target {
        pane := null;
        forall c <- children {
          SameSubtree(c);
        }
        return true;
      }
      ghost var ts := Model().children;
      for i := 0 to |children|
        invariant unchanged(old(repr))
        invariant RemoveFrom(ts, 0, target) == RemoveFrom(ts, i, target)
      {
        var done := RemoveChild(i, target);
        if done {
          return true;
        }
      }
      return false;
    }

    /** One turn of the search: the pane is removed below child i, or nothing happens. */
    method RemoveChild(i: nat, target: Pane?) returns (done: bool)
      requires Valid() && i < |children|
      modifies repr
      ensures Valid() && repr <= old(repr)
      ensures done == Remove(old(Model().children[i]), target).Some?
      ensures done ==>
        var ts, child := old(Model().children), Remove(old(Model().children[i]), target).value;
        Model() == Compact(Tree(old(pane), old(direction),
                                if Void(child) then ts[..i] + ts[i + 1..] else ts[i := child]))
      ensures !done ==> unchanged(old(repr))
      decreases repr, 0
    {
      hide Models;
      ghost var ts := Model().children;
      var child := children[i];
      done := child.RemovePane(target);
      if done {
        SiblingsKept(i);
        Widen(i, ts);
        if child.pane == null && |child.children| == 0 {
          DropChild(i);
        }
        CompactNode();
      }
    }

    method DropChild(i: nat)
      requires Valid() && i < |children|
      modifies this`children
      ensures Valid() && repr == old(repr)
      ensures Model() == old(Model()).(children := old(Model()).children[..i] + old(Model()).children[i + 1..])
    {
      hide Models;
      ghost var was, ts := children, Model().children;
      children := children[..i] + children[i + 1..];
      forall j | 0 <= j < |was|
        ensures was[j].Valid() && was[j].repr == old(was[j].repr) && was[j].Model() == ts[j]
      {
        SameSubtree(was[j]);
      }
      assert forall j :: 0 <= j < i ==> children[j] == was[j];
      assert forall j :: i <= j < |children| ==> children[j] == was[j + 1];
    }

    method CompactNode()
      requires Valid()
      modifies this
      ensures Valid() && repr == old(repr) && Model() == Compact(old(Model()))
    {
      hide Models;
      if |children| == 0 {
        pane := null;
        direction := 0;
      } else if |children| == 1 {
        BecomeOnlyChild();
      }
    }

    method BecomeOnlyChild()
      requires Valid() && |children| == 1
      modifies this
      ensures Valid() && repr == old(repr) && Model() == old(Model().children[0])
    {
      hide Models;
      var only := children[0];
      assert this !in only.repr && only.Valid() && only.repr <= repr;
      ghost var grandchildren, ts := only.children, only.Model().children;
      assert forall j :: 0 <= j < |grandchildren| ==>
        grandchildren[j].Valid() && grandchildren[j].repr <= only.repr && grandchildren[j] in only.repr
          && ts[j] == grandchildren[j].Model();
      label before:
      pane := only.pane;
      direction := only.direction;
      children := only.children;
      assert children == grandchildren;
      forall j | 0 <= j < |grandchildren|
        ensures grandchildren[j].Valid() && grandchildren[j].repr == old(grandchildren[j].repr)
          && grandchildren[j].Model() == ts[j]
      {
        SameSubtree@before(grandchildren[j]);
      }
    }
  }

  twostate lemma SameSubtree(n: LayoutNode)
    requires old(n.Valid()) && unchanged(old(n.repr))
    ensures n.repr == old(n.repr) && n.Valid() && n.Model() == old(n.Model())
  {
  }

  ghost function Models(nodes: seq<LayoutNode>, within: set<LayoutNode>): (ts: seq<Tree>)
    requires forall n <- nodes :: n in within && n.repr <= within && n.Valid()
    reads within
    ensures |ts| == |nodes| && forall i :: 0 <= i < |nodes| ==> ts[i] == nodes[i].Model()
    decreases within, 1 + |nodes|
  {
    if nodes == [] then [] else Models(nodes[..|nodes| - 1], within) + [nodes[|nodes| - 1].Model()]
  }
}
