/** One page of `internal/mux/manager.go`: its panes, its focus and its layout tree. */
module Pages {
  import opened Options
  import opened LayoutTree
  import opened Layout
  import opened LayoutBuild

  ghost predicate NoDuplicates<T>(xs: seq<T>) {
    forall i, j :: 0 <= i < j < |xs| ==> xs[i] != xs[j]
  }

  /** The tree shows exactly the listed panes, each once; a page without panes keeps one void root. */
  ghost predicate Agrees(t: Tree, panes: seq<Pane>) {
    if panes == [] then Void(t)
    else WellFormed(t) && multiset(Leaves(t)) == multiset(panes)
  }

  // ---- What splitting and removing do to the agreement ----

  lemma {:induction false} InsertAfterMultiset<T>(xs: seq<T>, x: T, ys: seq<T>)
    requires x in xs
    ensures multiset(InsertAfter(xs, x, ys)) == multiset(xs + ys)
  {
    if xs[0] == x {
      assert xs == [x] + xs[1..];
    } else {
      InsertAfterMultiset(xs[1..], x, ys);
      assert xs == [xs[0]] + xs[1..];
    }
  }

  lemma {:induction false} WithoutMultiset<T>(xs: seq<T>, x: T)
    ensures multiset(Without(xs, x)) == multiset(xs) - multiset{x}
  {
    if xs != [] {
      assert xs == [xs[0]] + xs[1..];
      if xs[0] != x {
        WithoutMultiset(xs[1..], x);
      }
    }
  }

  lemma MembersAgree(t: Tree, panes: seq<Pane>, p: Pane)
    requires Agrees(t, panes)
    ensures p in Leaves(t) <==> p in panes
  {
    assert p in panes <==> p in multiset(panes);
    assert p in Leaves(t) <==> p in multiset(Leaves(t));
  }

  lemma LeafShows(p: Pane)
    ensures WellFormed(Leaf(p)) && Leaves(Leaf(p)) == [p]
  {
  }

  lemma SplitAgrees(t: Tree, panes: seq<Pane>, focus: Pane, next: Tree, more: seq<Pane>, direction: int)
    requires Agrees(t, panes) && WellFormed(next) && Leaves(next) == more && more != []
    ensures Split(t, focus, next, direction).Some? <==> focus in panes
    ensures focus in panes ==> Agrees(Split(t, focus, next, direction).value, panes + more)
  {
    MembersAgree(t, panes, focus);
    if panes != [] {
      SplitTree(t, focus, next, direction);
      if focus in panes {
        InsertAfterMultiset(Leaves(t), focus, more);
      }
    }
  }

  lemma RemoveAgrees(t: Tree, panes: seq<Pane>, target: Pane)
    requires Agrees(t, panes)
    ensures Remove(t, target).Some? <==> target in panes
    ensures target in panes ==> Agrees(Remove(t, target).value, Without(panes, target))
  {
    MembersAgree(t, panes, target);
    if panes != [] {
      RemoveTree(t, target);
      WithoutMultiset(panes, target);
      WithoutMultiset(Leaves(t), target);
      if target in panes {
        var t' := Remove(t, target).value;
        if Void(t') {
          assert multiset(Without(panes, target)) == multiset{};
        } else {
          SomeLeaf(t');
          assert Leaves(t')[0] in multiset(Leaves(t'));
        }
      }
    }
  }

  class Page {
    const id: nat
    var panes: seq<Pane>
    var focus: Pane?
    var layout: LayoutNode?

    constructor (id: nat)
      ensures this.id == id && panes == [] && focus == null && layout == null
    {
      this.id, panes, focus, layout := id, [], null, null;
    }

    ghost function Nodes(): set<LayoutNode>
      reads `layout, layout
    {
      if layout == null then {} else layout.repr
    }

    ghost predicate Valid()
      reads `panes, `layout, layout, Nodes()
    {
      && NoDuplicates(panes)
      && (layout == null ==> panes == [])
      && Lays(panes)
    }

    ghost predicate Lays(panes: seq<Pane>)
      reads `layout, layout, Nodes()
    {
      Sound() && (layout != null ==> Agrees(layout.Model(), panes))
    }

    ghost predicate Sound()
      reads `layout, layout, Nodes()
    {
      layout != null ==> layout in layout.repr && layout.Valid()
    }

    /** Whenever there is a tree to split, some pane is named as the place to split it. */
    ghost predicate HasFocus()
      reads `layout, `focus
    {
      layout != null ==> focus != null
    }

    /** The page shows the same tree, node for node. */
    ghost function Shown(): Tree
      requires Sound()
      reads `layout, layout, Nodes()
    {
      if layout == null then Leaf(null) else layout.Model()
    }

    /** The panes and the tree of a page that is being made. */
    method Show(made: seq<Pane>, node: LayoutNode)
      requires made != [] && NoDuplicates(made) && node.Valid() && Agrees(node.Model(), made)
      modifies this
      ensures Valid() && HasFocus() && Nodes() == node.repr && layout == node
      ensures panes == made && focus == made[0] && Shown() == old(node.Model())
    {
      panes := made;
      focus := made[0];
      layout := node;
      SameSubtree(node);
    }

    /** A fresh pane that is put beside the focused one can be taken out again without a trace. */
    lemma Restorable(p: Pane, direction: int)
      requires Valid() && focus in panes && p !in panes
      ensures Split(Shown(), focus, Leaf(p), direction).Some?
      ensures Remove(Split(Shown(), focus, Leaf(p), direction).value, p) == Some(Shown())
      ensures Without(panes + [p], p) == panes
    {
      MembersAgree(Shown(), panes, focus);
      MembersAgree(Shown(), panes, p);
      RemoveUndoesSplit(Shown(), focus, p, direction);
      WithoutLast(panes, p);
    }

    twostate predicate Kept()
      reads this, layout, Nodes()
      requires old(Sound()) && Sound()
    {
      panes == old(panes) && focus == old(focus) && Shown() == old(Shown())
    }

    /** The new panes, laid out as `next`, now stand right after the pane that had the focus; the last one has it
        now. */
    twostate predicate Grown(new newPanes: seq<Pane>, new next: Tree, direction: int)
      reads this, layout, Nodes()
      requires old(Sound()) && Sound() && newPanes != []
    {
      && panes == old(panes) + newPanes && focus == newPanes[|newPanes| - 1] && layout != null
      && if old(layout) == null then Shown() == next
         else Split(old(Shown()), old(focus), next, direction) == Some(Shown())
    }

    /** The pane has left the list and the tree, if it was there. */
    twostate predicate Shrunk(target: Pane)
      reads this, layout, Nodes()
      requires old(Sound()) && Sound()
    {
      && panes == Without(old(panes), target)
      && if target in old(panes) then Remove(old(Shown()), target) == Some(Shown()) else Shown() == old(Shown())
    }

    /** If the pane had the focus, the pane that took its place in the list has it now, or else the last one. */
    twostate predicate FocusMovedOn(target: Pane)
      reads this
    {
      forall k :: 0 <= k < |old(panes)| && old(panes)[k] == target && old(focus) == target && panes != [] ==>
        focus == if k < |panes| then panes[k] else panes[|panes| - 1]
    }

    /** The tree of the new panes becomes the layout, or joins it right after the focused pane. */
    method Attach(next: LayoutNode, ghost more: seq<Pane>, direction: int) returns (ok: bool)
      requires Valid() && HasFocus()
      requires next.Valid() && next.repr !! Nodes() && WellFormed(next.Model()) && Leaves(next.Model()) == more
        && more != []
      modifies `layout, Nodes()
      ensures ok <==> old(layout == null || focus in panes)
      ensures old(layout) != null ==> layout == old(layout)
      ensures !ok ==> Valid() && Shown() == old(Shown())
      ensures fresh(Nodes() - old(Nodes()) - old(next.repr))
      ensures ok ==> layout != null && Lays(panes + more)
      ensures ok && old(layout) == null ==> Shown() == old(next.Model())
      ensures ok && old(layout) != null ==> Split(old(Shown()), focus, old(next.Model()), direction) == Some(Shown())
    {
      hide WellFormed, Leaves, Split, Remove;
      if layout == null {
        assert panes + more == more;
        layout := next;
        return true;
      }
      SplitAgrees(layout.Model(), panes, focus, next.Model(), more, direction);
      ok := layout.SplitLayout(focus, next, direction);
    }

    /** insertTransientPane after the id has been taken. */
    method InsertTransient(p: Pane, direction: int) returns (ok: bool)
      requires Valid() && HasFocus() && p !in panes
      modifies this, Nodes()
      ensures Valid() && HasFocus() && fresh(Nodes() - old(Nodes()))
      ensures ok <==> old(layout == null || focus in panes)
      ensures old(layout) != null ==> layout == old(layout)
      ensures if ok then Grown([p], Leaf(p), direction) else Kept()
    {
      hide Agrees, WellFormed, Leaves, Split, Remove;
      LeafShows(p);
      var leaf := new LayoutNode.ForPane(p);
      ok := AttachAll(leaf, [p], direction);
    }

    /** The rest of addPanesToCurrentPage: fresh panes, which are laid out among themselves first. */
    method AddPanes(newPanes: seq<Pane>, direction: int) returns (ok: bool, ghost next: Tree)
      requires Valid() && HasFocus() && newPanes != [] && NoDuplicates(panes + newPanes)
      modifies this, Nodes()
      ensures Valid() && HasFocus() && fresh(Nodes() - old(Nodes()))
      ensures ok <==> old(layout == null || focus in panes)
      ensures old(layout) != null ==> layout == old(layout)
      ensures IsBalanced(next, newPanes)
      ensures if ok then Grown(newPanes, next, direction) else Kept()
    {
      hide Agrees, WellFormed, Leaves, Split, Remove;
      var node;
      node, next := LayOut(newPanes, direction);
      ok := AttachAll(node, newPanes, direction);
    }

    method LayOut(newPanes: seq<Pane>, direction: int) returns (node: LayoutNode, ghost next: Tree)
      requires newPanes != []
      ensures node.Valid() && fresh(node.repr) && next == node.Model()
      ensures IsBalanced(next, newPanes) && WellFormed(next) && Leaves(next) == newPanes
    {
      node := BuildBalancedLayout(newPanes, direction);
      next := node.Model();
      BalancedIsWellFormed(next, newPanes);
    }

    method AttachAll(node: LayoutNode, newPanes: seq<Pane>, direction: int) returns (ok: bool)
      requires Valid() && HasFocus() && newPanes != [] && NoDuplicates(panes + newPanes)
      requires node.Valid() && node.repr !! Nodes() && WellFormed(node.Model()) && Leaves(node.Model()) == newPanes
      modifies this, Nodes()
      ensures Valid() && HasFocus() && fresh(Nodes() - old(Nodes()) - old(node.repr))
      ensures ok <==> old(layout == null || focus in panes)
      ensures old(layout) != null ==> layout == old(layout)
      ensures if ok then Grown(newPanes, old(node.Model()), direction) else Kept()
    {
      hide Agrees, WellFormed, Leaves, Split, Remove;
      ok := Attach(node, newPanes, direction);
      if ok {
        label attached:
        Register(newPanes);
        TreeKept@attached(panes);
      }
    }

    twostate lemma TreeKept(ps: seq<Pane>)
      requires old(Lays(ps)) && unchanged(`layout) && unchanged(old(Nodes())) && (layout != null ==> unchanged(layout))
      ensures Lays(ps) && Nodes() == old(Nodes()) && Shown() == old(Shown())
    {
    }

    method Register(newPanes: seq<Pane>)
      modifies `panes, `focus
      ensures panes == old(panes) + newPanes
      ensures newPanes != [] ==> focus == newPanes[|newPanes| - 1]
    {
      for i := 0 to |newPanes|
        invariant panes == old(panes) + newPanes[..i]
        invariant i > 0 ==> focus == newPanes[i - 1]
      {
        panes := panes + [newPanes[i]];
        focus := newPanes[i];
      }
      assert newPanes[..|newPanes|] == newPanes;
    }

    /** removeTransientPane on the current page. */
    method RemoveTransient(target: Pane, fallback: Pane?)
      requires Valid()
      modifies this, Nodes()
      ensures Valid() && layout == old(layout) && Nodes() <= old(Nodes())
      ensures Shrunk(target)
      ensures focus == if fallback != null then fallback else if panes != [] then panes[0] else null
    {
      hide Agrees, WellFormed, Leaves, Split, Remove;
      var index := IndexOf(target);
      TakeOut(target, index);
      FallBack(panes, fallback);
    }

    /** The focus after a removal; the panes that remain are given. */
    method FallBack(panes: seq<Pane>, fallback: Pane?)
      modifies `focus
      ensures focus == if fallback != null then fallback else if panes != [] then panes[0] else null
    {
      if fallback != null {
        focus := fallback;
      } else if |panes| > 0 {
        focus := panes[0];
      } else {
        focus := null;
      }
    }

    /** The pane leaves the list and the tree; a pane that is not there changes neither. */
    method TakeOut(target: Pane, index: int)
      requires Valid() && IsIndexOf(target, index)
      modifies this`panes, Nodes()
      ensures Valid() && Nodes() <= old(Nodes())
      ensures Shrunk(target)
    {
      hide Agrees, WellFormed, Leaves, Split, Remove;
      ghost var was := panes;
      WithoutIndex(panes, target, index);
      if index >= 0 {
        panes := panes[..index] + panes[index + 1..];
      }
      RemoveFromLayout(target, was);
    }

    method RemoveFromLayout(target: Pane, ghost was: seq<Pane>)
      requires Lays(was)
      modifies Nodes()
      ensures Nodes() <= old(Nodes()) && Lays(Without(was, target))
      ensures layout != null ==>
        if target in was then Remove(old(Shown()), target) == Some(Shown()) else Shown() == old(Shown())
    {
      if layout != null {
        RemoveAgrees(layout.Model(), was, target);
        if target !in was {
          WithoutAbsent(was, target);
        }
        var _ := layout.RemovePane(target);
      }
    }

    /** removePane on the page that the pane was opened on. */
    method Close(target: Pane) returns (found: bool)
      requires Valid()
      modifies this, Nodes()
      ensures Valid() && layout == old(layout) && Nodes() <= old(Nodes()) && found == (target in old(panes))
      ensures Shrunk(target)
      ensures old(focus) != target || !found || panes == [] ==> focus == old(focus)
      ensures old(focus in panes) && panes != [] ==> focus in panes
      ensures FocusMovedOn(target)
    {
      hide Agrees, WellFormed, Leaves, Split, Remove;
      var index := IndexOf(target);
      if index < 0 {
        WithoutAbsent(panes, target);
        return false;
      }
      WithoutMembers(panes, target);
      TakeOut(target, index);
      if |panes| > 0 && focus == target {
        focus := panes[if index >= |panes| then |panes| - 1 else index];
      }
      return true;
    }

    method FocusOn(p: Pane)
      modifies `focus
      ensures focus == p
    {
      focus := p;
    }

    /** The focus moves on to the pane after the focused one, or to the second pane if the focus is stale. */
    method Cycle() returns (ghost from: nat)
      requires panes != []
      modifies `focus
      ensures from < |panes| && focus == panes[(from + 1) % |panes|]
      ensures if old(focus) in panes then panes[from] == old(focus) else from == 0
    {
      var current := 0;
      for i := 0 to |panes|
        invariant current == 0 && (focus == null || focus !in panes[..i])
      {
        if panes[i] == focus {
          current := i;
          break;
        }
      }
      from := current;
      focus := panes[(current + 1) % |panes|];
    }

    ghost predicate IsIndexOf(target: Pane, index: int)
      reads `panes
    {
      if index == -1 then target !in panes
      else 0 <= index < |panes| && panes[index] == target && target !in panes[..index]
    }

    method IndexOf(target: Pane) returns (index: int)
      ensures IsIndexOf(target, index)
    {
      for i := 0 to |panes|
        invariant target !in panes[..i]
      {
        if panes[i] == target {
          return i;
        }
      }
      return -1;
    }
  }

  lemma {:induction false} WithoutAt<T>(xs: seq<T>, x: T, index: nat)
    requires index < |xs| && xs[index] == x && x !in xs[..index]
    ensures Without(xs, x) == xs[..index] + xs[index + 1..]
  {
    if index > 0 {
      assert xs[0] == xs[..index][0] && xs[..index][0] in xs[..index];
      assert xs[1..][..index - 1] == xs[..index][1..];
      WithoutAt(xs[1..], x, index - 1);
      assert [xs[0]] + (xs[1..][..index - 1] + xs[1..][index..]) == xs[..index] + xs[index + 1..];
    }
  }

  lemma WithoutKeepsApart<T>(xs: seq<T>, index: nat)
    requires NoDuplicates(xs) && index < |xs|
    ensures NoDuplicates(xs[..index] + xs[index + 1..])
  {
  }

  lemma {:induction false} WithoutGone<T>(xs: seq<T>, x: T)
    requires NoDuplicates(xs)
    ensures x !in Without(xs, x)
  {
    if xs != [] {
      if xs[0] != x {
        WithoutGone(xs[1..], x);
      } else {
        assert x !in xs[1..];
      }
    }
  }

  lemma WithoutMembers<T>(xs: seq<T>, x: T)
    requires NoDuplicates(xs)
    ensures forall y :: y in Without(xs, x) <==> y in xs && y != x
  {
    WithoutGone(xs, x);
    WithoutOthers(xs, x);
  }

  lemma {:induction false} WithoutOthers<T>(xs: seq<T>, x: T)
    ensures forall y :: y != x ==> (y in Without(xs, x) <==> y in xs)
  {
    if xs != [] {
      WithoutOthers(xs[1..], x);
      assert xs == [xs[0]] + xs[1..];
    }
  }

  lemma {:induction false} WithoutLast<T>(xs: seq<T>, x: T)
    requires x !in xs
    ensures Without(xs + [x], x) == xs
  {
    WithoutConcat(xs, [x], x);
  }

  lemma WithoutIndex<T>(xs: seq<T>, x: T, index: int)
    requires if index == -1 then x !in xs else 0 <= index < |xs| && xs[index] == x && x !in xs[..index]
    ensures Without(xs, x) == if index == -1 then xs else xs[..index] + xs[index + 1..]
    ensures NoDuplicates(xs) ==> NoDuplicates(Without(xs, x))
    ensures |xs| == 0 ==> Without(xs, x) == []
  {
    if index == -1 {
      WithoutAbsent(xs, x);
    } else {
      WithoutAt(xs, x, index);
      if NoDuplicates(xs) {
        WithoutKeepsApart(xs, index);
      }
    }
  }

  lemma {:induction false} WithoutAbsent<T>(xs: seq<T>, x: T)
    requires x !in xs
    ensures Without(xs, x) == xs
  {
    if xs != [] {
      WithoutAbsent(xs[1..], x);
    }
  }

  twostate lemma SamePage(q: Page)
    requires old(q.Valid()) && unchanged(q) && unchanged(old(q.Nodes())) && (q.layout != null ==> q.layout in q.Nodes())
    ensures q.Valid() && q.Nodes() == old(q.Nodes()) && q.Shown() == old(q.Shown())
  {
  }
}
