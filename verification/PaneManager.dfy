/** The page and pane bookkeeping of `internal/mux/manager.go`. */
module PaneManager {
  import opened Options
  import opened LayoutTree
  import opened Layout
  import opened LayoutBuild
  import opened Pages

  class Manager {
    var sessionPages: seq<Page>
    var currentPage: Page?
    var nextPageID: nat
    var nextPaneID: nat
    ghost var pages: set<Page>        // every page ever made: handlers may still refer to a removed one
    ghost var nodes: set<LayoutNode>

    /** On every page list and tree agree, and pages share no nodes. */
    ghost predicate Kempt()
      reads `sessionPages, `currentPage, `pages, `nodes, pages, nodes
    {
      && (forall p <- sessionPages :: p in pages)
      && (currentPage != null ==> currentPage in pages)
      && NoDuplicates(sessionPages)
      && (forall p <- pages :: (p.layout != null ==> p.layout in nodes) && p.Nodes() <= nodes)
      && (forall p <- pages :: p.Valid() && p.layout != null)
      && (forall p, q :: p in pages && q in pages && p != q ==> p.Nodes() !! q.Nodes())
    }

    /** Besides, every page names some pane as its focus, which may have gone. */
    ghost predicate Valid()
      reads `sessionPages, `currentPage, `pages, `nodes, pages, nodes
    {
      Kempt() && forall p <- pages :: p.focus != null
    }

    /** All pages but one are as they were. */
    twostate predicate OthersKept(new page: Page?)
      requires old(Kempt()) && Kempt()
      reads this, pages, nodes
    {
      forall q <- old(pages) :: q in pages && (q != page ==> q.Kept())
    }

    /** Pages do not notice when others are made, or when the session lists fewer of them. */
    twostate lemma Undisturbed()
      requires old(Valid()) && unchanged(`pages, `nodes) && unchanged(old(pages)) && unchanged(old(nodes))
      requires (forall p <- sessionPages :: p in old(sessionPages)) && NoDuplicates(sessionPages)
      requires currentPage != null ==> currentPage in pages
      ensures Valid() && OthersKept(null)
    {
    }

    /** One page has changed within itself, perhaps with new nodes. */
    twostate lemma PageChanged(page: Page)
      requires old(Valid()) && page in old(pages) && pages == old(pages) && nodes == old(nodes) + page.Nodes()
      requires sessionPages == old(sessionPages) && (currentPage != null ==> currentPage in pages)
      requires page.Valid() && page.layout != null && page.Nodes() - old(page.Nodes()) !! old(nodes)
      requires forall q <- old(pages) :: q != page ==> unchanged(q) && unchanged(old(q.Nodes()))
      ensures Kempt() && OthersKept(page) && (Valid() <==> page.focus != null)
    {
      forall q <- pages | q != page
        ensures q.Valid() && q.Nodes() == old(q.Nodes()) && q.Shown() == old(q.Shown())
      {
        SamePage(q);
      }
    }

    constructor ()
      ensures Valid() && sessionPages == [] && currentPage == null && pages == {} && nodes == {}
      ensures nextPageID == nextPaneID == 1
    {
      sessionPages, currentPage, nextPageID, nextPaneID, pages, nodes := [], null, 1, 1, {}, {};
    }

    method InsertTransientPane(p: Pane, direction: int) returns (ok: bool)
      requires Valid() && (currentPage != null ==> p !in currentPage.panes)
      modifies this, pages, nodes
      ensures Valid() && sessionPages == old(sessionPages) && currentPage == old(currentPage) && pages == old(pages)
      ensures OthersKept(currentPage)
      ensures fresh(nodes - old(nodes))
      ensures ok <==> currentPage != null && old(currentPage.focus in currentPage.panes)
      ensures currentPage != null ==> if ok then currentPage.Grown([p], Leaf(p), direction) else currentPage.Kept()
    {
      hide Agrees, WellFormed, Leaves, Split, Remove;
      if currentPage == null {
        return false;
      }
      ok := currentPage.InsertTransient(p, direction);
      label inserted:
      nextPaneID := nextPaneID + 1;
      nodes := nodes + currentPage.Nodes();
      SamePage@inserted(currentPage);
      PageChanged(currentPage);
    }

    /** Panes are made in host order, each with the next id. */
    method NewPendingPanes(hosts: seq<string>) returns (made: seq<Pane>)
      modifies this`nextPaneID
      ensures |made| == |hosts| && NoDuplicates(made)
      ensures forall i :: 0 <= i < |made| ==> fresh(made[i]) && made[i].server == hosts[i]
      ensures forall i :: 0 <= i < |made| ==> made[i].id == old(nextPaneID) + i
      ensures nextPaneID == old(nextPaneID) + |hosts|
    {
      made := [];
      for i := 0 to |hosts|
        invariant |made| == i && NoDuplicates(made) && nextPaneID == old(nextPaneID) + i
        invariant forall k :: 0 <= k < i ==>
          fresh(made[k]) && made[k].server == hosts[k] && made[k].id == old(nextPaneID) + k
      {
        var p := new Pane(nextPaneID, hosts[i]);
        nextPaneID := nextPaneID + 1;
        made := made + [p];
      }
    }

    /** A new page shows its panes in a balanced layout, takes the focus to the first one and becomes the current
        page. */
    method CreatePage(hosts: seq<string>)
      requires Valid()
      modifies this
      ensures Valid() && OthersKept(null)
      ensures fresh(pages - old(pages)) && fresh(nodes - old(nodes))
      ensures hosts == [] ==>
        sessionPages == old(sessionPages) && currentPage == old(currentPage) && pages == old(pages)
      ensures hosts != [] ==>
        && currentPage != null && fresh(currentPage) && sessionPages == old(sessionPages) + [currentPage]
        && pages == old(pages) + {currentPage}
        && |currentPage.panes| == |hosts| && (forall i :: 0 <= i < |hosts| ==> currentPage.panes[i].server == hosts[i])
        && currentPage.focus == currentPage.panes[0] && IsBalanced(currentPage.Shown(), currentPage.panes)
    {
      hide Agrees, WellFormed, Leaves, Split, Remove;
      var id := nextPageID;
      nextPageID := nextPageID + 1;
      var made := NewPendingPanes(hosts);
      if |made| == 0 {
        return;
      }
      Undisturbed();
      OpenPage(id, made);
    }

    /** The panes are shown on a page of their own, which joins the session as the current one. */
    method OpenPage(id: nat, made: seq<Pane>)
      requires Valid() && made != [] && NoDuplicates(made)
      modifies this
      ensures Valid() && OthersKept(null) && fresh(pages - old(pages)) && fresh(nodes - old(nodes))
      ensures currentPage != null && fresh(currentPage) && sessionPages == old(sessionPages) + [currentPage]
      ensures pages == old(pages) + {currentPage}
      ensures currentPage.panes == made && currentPage.focus == made[0] && IsBalanced(currentPage.Shown(), made)
    {
      hide Agrees, WellFormed, Leaves, Split, Remove;
      var page := NewPage(id, made);
      Undisturbed();
      JoinSession(page);
    }

    method JoinSession(page: Page)
      requires Valid() && page !in pages && page.Valid() && page.layout != null && page.focus != null
        && page.Nodes() !! nodes
      modifies this
      ensures Valid() && OthersKept(null) && pages == old(pages) + {page} && nodes == old(nodes) + page.Nodes()
      ensures currentPage == page && sessionPages == old(sessionPages) + [page]
    {
      hide Agrees, WellFormed, Leaves, Split, Remove;
      sessionPages := sessionPages + [page];
      currentPage := page;
      pages := pages + {page};
      nodes := nodes + page.Nodes();
      PageAdded(page);
    }

    static method NewPage(id: nat, made: seq<Pane>) returns (page: Page)
      requires made != [] && NoDuplicates(made)
      ensures fresh(page) && page.Valid() && fresh(page.Nodes())
      ensures page.panes == made && page.focus == made[0] && page.layout != null && IsBalanced(page.Shown(), made)
    {
      page := new Page(id);
      var node := BuildBalancedLayout(made, FLEX_COLUMN);
      BalancedIsWellFormed(node.Model(), made);
      page.Show(made, node);
    }

    /** A page made just now has joined the session as the current one. */
    twostate lemma PageAdded(new page: Page)
      requires old(Valid()) && page !in old(pages) && pages == old(pages) + {page} && nodes == old(nodes) + page.Nodes()
      requires page.Valid() && page.layout != null && page.focus != null && page.Nodes() !! old(nodes)
      requires sessionPages == old(sessionPages) + [page] && currentPage == page
      requires unchanged(old(pages)) && unchanged(old(nodes))
      ensures Valid() && OthersKept(page)
    {
      PagesSame();
      assert forall p <- old(pages) :: p.Valid() && p.layout != null && p.focus != null && p.Nodes() <= old(nodes);
      assert forall p <- pages :: p in old(pages) || p == page;
    }

    twostate lemma PagesSame()
      requires old(Valid()) && unchanged(old(pages)) && unchanged(old(nodes))
      ensures forall q <- old(pages) :: q.Valid() && q.Nodes() == old(q.Nodes()) && q.Kept()
    {
      forall q <- old(pages)
        ensures q.Valid() && q.Nodes() == old(q.Nodes()) && q.Kept()
      {
        SamePage(q);
      }
    }

    method AddPanesToCurrentPage(hosts: seq<string>, direction: int)
      returns (ok: bool, ghost made: seq<Pane>, ghost next: Tree)
      requires Valid()
      modifies this, pages, nodes
      ensures Valid() && OthersKept(old(currentPage)) && fresh(pages - old(pages)) && fresh(nodes - old(nodes))
      ensures hosts == [] ==>
        ok && sessionPages == old(sessionPages) && currentPage == old(currentPage) && pages == old(pages)
      ensures old(currentPage) == null && hosts != [] ==>
        && ok && currentPage != null && fresh(currentPage) && sessionPages == old(sessionPages) + [currentPage]
        && pages == old(pages) + {currentPage}
        && |currentPage.panes| == |hosts| && (forall i :: 0 <= i < |hosts| ==> currentPage.panes[i].server == hosts[i])
        && currentPage.focus == currentPage.panes[0] && IsBalanced(currentPage.Shown(), currentPage.panes)
      ensures old(currentPage) != null ==>
        sessionPages == old(sessionPages) && currentPage == old(currentPage) && pages == old(pages)
      ensures old(currentPage) != null && hosts != [] ==>
        && |made| == |hosts| && (forall i :: 0 <= i < |hosts| ==> fresh(made[i]) && made[i].server == hosts[i])
        && IsBalanced(next, made)
        && ok == old(currentPage.focus in currentPage.panes)
        && if ok then currentPage.Grown(made, next, direction) else currentPage.Kept()
      ensures old(currentPage) != null && hosts == [] ==> currentPage.Kept()
    {
      made, next := [], Leaf(null);
      if currentPage == null {
        CreatePage(hosts);
        ok := true;
      } else if |hosts| == 0 {
        Undisturbed();
        ok := true;
      } else {
        ok, made, next := GrowCurrentPage(hosts, direction);
      }
    }

    method GrowCurrentPage(hosts: seq<string>, direction: int)
      returns (ok: bool, ghost made: seq<Pane>, ghost next: Tree)
      requires Valid() && currentPage != null && hosts != []
      modifies this, pages, nodes
      ensures Valid() && OthersKept(currentPage) && sessionPages == old(sessionPages) && currentPage == old(currentPage)
      ensures |made| == |hosts| && (forall i :: 0 <= i < |hosts| ==> fresh(made[i]) && made[i].server == hosts[i])
      ensures IsBalanced(next, made) && pages == old(pages) && fresh(nodes - old(nodes))
      ensures ok == old(currentPage.focus in currentPage.panes)
      ensures if ok then currentPage.Grown(made, next, direction) else currentPage.Kept()
    {
      hide Agrees, WellFormed, Leaves, Split, Remove;
      var newPanes := NewPendingPanes(hosts);
      made := newPanes;
      Undisturbed();
      ok, next := AttachToCurrentPage(newPanes, direction);
    }

    method AttachToCurrentPage(newPanes: seq<Pane>, direction: int) returns (ok: bool, ghost next: Tree)
      requires Valid() && currentPage != null && newPanes != [] && NoDuplicates(currentPage.panes + newPanes)
      modifies this, pages, nodes
      ensures Valid() && OthersKept(currentPage) && sessionPages == old(sessionPages) && currentPage == old(currentPage)
      ensures IsBalanced(next, newPanes) && pages == old(pages) && fresh(nodes - old(nodes))
      ensures ok == old(currentPage.focus in currentPage.panes)
      ensures if ok then currentPage.Grown(newPanes, next, direction) else currentPage.Kept()
    {
      hide Agrees, WellFormed, Leaves, Split, Remove;
      ok, next := currentPage.AddPanes(newPanes, direction);
      nodes := nodes + currentPage.Nodes();
      PageChanged(currentPage);
    }

    /** The fallback may be stale: the focus is on the page again exactly if the fallback was and is not itself removed.
        Only without a fallback, on a page left empty, does no pane at all have the focus. */
    method RemoveTransientPane(target: Pane, fallback: Pane?)
      requires Valid()
      modifies this, pages, nodes
      ensures Kempt() && sessionPages == old(sessionPages) && currentPage == old(currentPage) && pages == old(pages)
      ensures OthersKept(currentPage) && nodes == old(nodes)
      ensures Valid() <==> currentPage == null || fallback != null || old(Without(currentPage.panes, target)) != []
      ensures currentPage != null ==> currentPage.Shrunk(target)
      ensures currentPage != null && fallback != null ==>
        && currentPage.focus == fallback
        && (currentPage.focus in currentPage.panes <==> fallback in old(currentPage.panes) && fallback != target)
      ensures currentPage != null && fallback == null ==>
        (currentPage.focus in currentPage.panes <==> old(Without(currentPage.panes, target)) != [])
    {
      hide Agrees, WellFormed, Leaves, Split, Remove;
      if currentPage == null {
        return;
      }
      WithoutMembers(currentPage.panes, target);
      currentPage.RemoveTransient(target, fallback);
      PageChanged(currentPage);
    }

    method RemovePage(target: Page?, fallback: Page?)
      requires Valid() && (fallback != null ==> fallback in pages)
      modifies `sessionPages, `currentPage
      ensures Valid() && OthersKept(null)
      ensures target == null ==> sessionPages == old(sessionPages) && currentPage == old(currentPage)
      ensures target != null ==> sessionPages == Without<Page>(old(sessionPages), target)
      ensures target != null ==>
        currentPage == if fallback != null then fallback else if sessionPages != [] then sessionPages[0] else null
      ensures target != null ==>
        (currentPage in sessionPages <==>
          if fallback == null then sessionPages != [] else fallback in old(sessionPages) && fallback != target)
    {
      if target == null {
        return;
      }
      DropPage(target);
      Select(fallback);
      Undisturbed();
    }

    method Select(fallback: Page?)
      modifies `currentPage
      ensures currentPage == if fallback != null then fallback else if sessionPages != [] then sessionPages[0] else null
    {
      if fallback != null {
        currentPage := fallback;
      } else if |sessionPages| > 0 {
        currentPage := sessionPages[0];
      } else {
        currentPage := null;
      }
    }

    method DropPage(target: Page)
      requires NoDuplicates(sessionPages)
      modifies `sessionPages
      ensures NoDuplicates(sessionPages) && sessionPages == Without(old(sessionPages), target)
      ensures forall p :: p in sessionPages <==> p in old(sessionPages) && p != target
    {
      WithoutMembers(sessionPages, target);
      for i := 0 to |sessionPages|
        invariant sessionPages == old(sessionPages) && target !in sessionPages[..i]
      {
        if sessionPages[i] == target {
          WithoutIndex(sessionPages, target, i);
          sessionPages := sessionPages[..i] + sessionPages[i + 1..];
          return;
        }
      }
      WithoutIndex(sessionPages, target, -1);
    }

    /** A pane's session has ended.  The page it was opened on need not be the current one, nor still be listed. */
    method RemovePane(targetPage: Page?, target: Pane)
      requires Valid() && (targetPage != null ==> targetPage in pages)
      modifies this, pages, nodes
      ensures Valid() && OthersKept(targetPage) && pages == old(pages) && nodes == old(nodes)
      ensures targetPage != null ==> targetPage.Shrunk(target)
      ensures targetPage != null && old(targetPage.focus) != target ==> targetPage.focus == old(targetPage.focus)
      ensures targetPage != null && old(targetPage.focus in targetPage.panes) && targetPage.panes != [] ==>
        targetPage.focus in targetPage.panes
      ensures targetPage != null ==> targetPage.FocusMovedOn(target)
      ensures var emptied := targetPage != null && target in old(targetPage.panes) && targetPage.panes == [];
        && sessionPages == (if emptied then Without<Page>(old(sessionPages), targetPage) else old(sessionPages))
        && currentPage == if !emptied then old(currentPage) else if sessionPages == [] then null else sessionPages[0]
    {
      hide Agrees, WellFormed, Leaves, Split, Remove;
      if targetPage == null {
        return;
      }
      var found := ClosePane(targetPage, target);
      if found && |targetPage.panes| == 0 {
        ForgetPage(targetPage);
      }
    }

    method ClosePane(targetPage: Page, target: Pane) returns (found: bool)
      requires Valid() && targetPage in pages
      modifies pages, nodes
      ensures Valid() && OthersKept(targetPage) && found == (target in old(targetPage.panes))
      ensures targetPage.Shrunk(target)
      ensures old(targetPage.focus) != target ==> targetPage.focus == old(targetPage.focus)
      ensures old(targetPage.focus in targetPage.panes) && targetPage.panes != [] ==>
        targetPage.focus in targetPage.panes
      ensures targetPage.FocusMovedOn(target)
    {
      hide Agrees, WellFormed, Leaves, Split, Remove;
      found := targetPage.Close(target);
      PageChanged(targetPage);
    }

    method ForgetPage(targetPage: Page)
      requires Valid()
      modifies `sessionPages, `currentPage
      ensures Valid() && sessionPages == Without(old(sessionPages), targetPage)
      ensures currentPage == if sessionPages == [] then null else sessionPages[0]
    {
      DropPage(targetPage);
      if |sessionPages| == 0 {
        currentPage := null;
      } else {
        currentPage := sessionPages[0];
      }
      Undisturbed();
    }

    method SwitchPage(index: int)
      requires Valid()
      modifies `currentPage
      ensures Valid() && OthersKept(null)
      ensures sessionPages == [] ==> currentPage == old(currentPage)
      ensures sessionPages != [] ==>
        currentPage ==
          sessionPages[if index < 0 then |sessionPages| - 1 else if index >= |sessionPages| then 0 else index]
    {
      hide Agrees, WellFormed, Leaves, Split, Remove;
      if |sessionPages| == 0 {
        Undisturbed();
        return;
      }
      var to := index;
      if to < 0 {
        to := |sessionPages| - 1;
      }
      if to >= |sessionPages| {
        to := 0;
      }
      currentPage := sessionPages[to];
      Undisturbed();
    }

    method CyclePane()
      requires Valid()
      modifies pages
      ensures Valid() && OthersKept(currentPage)
      ensures currentPage != null ==>
        currentPage.panes == old(currentPage.panes) && currentPage.Shown() == old(currentPage.Shown())
      ensures currentPage != null && currentPage.panes != [] ==>
        var panes, was := currentPage.panes, old(currentPage.focus);
        if was !in panes then currentPage.focus == panes[1 % |panes|]
        else exists k, next :: 0 <= k < |panes| && next == (k + 1) % |panes|
                            && panes[k] == was && panes[next] == currentPage.focus
      ensures currentPage != null && currentPage.panes == [] ==> currentPage.focus == old(currentPage.focus)
    {
      hide Agrees, WellFormed, Leaves, Split, Remove;
      if currentPage == null || |currentPage.panes| == 0 {
        Undisturbed();
        return;
      }
      var from := currentPage.Cycle();
      PageChanged(currentPage);
    }

    /** captureMouse: a click takes the focus to the pane that it hits, if it hits one of the current page. */
    method ClickPane(hit: nat)
      requires Valid()
      modifies pages
      ensures Valid() && OthersKept(currentPage)
      ensures currentPage != null ==>
        currentPage.panes == old(currentPage.panes) && currentPage.Shown() == old(currentPage.Shown())
      ensures currentPage != null ==>
        currentPage.focus == if hit < |currentPage.panes| then currentPage.panes[hit] else old(currentPage.focus)
    {
      hide Agrees, WellFormed, Leaves, Split, Remove;
      if currentPage == null || hit >= |currentPage.panes| {
        Undisturbed();
        return;
      }
      currentPage.FocusOn(currentPage.panes[hit]);
      PageChanged(currentPage);
    }

    // ---- The host selector ----

    /** The selector pane, unlike a host pane, does not count its id when it opens on a page of its own. */
    method NewSelectorPane() returns (p: Pane)
      ensures fresh(p) && p.id == nextPaneID
    {
      p := new Pane(nextPaneID, "selector");
    }

    /** showSelector for a new pane or a split; removing the selector's pane would give the tree and the list back.
        With a stale focus the selector does not open and no page changes. */
    method OpenSelector(direction: int) returns (ok: bool, selectorPane: Pane, previousFocus: Pane)
      requires Valid() && currentPage != null
      modifies this, pages, nodes
      ensures Valid() && sessionPages == old(sessionPages) && currentPage == old(currentPage) && pages == old(pages)
      ensures fresh(nodes - old(nodes)) && OthersKept(currentPage)
      ensures previousFocus == old(currentPage.focus) && fresh(selectorPane)
      ensures ok == old(currentPage.focus in currentPage.panes)
      ensures if ok then Undoable(currentPage, selectorPane) else currentPage.Kept()
    {
      hide Agrees, WellFormed, Leaves, Split, Remove;
      previousFocus := currentPage.focus;
      selectorPane := NewSelectorPane();
      Undisturbed();
      ok := InsertSelector(selectorPane, direction);
    }

    /** The pane has been put on the page and has the focus; without it list and tree are what they were. */
    twostate predicate Undoable(page: Page, new p: Pane)
      requires old(Kempt()) && Kempt() && page in old(pages) && page in pages
      reads this, pages, nodes
    {
      && page.focus == p && page.panes == old(page.panes) + [p] && p !in old(page.panes)
      && Remove(page.Shown(), p) == Some(old(page.Shown()))
    }

    method InsertSelector(p: Pane, direction: int) returns (ok: bool)
      requires Valid() && currentPage != null && p !in currentPage.panes
      modifies this, pages, nodes
      ensures Valid() && sessionPages == old(sessionPages) && currentPage == old(currentPage) && pages == old(pages)
      ensures fresh(nodes - old(nodes)) && OthersKept(currentPage)
      ensures ok == old(currentPage.focus in currentPage.panes)
      ensures if ok then Undoable(currentPage, p) else currentPage.Kept()
    {
      if currentPage.focus in currentPage.panes {
        currentPage.Restorable(p, direction);
      }
      ok := InsertTransientPane(p, direction);
    }

    /** Opening the selector beside the focused pane and cancelling it leaves every page as it was: the panes, the
        focus and the tree, node for node. */
    method OpenAndCancelSelector(direction: int)
      requires Valid() && currentPage != null
      modifies this, pages, nodes
      ensures Valid() && sessionPages == old(sessionPages) && currentPage == old(currentPage)
      ensures currentPage.Kept() && OthersKept(currentPage)
    {
      var ok, selectorPane, previousFocus := OpenSelector(direction);
      if ok {
        WithoutLast(old(currentPage.panes), selectorPane);
        RemoveTransientPane(selectorPane, previousFocus);
      }
    }

    // ---- Any run ----

    /** The focus of every page that has panes is one of them. */
    ghost predicate FocusesShown()
      reads this, pages
    {
      forall p <- pages :: FocusShown(p)
    }

    /** One selector is open at most, on the current page, beside the pane that gets the focus back. */
    ghost predicate Calmed(selectors: seq<Selector>, open: bool)
      reads this, pages
    {
      FocusesShown() && |selectors| <= 1 && (selectors != [] ==> open && Fits(selectors[0]))
    }

    ghost predicate Fits(selector: Selector)
      reads this, pages
    {
      && currentPage != null && currentPage in pages
      && selector.pane in currentPage.panes && selector.previous in currentPage.panes
      && selector.pane != selector.previous
    }

    /** Pages that are as they were, or made with a focus, keep the focus shown. */
    twostate lemma FocusesStay(page: Page?)
      requires old(Kempt()) && Kempt() && OthersKept(page) && old(FocusesShown())
      requires forall q <- pages :: q in old(pages) || FocusShown(q)
      requires page != null && page in pages ==> FocusShown(page)
      ensures FocusesShown()
    {
      forall q <- pages ensures FocusShown(q) {
        assert q in old(pages) ==> old(FocusShown(q));
      }
    }

    /** Requests in any order; pages, panes and open selectors are picked by number, and may long be closed.  List
        and tree agree on every page.  If nothing but adding, cycling, clicking and closing happens while a selector is
        open, every page with panes has its focus on one of them. */
    method Run(requests: seq<Request>)
      requires Valid()
      modifies this, pages, nodes
      ensures Valid()
      ensures old(FocusesShown()) && Calm(requests) ==> FocusesShown()
    {
      var made: seq<Page>, selectors: seq<Selector> := [], [];
      for k := 0 to |requests|
        invariant Valid() && fresh(pages - old(pages)) && fresh(nodes - old(nodes))
        invariant forall p <- made :: p in pages
        invariant old(FocusesShown()) && Calm(requests[..k]) ==> Calmed(selectors, OpenAfter(requests[..k]))
      {
        assert requests[..k + 1][..k] == requests[..k];
        made, selectors := Serve(requests[k], made, selectors, OpenAfter(requests[..k]));
      }
      assert requests[..|requests|] == requests;
    }

    method Serve(request: Request, known: seq<Page>, selectors: seq<Selector>, ghost open: bool)
        returns (made: seq<Page>, left: seq<Selector>)
      requires Valid() && (forall p <- known :: p in pages)
      modifies this, pages, nodes
      ensures Valid() && fresh(pages - old(pages)) && fresh(nodes - old(nodes)) && forall p <- made :: p in pages
      ensures old(Calmed(selectors, open)) && CalmNext(open, request) ==> Calmed(left, OpenNext(open, request))
    {
      hide Agrees, WellFormed, Leaves, Split, Remove;
      made, left := known, selectors;
      match request
      case Create(hosts) =>
        ServeCreate(hosts, selectors, open);
        if currentPage != null {
          made := made + [currentPage];
        }
      case Add(hosts, direction) =>
        ServeAdd(hosts, direction, selectors, open);
      case Select(direction) =>
        left := ServeSelect(direction, selectors, open);
      case Unselect(i) =>
        left := ServeUnselect(i, selectors, open);
      case End(p, i) =>
        if p < |made| && i < |made[p].panes| {
          ServeEnd(made[p], made[p].panes[i], selectors, open);
        }
      case Drop(p, fallback) =>
        if p < |made| && fallback < |made| {
          ServeDrop(made[p], made[fallback], selectors, open);
        }
      case Switch(index) =>
        ServeSwitch(index, selectors, open);
      case Cycle =>
        ServeCycle(selectors, open);
      case Click(hit) =>
        ServeClick(hit, selectors, open);
    }

    method ServeCreate(hosts: seq<string>, ghost selectors: seq<Selector>, ghost open: bool)
      requires Valid()
      modifies this
      ensures Valid() && old(pages) <= pages && fresh(pages - old(pages)) && fresh(nodes - old(nodes))
      ensures old(Calmed(selectors, open)) && !open ==> Calmed(selectors, open)
    {
      CreatePage(hosts);
      if old(FocusesShown()) {
        FocusesStay(null);
      }
    }

    method ServeAdd(hosts: seq<string>, direction: int, ghost selectors: seq<Selector>, ghost open: bool)
      requires Valid()
      modifies this, pages, nodes
      ensures Valid() && old(pages) <= pages && fresh(pages - old(pages)) && fresh(nodes - old(nodes))
      ensures old(Calmed(selectors, open)) ==> Calmed(selectors, open)
    {
      var ok, _, _ := AddPanesToCurrentPage(hosts, direction);
      if old(FocusesShown()) {
        FocusesStay(old(currentPage));
      }
    }

    method ServeSelect(direction: int, selectors: seq<Selector>, ghost open: bool) returns (left: seq<Selector>)
      requires Valid()
      modifies this, pages, nodes
      ensures Valid() && pages == old(pages) && fresh(nodes - old(nodes))
      ensures old(Calmed(selectors, open)) && !open ==> Calmed(left, true)
    {
      left := selectors;
      if currentPage != null {
        var ok, selectorPane, previousFocus := OpenSelector(direction);
        if ok {
          left := left + [Selector(selectorPane, previousFocus)];
        }
        if old(FocusesShown()) {
          FocusesStay(currentPage);
        }
      }
    }

    method ServeUnselect(i: nat, selectors: seq<Selector>, ghost open: bool) returns (left: seq<Selector>)
      requires Valid()
      modifies this, pages, nodes
      ensures Valid() && pages == old(pages) && nodes == old(nodes)
      ensures old(Calmed(selectors, open)) ==> Calmed(left, false)
    {
      left := selectors;
      if |selectors| > 0 {
        var k := i % |selectors|;
        left := selectors[..k] + selectors[k + 1..];
        RemoveTransientPane(selectors[k].pane, selectors[k].previous);
        if old(Calmed(selectors, open)) {
          FocusesStay(currentPage);
        }
      }
    }

    method ServeEnd(page: Page, p: Pane, ghost selectors: seq<Selector>, ghost open: bool)
      requires Valid() && page in pages
      modifies this, pages, nodes
      ensures Valid() && pages == old(pages) && nodes == old(nodes)
      ensures old(Calmed(selectors, open)) && !open ==> Calmed(selectors, open)
    {
      RemovePane(page, p);
      if old(FocusesShown()) {
        FocusesStay(page);
      }
    }

    method ServeDrop(page: Page, fallback: Page, ghost selectors: seq<Selector>, ghost open: bool)
      requires Valid() && fallback in pages
      modifies this
      ensures Valid() && pages == old(pages) && nodes == old(nodes)
      ensures old(Calmed(selectors, open)) && !open ==> Calmed(selectors, open)
    {
      RemovePage(page, fallback);
      if old(FocusesShown()) {
        FocusesStay(null);
      }
    }

    method ServeSwitch(index: int, ghost selectors: seq<Selector>, ghost open: bool)
      requires Valid()
      modifies this
      ensures Valid() && pages == old(pages) && nodes == old(nodes)
      ensures old(Calmed(selectors, open)) && !open ==> Calmed(selectors, open)
    {
      SwitchPage(index);
      if old(FocusesShown()) {
        FocusesStay(null);
      }
    }

    method ServeCycle(ghost selectors: seq<Selector>, ghost open: bool)
      requires Valid()
      modifies this, pages
      ensures Valid() && pages == old(pages) && nodes == old(nodes)
      ensures old(Calmed(selectors, open)) ==> Calmed(selectors, open)
    {
      CyclePane();
      if old(FocusesShown()) {
        FocusesStay(currentPage);
      }
    }

    method ServeClick(hit: nat, ghost selectors: seq<Selector>, ghost open: bool)
      requires Valid()
      modifies this, pages
      ensures Valid() && pages == old(pages) && nodes == old(nodes)
      ensures old(Calmed(selectors, open)) ==> Calmed(selectors, open)
    {
      ClickPane(hit);
      if old(FocusesShown()) {
        FocusesStay(currentPage);
      }
    }
  }

  ghost predicate FocusShown(p: Page)
    reads p
  {
    p.panes != [] ==> p.focus in p.panes
  }

  // ---- A run that loses the focus ----

  method TwoPanes() returns (m: Manager)
    ensures fresh(m) && m.Valid() && fresh(m.pages) && fresh(m.nodes) && m.currentPage != null
    ensures |m.currentPage.panes| == 2 && m.currentPage.focus == m.currentPage.panes[0]
  {
    m := new Manager();
    m.CreatePage(["web", "db"]);
  }

  /** The focused pane of the current page ends while a selector is open. */
  method SelectThenEnd(m: Manager) returns (selectorPane: Pane, previousFocus: Pane)
    requires m.Valid() && m.currentPage != null
    requires |m.currentPage.panes| == 2 && m.currentPage.focus == m.currentPage.panes[0]
    modifies m, m.pages, m.nodes
    ensures m.Valid() && m.currentPage == old(m.currentPage)
    ensures fresh(m.pages - old(m.pages)) && fresh(m.nodes - old(m.nodes))
    ensures previousFocus !in m.currentPage.panes && Without(m.currentPage.panes, selectorPane) != []
  {
    ghost var panes := m.currentPage.panes;
    var ok;
    ok, selectorPane, previousFocus := m.OpenSelector(FLEX_COLUMN);
    TwoLeft(panes[0], panes[1], selectorPane);
    assert m.currentPage.panes == [panes[0], panes[1], selectorPane];
    m.RemovePane(m.currentPage, previousFocus);
  }

  lemma TwoLeft(a: Pane, b: Pane, s: Pane)
    requires a != b && b != s && a != s
    ensures Without([a, b, s], a) == [b, s] && Without([b, s], s) == [b]
  {
  }

  /** A manager whose only page has a pane, but whose focus is on a pane that has gone: cancelling the selector gave it
      back to the pane that had ended. */
  method LoseFocus() returns (m: Manager)
    ensures fresh(m) && m.Valid() && m.currentPage != null
    ensures m.currentPage.panes != [] && m.currentPage.focus !in m.currentPage.panes
  {
    m := TwoPanes();
    var selectorPane, previousFocus := SelectThenEnd(m);
    m.RemoveTransientPane(selectorPane, previousFocus);
  }

  // ---- Requests ----

  /** An open selector, with the focus to give back. */
  datatype Selector = Selector(pane: Pane, previous: Pane)

  function OpenNext(open: bool, request: Request): bool {
    request.Select? || (open && !request.Unselect?)
  }

  /** While a selector is open no page is made, dropped or changed to, no pane ends and no other selector opens. */
  predicate CalmNext(open: bool, request: Request) {
    open ==> request.Add? || request.Cycle? || request.Click? || request.Unselect?
  }

  function OpenAfter(requests: seq<Request>): bool {
    requests != [] && OpenNext(OpenAfter(requests[..|requests| - 1]), requests[|requests| - 1])
  }

  predicate Calm(requests: seq<Request>) {
    requests != [] ==>
      Calm(requests[..|requests| - 1]) && CalmNext(OpenAfter(requests[..|requests| - 1]), requests[|requests| - 1])
  }

  datatype Request =
    | Create(hosts: seq<string>)
    | Add(hosts: seq<string>, direction: int)
    | Select(direction: int)
    | Unselect(selector: nat)
    | End(page: nat, pane: nat)
    | Drop(page: nat, fallback: nat)
    | Switch(index: int)
    | Cycle
    | Click(hit: nat)
}
