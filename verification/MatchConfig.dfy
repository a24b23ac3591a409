/** Conditional server overrides: `internal/config/match.go` and `conf_struct_server.go`.  A server's settings are
    its struct fields in order, `tags` their TOML keys; whether a branch's conditions hold on this machine is a
    parameter. */
module MatchConfig {

  const DEFAULT_PRIORITY := 100

  datatype Value = Text(text: string) | Number(number: int) | Flag(on: bool) | Texts(texts: seq<string>)

  /** `conditions` are the when.* lists that are not empty; `networks` says that its addresses parse; `defined` are the
      keys written in the branch. */
  datatype Branch = Branch(priority: int, priorityDefined: bool, order: int, defined: set<string>, values: seq<Value>,
                              conditions: set<string>, networks: bool)
  {
    function EffectivePriority(): int {
      if priorityDefined then priority else DEFAULT_PRIORITY
    }

    predicate Valid() {
      conditions != {} && networks
    }
  }

  datatype Server = Server(values: seq<Value>, matches: map<string, Branch>)

  predicate Before(a: Branch, b: Branch) {
    if a.EffectivePriority() != b.EffectivePriority() then a.EffectivePriority() < b.EffectivePriority()
    else a.order < b.order
  }

  /** By priority, 100 if the branch gives none, then by order. */
  predicate RankAtLeast(a: Branch, b: Branch) {
    var p, q := if a.priorityDefined then a.priority else 100, if b.priorityDefined then b.priority else 100;
    p > q || (p == q && a.order >= b.order)
  }

  lemma BeforeIsLower(a: Branch, b: Branch)
    ensures Before(a, b) <==> !RankAtLeast(a, b)
  {
  }

  // ---- Sorting the branches ----

  predicate AreBranches(names: seq<string>, matches: map<string, Branch>) {
    forall k :: 0 <= k < |names| ==> names[k] in matches
  }

  ghost predicate Sorted(names: seq<string>, matches: map<string, Branch>)
    requires AreBranches(names, matches)
  {
    forall j, k :: 0 <= j < k < |names| ==> !Before(matches[names[k]], matches[names[j]])
  }

  /** One step of a stable sort: past the branches that sort strictly after it. */
  function Insert(names: seq<string>, name: string, matches: map<string, Branch>): (r: seq<string>)
    requires AreBranches(names, matches) && name in matches
    ensures AreBranches(r, matches) && multiset(r) == multiset(names) + multiset{name}
  {
    if names != [] && Before(matches[name], matches[names[|names| - 1]]) then
      assert names == names[..|names| - 1] + [names[|names| - 1]];
      Insert(names[..|names| - 1], name, matches) + [names[|names| - 1]]
    else names + [name]
  }

  function StableSort(names: seq<string>, matches: map<string, Branch>): (r: seq<string>)
    requires AreBranches(names, matches)
    ensures AreBranches(r, matches) && multiset(r) == multiset(names)
  {
    if names == [] then []
    else
      assert names == names[..|names| - 1] + [names[|names| - 1]];
      Insert(StableSort(names[..|names| - 1], matches), names[|names| - 1], matches)
  }

  lemma {:induction false} InsertSorted(names: seq<string>, name: string, matches: map<string, Branch>)
    requires AreBranches(names, matches) && name in matches && Sorted(names, matches)
    ensures Sorted(Insert(names, name, matches), matches)
  {
    if names != [] && Before(matches[name], matches[names[|names| - 1]]) {
      var init, last := names[..|names| - 1], names[|names| - 1];
      InsertSorted(init, name, matches);
      var r := Insert(init, name, matches);
      forall k | 0 <= k < |r| ensures !Before(matches[last], matches[r[k]]) {
        assert r[k] in multiset(r);
        assert r[k] == name || r[k] in init;
      }
      SortedAppend(r, last, matches);
    } else {
      forall k | 0 <= k < |names| ensures !Before(matches[name], matches[names[k]]) {
        assert k < |names| - 1 ==> !Before(matches[names[|names| - 1]], matches[names[k]]);
      }
      SortedAppend(names, name, matches);
    }
  }

  lemma SortedAppend(names: seq<string>, last: string, matches: map<string, Branch>)
    requires AreBranches(names, matches) && last in matches && Sorted(names, matches)
    requires forall k :: 0 <= k < |names| ==> !Before(matches[last], matches[names[k]])
    ensures AreBranches(names + [last], matches) && Sorted(names + [last], matches)
  {
    hide Before;
  }

  lemma {:induction false} StableSortSorts(names: seq<string>, matches: map<string, Branch>)
    requires AreBranches(names, matches)
    ensures Sorted(StableSort(names, matches), matches)
    ensures var r := StableSort(names, matches);
      forall j, k :: 0 <= j < k < |r| ==> RankAtLeast(matches[r[k]], matches[r[j]])
  {
    if names != [] {
      StableSortSorts(names[..|names| - 1], matches);
      InsertSorted(StableSort(names[..|names| - 1], matches), names[|names| - 1], matches);
    }
  }

  /** The order in which a Go map happens to list its keys. */
  ghost predicate IsListing(order: seq<string>, matches: map<string, Branch>) {
    && AreBranches(order, matches)
    && (forall n :: n in matches ==> n in order)
    && (forall j, k :: 0 <= j < k < |order| ==> order[j] != order[k])
  }

  method SortedMatches(matches: map<string, Branch>) returns (sorted: seq<string>)
    ensures exists order :: IsListing(order, matches) && sorted == StableSort(order, matches)
  {
    var listed: seq<string> := [];
    var remaining := matches.Keys;
    while remaining != {}
      invariant remaining <= matches.Keys && AreBranches(listed, matches)
      invariant forall n :: n in matches ==> (n in listed <==> n !in remaining)
      invariant forall j, k :: 0 <= j < k < |listed| ==> listed[j] != listed[k]
    {
      var name :| name in remaining;
      listed, remaining := listed + [name], remaining - {name};
    }
    sorted := StableSort(listed, matches);
  }

  // ---- Merging ----

  predicate Sets(branch: Branch, tag: string) {
    tag != "" && tag in branch.defined
  }

  function Merged(tags: seq<string>, base: seq<Value>, branch: Branch): seq<Value>
    requires |base| == |tags| == |branch.values|
  {
    seq(|tags|, i requires 0 <= i < |tags| => if Sets(branch, tags[i]) then branch.values[i] else base[i])
  }

  method MergeServerMatchConfig(tags: seq<string>, base: Server, branch: Branch) returns (result: Server)
    requires |base.values| == |tags| == |branch.values|
    ensures result.values == Merged(tags, base.values, branch)
  {
    result := base;
    for i := 0 to |tags|
      invariant |result.values| == |tags|
      invariant forall k :: 0 <= k < i ==> result.values[k] == Merged(tags, base.values, branch)[k]
      invariant forall k :: i <= k < |tags| ==> result.values[k] == base.values[k]
    {
      if tags[i] != "" && tags[i] in branch.defined {
        result := result.(values := result.values[i := branch.values[i]]);
      }
    }
    if "match" in branch.defined {
      result := result.(matches := map[]);
    }
  }

  predicate SameShape(tags: seq<string>, matches: map<string, Branch>) {
    forall n :: n in matches ==> |matches[n].values| == |tags|
  }

  function Overridden(tags: seq<string>, base: seq<Value>, names: seq<string>, matches: map<string, Branch>,
                         holds: Branch -> bool): (r: seq<Value>)
    requires |base| == |tags| && SameShape(tags, matches) && AreBranches(names, matches)
    ensures |r| == |tags|
  {
    if names == [] then base
    else
      var before := Overridden(tags, base, names[..|names| - 1], matches, holds);
      var last := matches[names[|names| - 1]];
      if holds(last) then Merged(tags, before, last) else before
  }

  lemma OverriddenStep(tags: seq<string>, base: seq<Value>, names: seq<string>, i: nat, matches: map<string, Branch>,
                       holds: Branch -> bool)
    requires |base| == |tags| && SameShape(tags, matches) && AreBranches(names, matches) && i < |names|
    ensures AreBranches(names[..i], matches) && AreBranches(names[..i + 1], matches)
    ensures var before := Overridden(tags, base, names[..i], matches, holds);
            Overridden(tags, base, names[..i + 1], matches, holds)
            == if holds(matches[names[i]]) then Merged(tags, before, matches[names[i]]) else before
  {
    assert names[..i + 1][..i] == names[..i];
  }

  /** What one server becomes when the map lists its branches in this order. */
  function ResolvedIn(tags: seq<string>, base: seq<Value>, order: seq<string>, matches: map<string, Branch>,
                         holds: Branch -> bool): (r: seq<Value>)
    requires |base| == |tags| && SameShape(tags, matches) && AreBranches(order, matches)
    ensures |r| == |tags|
  {
    Overridden(tags, base, StableSort(order, matches), matches, holds)
  }

  ghost predicate IsOutcome(tags: seq<string>, server: Server, merged: Server, order: seq<string>,
                            holds: Branch -> bool)
    requires |server.values| == |tags| && SameShape(tags, server.matches)
  {
    && IsListing(order, server.matches)
    && merged == Server(ResolvedIn(tags, server.values, order, server.matches, holds), server.matches)
  }

  /** The server as some iteration order of its branches resolves it. */
  ghost predicate ResolvedServer(tags: seq<string>, server: Server, merged: Server, holds: Branch -> bool)
    requires |server.values| == |tags| && SameShape(tags, server.matches)
  {
    exists order :: IsOutcome(tags, server, merged, order, holds)
  }

  method ResolveServer(tags: seq<string>, server: Server, holds: Branch -> bool)
      returns (merged: Server)
    requires |server.values| == |tags| && SameShape(tags, server.matches)
    ensures ResolvedServer(tags, server, merged, holds)
    ensures HighestWin(tags, server, merged, holds)
  {
    hide Overridden, StableSort;
    var sorted := SortedMatches(server.matches);
    ghost var order :| IsListing(order, server.matches) && sorted == StableSort(order, server.matches);
    merged := MergeHolding(tags, server, sorted, holds);
    merged := merged.(matches := server.matches);
    assert IsOutcome(tags, server, merged, order, holds);
    OutcomeHighestWin(tags, server, merged, holds);
  }

  /** The loop over the sorted branches. */
  method MergeHolding(tags: seq<string>, server: Server, sorted: seq<string>, holds: Branch -> bool)
      returns (merged: Server)
    requires |server.values| == |tags| && SameShape(tags, server.matches) && AreBranches(sorted, server.matches)
    ensures merged.values == Overridden(tags, server.values, sorted, server.matches, holds)
  {
    hide Merged;
    merged := server;
    for i := 0 to |sorted|
      invariant AreBranches(sorted[..i], server.matches)
      invariant merged.values == Overridden(tags, server.values, sorted[..i], server.matches, holds)
    {
      OverriddenStep(tags, server.values, sorted, i, server.matches, holds);
      var branch := server.matches[sorted[i]];
      if holds(branch) {
        merged := MergeServerMatchConfig(tags, merged, branch);
      }
    }
    assert sorted[..|sorted|] == sorted;
  }

  // ---- The whole configuration ----

  predicate ServerValid(server: Server) {
    forall n :: n in server.matches ==> server.matches[n].Valid()
  }

  /** validateMatchConfigs for one server: the conditions that its branches need looked up. */
  method ValidateBranches(server: Server) returns (ok: bool, needed: set<string>)
    ensures ok == ServerValid(server)
    ensures ok && needed == {} ==> server.matches == map[]
  {
    ok, needed := true, {};
    var remaining := server.matches.Keys;
    while remaining != {}
      invariant remaining <= server.matches.Keys
      invariant ok && forall n :: n in server.matches && n !in remaining ==> server.matches[n].Valid()
      invariant forall n :: n in server.matches && n !in remaining ==> server.matches[n].conditions <= needed
    {
      var name :| name in remaining;
      var branch := server.matches[name];
      if branch.conditions == {} || !branch.networks {
        return false, {};
      }
      needed, remaining := needed + branch.conditions, remaining - {name};
    }
    assert forall n :: n in server.matches ==> server.matches[n].conditions != {};
    assert needed == {} ==> server.matches.Keys == {};
  }

  method ValidateMatchConfigs(servers: map<string, Server>) returns (ok: bool, needed: set<string>)
    ensures ok <==> forall s :: s in servers ==> ServerValid(servers[s])
    ensures ok && needed == {} ==> forall s :: s in servers ==> servers[s].matches == map[]
  {
    ok, needed := true, {};
    var remaining := servers.Keys;
    while remaining != {}
      invariant remaining <= servers.Keys && ok
      invariant forall s :: s in servers && s !in remaining ==> ServerValid(servers[s])
      invariant needed == {} ==> forall s :: s in servers && s !in remaining ==> servers[s].matches == map[]
    {
      var name :| name in remaining;
      var valid, more := ValidateBranches(servers[name]);
      if !valid {
        return false, {};
      }
      needed, remaining := needed + more, remaining - {name};
    }
  }

  ghost predicate AllShaped(tags: seq<string>, servers: map<string, Server>) {
    forall s :: s in servers ==> |servers[s].values| == |tags| && SameShape(tags, servers[s].matches)
  }

  /** The servers in `done` are as they should be, the others as they were. */
  ghost predicate Done(servers: map<string, Server>, resolved: map<string, Server>, done: set<string>,
                       good: (Server, Server) -> bool) {
    && resolved.Keys == servers.Keys
    && (forall s :: s in servers && s in done ==> good(servers[s], resolved[s]))
    && (forall s :: s in servers && s !in done ==> resolved[s] == servers[s])
  }

  lemma OneMoreDone(servers: map<string, Server>, resolved: map<string, Server>, done: set<string>,
                    good: (Server, Server) -> bool, name: string, merged: Server)
    requires Done(servers, resolved, done, good) && name in servers && good(servers[name], merged)
    ensures Done(servers, resolved[name := merged], done + {name}, good)
  {
  }

  lemma NoneDone(servers: map<string, Server>, good: (Server, Server) -> bool)
    ensures Done(servers, servers, servers.Keys - servers.Keys, good)
  {
  }

  lemma DoneAsItIs(servers: map<string, Server>, resolved: map<string, Server>, done: set<string>,
                   good: (Server, Server) -> bool, name: string)
    requires Done(servers, resolved, done, good)
    requires name in servers && name !in done && good(servers[name], servers[name])
    ensures Done(servers, resolved, done + {name}, good)
  {
  }

  lemma IsTheOutcome(tags: seq<string>, server: Server, merged: Server, holds: Branch -> bool)
    requires |server.values| == |tags| && SameShape(tags, server.matches) && ResolvedServer(tags, server, merged, holds)
    ensures Outcome(tags, holds)(server, merged)
  {
  }

  ghost function Outcome(tags: seq<string>, holds: Branch -> bool): (Server, Server) -> bool {
    (server: Server, merged: Server) =>
      |server.values| == |tags| && SameShape(tags, server.matches) && ResolvedServer(tags, server, merged, holds)
  }

  /** An invalid branch anywhere leaves the whole configuration as it was. */
  method ResolveConditionalMatches(tags: seq<string>, servers: map<string, Server>, holds: Branch -> bool)
      returns (ok: bool, resolved: map<string, Server>)
    requires AllShaped(tags, servers)
    ensures ok <==> forall s :: s in servers ==> ServerValid(servers[s])
    ensures !ok ==> resolved == servers
    ensures ok <==> forall s, n :: s in servers && n in servers[s].matches ==>
      servers[s].matches[n].conditions != {} && servers[s].matches[n].networks
    ensures ok ==> Done(servers, resolved, servers.Keys, Outcome(tags, holds))
    ensures ok ==> resolved.Keys == servers.Keys
    ensures ok ==> forall s :: s in servers ==> HighestWin(tags, servers[s], resolved[s], holds)
  {
    var needed;
    ok, needed := ValidateMatchConfigs(servers);
    resolved := servers;
    if !ok {
      return;
    }
    if needed == {} {
      forall s | s in servers ensures Outcome(tags, holds)(servers[s], resolved[s]) {
        NothingToResolve(tags, servers[s], holds);
      }
      AllHighestWin(tags, servers, resolved, holds);
      return;
    }
    resolved := ResolveServers(tags, servers, holds);
    AllHighestWin(tags, servers, resolved, holds);
  }

  lemma AllHighestWin(tags: seq<string>, servers: map<string, Server>, resolved: map<string, Server>,
                      holds: Branch -> bool)
    requires Done(servers, resolved, servers.Keys, Outcome(tags, holds))
    ensures forall s :: s in servers ==> HighestWin(tags, servers[s], resolved[s], holds)
  {
    hide ResolvedServer, HighestWin;
    forall s | s in servers ensures HighestWin(tags, servers[s], resolved[s], holds) {
      assert Outcome(tags, holds)(servers[s], resolved[s]);
      OutcomeHighestWin(tags, servers[s], resolved[s], holds);
    }
  }

  method ResolveServers(tags: seq<string>, servers: map<string, Server>, holds: Branch -> bool)
      returns (resolved: map<string, Server>)
    requires AllShaped(tags, servers)
    ensures Done(servers, resolved, servers.Keys, Outcome(tags, holds))
  {
    hide Done, Outcome, ResolvedServer;
    resolved := servers;
    var remaining := servers.Keys;
    NoneDone(servers, Outcome(tags, holds));
    while remaining != {}
      invariant remaining <= servers.Keys && Done(servers, resolved, servers.Keys - remaining, Outcome(tags, holds))
    {
      var name :| name in remaining;
      ghost var done := servers.Keys - remaining;
      remaining := remaining - {name};
      assert servers.Keys - remaining == done + {name};
      if servers[name].matches.Keys == {} {
        NothingToResolve(tags, servers[name], holds);
        IsTheOutcome(tags, servers[name], servers[name], holds);
        DoneAsItIs(servers, resolved, done, Outcome(tags, holds), name);
        continue;
      }
      var merged := ResolveServer(tags, servers[name], holds);
      IsTheOutcome(tags, servers[name], merged, holds);
      OneMoreDone(servers, resolved, done, Outcome(tags, holds), name, merged);
      resolved := resolved[name := merged];
    }
    assert servers.Keys - remaining == servers.Keys;
  }

  lemma NothingToResolve(tags: seq<string>, server: Server, holds: Branch -> bool)
    requires |server.values| == |tags| && SameShape(tags, server.matches) && server.matches.Keys == {}
    ensures ResolvedServer(tags, server, server, holds)
  {
    assert IsListing([], server.matches);
    assert ResolvedIn(tags, server.values, [], server.matches, holds) == server.values;
    assert IsOutcome(tags, server, server, [], holds);
  }

  // ---- Which branch decides a field ----

  ghost predicate Overrides(name: string, i: nat, tags: seq<string>, matches: map<string, Branch>,
                            holds: Branch -> bool) {
    i < |tags| && name in matches && holds(matches[name]) && Sets(matches[name], tags[i])
  }

  /** No branch overriding the field sorts strictly after this one. */
  ghost predicate IsTop(name: string, i: nat, tags: seq<string>, matches: map<string, Branch>, holds: Branch -> bool) {
    && Overrides(name, i, tags, matches, holds)
    && (forall other :: Overrides(other, i, tags, matches, holds) ==> !Before(matches[name], matches[other]))
  }

  lemma {:induction false} LastOverrideWins(tags: seq<string>, base: seq<Value>, names: seq<string>,
                                            matches: map<string, Branch>, holds: Branch -> bool, i: nat)
      returns (k: int)
    requires |base| == |tags| && SameShape(tags, matches) && AreBranches(names, matches) && i < |tags|
    ensures -1 <= k < |names|
    ensures forall j :: k < j < |names| ==> !Overrides(names[j], i, tags, matches, holds)
    ensures k >= 0 ==> Overrides(names[k], i, tags, matches, holds)
    ensures Overridden(tags, base, names, matches, holds)[i] == if k < 0 then base[i] else matches[names[k]].values[i]
  {
    if names == [] {
      k := -1;
    } else if Overrides(names[|names| - 1], i, tags, matches, holds) {
      k := |names| - 1;
    } else {
      k := LastOverrideWins(tags, base, names[..|names| - 1], matches, holds, i);
    }
  }

  /** Whatever the order of the map, each field is the value of a topmost overriding branch, or the base value. */
  lemma TopDecides(tags: seq<string>, base: seq<Value>, order: seq<string>, matches: map<string, Branch>,
                      holds: Branch -> bool, i: nat) returns (top: string)
    requires |base| == |tags| && SameShape(tags, matches) && IsListing(order, matches) && i < |tags|
    ensures (forall n :: !Overrides(n, i, tags, matches, holds)) ==>
              ResolvedIn(tags, base, order, matches, holds)[i] == base[i]
    ensures (exists n :: Overrides(n, i, tags, matches, holds)) ==>
              IsTop(top, i, tags, matches, holds)
                && ResolvedIn(tags, base, order, matches, holds)[i] == matches[top].values[i]
  {
    hide StableSort, Overridden;
    var sorted := StableSort(order, matches);
    StableSortSorts(order, matches);
    var k := LastOverrideWins(tags, base, sorted, matches, holds, i);
    top := if k < 0 then "" else sorted[k];
    forall n | Overrides(n, i, tags, matches, holds) ensures k >= 0 && !Before(matches[top], matches[n]) {
      assert n in multiset(order) && n in multiset(sorted);
      var j :| 0 <= j < |sorted| && sorted[j] == n;
    }
  }

  /** The branch holds and gives the field a value. */
  predicate Gives(branch: Branch, tags: seq<string>, i: nat, holds: Branch -> bool) {
    i < |tags| && holds(branch) && tags[i] != "" && tags[i] in branch.defined
  }

  /** The field's value comes from a branch of the highest rank among those that give it one, or stays the server's
      own. */
  ghost predicate HighestDecides(tags: seq<string>, server: Server, i: nat, v: Value, holds: Branch -> bool)
    requires i < |tags| == |server.values| && SameShape(tags, server.matches)
  {
    if exists n :: n in server.matches && Gives(server.matches[n], tags, i, holds) then
      exists n :: n in server.matches && IsHighest(tags, server.matches, i, n, holds)
                  && v == server.matches[n].values[i]
    else v == server.values[i]
  }

  ghost predicate IsHighest(tags: seq<string>, matches: map<string, Branch>, i: nat, n: string, holds: Branch -> bool) {
    && n in matches && Gives(matches[n], tags, i, holds)
    && forall m :: m in matches && Gives(matches[m], tags, i, holds) ==> RankAtLeast(matches[n], matches[m])
  }

  ghost predicate HighestWin(tags: seq<string>, server: Server, merged: Server, holds: Branch -> bool) {
    && |server.values| == |merged.values| == |tags| && SameShape(tags, server.matches)
    && merged.matches == server.matches
    && forall i :: 0 <= i < |tags| ==> HighestDecides(tags, server, i, merged.values[i], holds)
  }

  lemma OutcomeHighestWin(tags: seq<string>, server: Server, merged: Server, holds: Branch -> bool)
    requires |server.values| == |tags| && SameShape(tags, server.matches) && ResolvedServer(tags, server, merged, holds)
    ensures HighestWin(tags, server, merged, holds)
  {
    var order :| IsOutcome(tags, server, merged, order, holds);
    forall i | 0 <= i < |tags| ensures HighestDecides(tags, server, i, merged.values[i], holds) {
      var top := TopDecides(tags, server.values, order, server.matches, holds, i);
      forall n ensures Overrides(n, i, tags, server.matches, holds)
                  <==> n in server.matches && Gives(server.matches[n], tags, i, holds) {
      }
      if Overrides(top, i, tags, server.matches, holds) {
        TopIsHighest(tags, server.matches, i, top, holds);
      }
    }
  }

  lemma TopIsHighest(tags: seq<string>, matches: map<string, Branch>, i: nat, n: string, holds: Branch -> bool)
    ensures IsTop(n, i, tags, matches, holds) <==> IsHighest(tags, matches, i, n, holds)
  {
    forall m | m in matches && n in matches
      ensures Before(matches[n], matches[m]) <==> !RankAtLeast(matches[n], matches[m])
    {
      BeforeIsLower(matches[n], matches[m]);
    }
    assert forall m :: Overrides(m, i, tags, matches, holds) <==> m in matches && Gives(matches[m], tags, i, holds);
  }

  /** With no other branch of the same rank, the highest one decides the field. */
  lemma TheHighestWins(tags: seq<string>, server: Server, merged: Server, holds: Branch -> bool, i: nat, n: string)
    requires HighestWin(tags, server, merged, holds) && i < |tags|
    requires n in server.matches && Gives(server.matches[n], tags, i, holds)
    requires forall m :: m in server.matches && m != n && Gives(server.matches[m], tags, i, holds) ==>
      !RankAtLeast(server.matches[m], server.matches[n])
    ensures merged.values[i] == server.matches[n].values[i]
  {
    assert HighestDecides(tags, server, i, merged.values[i], holds);
  }

  lemma {:induction false} InsertPastEquals(names: seq<string>, name: string, matches: map<string, Branch>)
      returns (at: nat)
    requires AreBranches(names, matches) && name in matches
    ensures at <= |names| && Insert(names, name, matches) == names[..at] + [name] + names[at..]
    ensures forall k :: at <= k < |names| && Sorted(names, matches) ==> Before(matches[name], matches[names[k]])
  {
    hide Sorted, Before;
    if names != [] && Before(matches[name], matches[names[|names| - 1]]) {
      var init, last := names[..|names| - 1], names[|names| - 1];
      at := InsertPastEquals(init, name, matches);
      assert names == init + [last];
      InsertedBefore(init, last, name, at);
      SortedPrefix(names, matches);
    } else {
      at := |names|;
    }
  }

  lemma SortedPrefix(names: seq<string>, matches: map<string, Branch>)
    requires AreBranches(names, matches) && names != []
    ensures Sorted(names, matches) ==> Sorted(names[..|names| - 1], matches)
  {
  }

  lemma InsertedBefore(init: seq<string>, last: string, name: string, at: nat)
    requires at <= |init|
    ensures init[..at] + [name] + init[at..] + [last] == (init + [last])[..at] + [name] + (init + [last])[at..]
  {
  }

  lemma ListedLastSortsLast(before: seq<string>, name: string, matches: map<string, Branch>) returns (at: nat)
    requires AreBranches(before + [name], matches)
    ensures at < |StableSort(before + [name], matches)| && StableSort(before + [name], matches)[at] == name
    ensures forall k :: at < k < |StableSort(before + [name], matches)| ==>
              Before(matches[name], matches[StableSort(before + [name], matches)[k]])
  {
    hide Before, Sorted, Insert;
    var order := before + [name];
    assert order[..|before|] == before && order[|before|] == name;
    assert AreBranches(before, matches) by {
      forall k | 0 <= k < |before| ensures before[k] in matches {
        assert order[k] in matches;
      }
    }
    var sorted := StableSort(before, matches);
    StableSortSorts(before, matches);
    at := InsertPastEquals(sorted, name, matches);
    assert StableSort(order, matches) == sorted[..at] + [name] + sorted[at..];
  }

  /** A topmost branch that the map lists last decides the field. */
  lemma ListedLastDecides(tags: seq<string>, base: seq<Value>, before: seq<string>, name: string,
                          matches: map<string, Branch>, holds: Branch -> bool, i: nat)
    requires |base| == |tags| && SameShape(tags, matches) && AreBranches(before + [name], matches)
    requires IsTop(name, i, tags, matches, holds)
    ensures ResolvedIn(tags, base, before + [name], matches, holds)[i] == matches[name].values[i]
  {
    var at := ListedLastSortsLast(before, name, matches);
    TopOfAllDecides(tags, base, StableSort(before + [name], matches), at, matches, holds, i);
  }

  lemma TopOfAllDecides(tags: seq<string>, base: seq<Value>, names: seq<string>, at: nat, matches: map<string, Branch>,
                        holds: Branch -> bool, i: nat)
    requires |base| == |tags| && SameShape(tags, matches) && AreBranches(names, matches) && at < |names|
    requires IsTop(names[at], i, tags, matches, holds)
    requires forall k :: at < k < |names| ==> Before(matches[names[at]], matches[names[k]])
    ensures Overridden(tags, base, names, matches, holds)[i] == matches[names[at]].values[i]
  {
    var k := LastOverrideWins(tags, base, names, matches, holds, i);
    assert forall j :: at < j < |names| ==> !Overrides(names[j], i, tags, matches, holds);
  }

  lemma SomeListing(matches: map<string, Branch>) returns (order: seq<string>)
    ensures IsListing(order, matches)
  {
    order := [];
    var remaining := matches.Keys;
    while remaining != {}
      invariant remaining <= matches.Keys && AreBranches(order, matches)
      invariant forall n :: n in matches ==> (n in order <==> n !in remaining)
      invariant forall j, k :: 0 <= j < k < |order| ==> order[j] != order[k]
    {
      var name :| name in remaining;
      order, remaining := order + [name], remaining - {name};
    }
  }

  lemma ListingEndingIn(name: string, matches: map<string, Branch>) returns (before: seq<string>)
    requires name in matches
    ensures IsListing(before + [name], matches)
  {
    before := SomeListing(matches - {name});
    assert forall n :: n in matches && n != name ==> n in before;
  }

  /** The topmost overriding branches of every field give it the same value. */
  ghost predicate TopsAgree(tags: seq<string>, matches: map<string, Branch>, holds: Branch -> bool)
    requires SameShape(tags, matches)
  {
    forall i: nat, m, n :: IsTop(m, i, tags, matches, holds) && IsTop(n, i, tags, matches, holds) ==>
      matches[m].values[i] == matches[n].values[i]
  }

  ghost predicate SameForEveryOrder(tags: seq<string>, base: seq<Value>, matches: map<string, Branch>,
                                    holds: Branch -> bool)
    requires |base| == |tags| && SameShape(tags, matches)
  {
    forall o, p :: IsListing(o, matches) && IsListing(p, matches) ==>
      ResolvedIn(tags, base, o, matches, holds) == ResolvedIn(tags, base, p, matches, holds)
  }

  /** The outcome depends on the iteration order of the map exactly when two topmost branches disagree. */
  lemma OrderMattersIffTopsDisagree(tags: seq<string>, base: seq<Value>, matches: map<string, Branch>,
                                    holds: Branch -> bool)
    requires |base| == |tags| && SameShape(tags, matches)
    ensures SameForEveryOrder(tags, base, matches, holds) <==> TopsAgree(tags, matches, holds)
  {
    if TopsAgree(tags, matches, holds) {
      forall o, p | IsListing(o, matches) && IsListing(p, matches)
        ensures ResolvedIn(tags, base, o, matches, holds) == ResolvedIn(tags, base, p, matches, holds)
      {
        AgreedOutcome(tags, base, o, p, matches, holds);
      }
    }
    if SameForEveryOrder(tags, base, matches, holds) {
      forall i: nat, m, n | IsTop(m, i, tags, matches, holds) && IsTop(n, i, tags, matches, holds)
        ensures matches[m].values[i] == matches[n].values[i]
      {
        EachTopCanWin(tags, base, matches, holds, i, m, n);
      }
    }
  }

  lemma AgreedOutcome(tags: seq<string>, base: seq<Value>, o: seq<string>, p: seq<string>, matches: map<string, Branch>,
                      holds: Branch -> bool)
    requires |base| == |tags| && SameShape(tags, matches) && TopsAgree(tags, matches, holds)
    requires IsListing(o, matches) && IsListing(p, matches)
    ensures ResolvedIn(tags, base, o, matches, holds) == ResolvedIn(tags, base, p, matches, holds)
  {
    forall i | 0 <= i < |tags|
      ensures ResolvedIn(tags, base, o, matches, holds)[i] == ResolvedIn(tags, base, p, matches, holds)[i]
    {
      var m := TopDecides(tags, base, o, matches, holds, i);
      var n := TopDecides(tags, base, p, matches, holds, i);
    }
  }

  lemma EachTopCanWin(tags: seq<string>, base: seq<Value>, matches: map<string, Branch>, holds: Branch -> bool,
                         i: nat, m: string, n: string)
    requires |base| == |tags| && SameShape(tags, matches) && SameForEveryOrder(tags, base, matches, holds)
    requires IsTop(m, i, tags, matches, holds) && IsTop(n, i, tags, matches, holds)
    ensures matches[m].values[i] == matches[n].values[i]
  {
    var mBefore := ListingEndingIn(m, matches);
    var nBefore := ListingEndingIn(n, matches);
    ListedLastDecides(tags, base, mBefore, m, matches, holds, i);
    ListedLastDecides(tags, base, nBefore, n, matches, holds, i);
    assert ResolvedIn(tags, base, mBefore + [m], matches, holds)
      == ResolvedIn(tags, base, nBefore + [n], matches, holds);
  }

  /** In particular distinct (priority, order) pairs settle everything: the topmost branch of a field is unique. */
  lemma DistinctRanksAgree(tags: seq<string>, base: seq<Value>, matches: map<string, Branch>, holds: Branch -> bool)
    requires |base| == |tags| && SameShape(tags, matches)
    requires forall m, n :: m in matches && n in matches && m != n ==>
               !(RankAtLeast(matches[m], matches[n]) && RankAtLeast(matches[n], matches[m]))
    ensures SameForEveryOrder(tags, base, matches, holds)
  {
    OrderMattersIffTopsDisagree(tags, base, matches, holds);
    forall i: nat, m, n | IsTop(m, i, tags, matches, holds) && IsTop(n, i, tags, matches, holds)
      ensures matches[m].values[i] == matches[n].values[i]
    {
      assert !Before(matches[m], matches[n]) && !Before(matches[n], matches[m]);
    }
  }
}
