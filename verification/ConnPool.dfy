/** The connection pool of the pipe daemon, `internal/lspipe/daemon.go`.  Every critical section is one atomic step;
    looking a connection up, checking it, dialling and using it are steps of their own, in any interleaving.  Before it
    serves requests the daemon dials its hosts one after the other, without looking them up. */
module ConnPool {
  type Conn = nat

  datatype Health = Up | Down(error: string)

  // ---- The critical sections ----

  datatype Pool = Pool(conns: map<string, Conn>, health: map<string, Health>, closed: set<Conn>)

  function Adopt(p: Pool, host: string, conn: Conn): Pool {
    p.(conns := p.conns[host := conn], health := p.health[host := Up])
  }

  function Report(p: Pool, host: string, health: Health): Pool {
    var p' := p.(health := p.health[host := health]);
    if health.Down? && host in p.conns then p'.(conns := p.conns - {host}, closed := p.closed + {p.conns[host]}) else p'
  }

  function CloseAll(p: Pool): Pool {
    p.(conns := map[], closed := p.closed + p.conns.Values)
  }

  class Daemon {
    var conns: map<string, Conn>
    var health: map<string, Health>
    ghost var closed: set<Conn>

    ghost function State(): Pool
      reads this
    {
      Pool(conns, health, closed)
    }

    constructor ()
      ensures State() == Pool(map[], map[], {})
    {
      conns, health, closed := map[], map[], {};
    }

    /** The end of connect, once the dial has succeeded. */
    method Connected(host: string, conn: Conn)
      modifies this
      ensures State() == Adopt(old(State()), host, conn)
    {
      conns := conns[host := conn];
      health := health[host := Up];
    }

    method SetHealth(host: string, now: Health)
      modifies this
      ensures State() == Report(old(State()), host, now)
    {
      health := health[host := now];
      if now != Up {
        if host in conns {
          closed := closed + {conns[host]};
          conns := conns - {host};
        }
      }
    }

    method Close()
      modifies this
      ensures State() == CloseAll(old(State()))
    {
      ghost var before := conns;
      while conns.Keys != {}
        invariant conns.Keys <= before.Keys && forall h :: h in conns ==> conns[h] == before[h]
        invariant health == old(health)
        invariant closed == old(closed) + set h | h in before && h !in conns :: before[h]
        decreases conns.Keys
      {
        var host :| host in conns;
        ghost var left := conns;
        closed := closed + {conns[host]};
        conns := conns - {host};
        assert (set h | h in before && h !in conns :: before[h])
          == (set h | h in before && h !in left :: before[h]) + {before[host]};
      }
      assert (set h | h in before && h !in conns :: before[h]) == before.Values;
    }
  }

  // ---- All requests together ----

  /** A request on its way through getOrReconnect and connect, and then running its command. */
  datatype Phase =
    | Checking(host: string, conn: Conn)   // found in the pool, not yet known to be alive
    | Dialing(host: string)
    | Dialled(host: string, conn: Conn)    // the dial has succeeded, the pool does not know yet
    | Using(host: string, conn: Conn)

  /** `owner` is the host every connection was dialled for; `displaced` are those whose place in the pool was given to
      another one. */
  datatype System = System(pool: Pool, requests: map<nat, Phase>, owner: map<Conn, string>, displaced: set<Conn>,
                           serving: bool)

  datatype Event =
    | Boot(host: string, conn: Conn)           // connectAll: a dial at startup has succeeded
    | BootFailed(host: string, error: string)
    | Serve                                    // from now on requests are accepted
    | Start(r: nat, host: string)              // the lookup under the read lock
    | Checked(r: nat, alive: bool)             // a dead connection is closed; it stays in the pool for now
    | DialSucceeded(r: nat, conn: Conn)
    | DialFailed(r: nat, error: string)
    | Pooled(r: nat)
    | Finished(r: nat, result: Health)         // the command is over, its outcome recorded
    | Recorded(host: string, result: Health)   // setHealth for a host that is reached without a connection of the pool
    | Shut

  const NOTHING := Pool(map[], map[], {})
  const INITIAL := System(NOTHING, map[], map[], {}, false)

  /** The host's place in the pool goes to this connection. */
  function Placed(s: System, host: string, conn: Conn): System {
    s.(pool := Adopt(s.pool, host, conn),
       displaced := s.displaced + if host in s.pool.conns then {s.pool.conns[host]} else {})
  }

  /** Events that cannot happen in a state leave it as it is, so every list of events is a run. */
  function Step(s: System, e: Event): System {
    match e
    case Boot(host, conn) =>
      if s.serving || conn in s.owner then s else Placed(s.(owner := s.owner[conn := host]), host, conn)
    case BootFailed(host, error) =>
      if s.serving then s else s.(pool := Report(s.pool, host, Down(error)))
    case Serve =>
      s.(serving := true)
    case Start(r, host) =>
      if !s.serving || r in s.requests then s
      else
        var phase := if host in s.pool.conns then Checking(host, s.pool.conns[host]) else Dialing(host);
        s.(requests := s.requests[r := phase])
    case Checked(r, alive) =>
      if r !in s.requests || !s.requests[r].Checking? then s
      else
        var at := s.requests[r];
        if alive && at.conn !in s.pool.closed then s.(requests := s.requests[r := Using(at.host, at.conn)])
        else
          s.(requests := s.requests[r := Dialing(at.host)], pool := s.pool.(closed := s.pool.closed + {at.conn}))
    case DialSucceeded(r, conn) =>
      if r !in s.requests || !s.requests[r].Dialing? || conn in s.owner then s
      else
        var host := s.requests[r].host;
        s.(requests := s.requests[r := Dialled(host, conn)], owner := s.owner[conn := host])
    case DialFailed(r, error) =>
      if r !in s.requests || !s.requests[r].Dialing? then s
      else s.(requests := s.requests - {r}, pool := Report(s.pool, s.requests[r].host, Down(error)))
    case Pooled(r) =>
      if r !in s.requests || !s.requests[r].Dialled? then s
      else
        var host, conn := s.requests[r].host, s.requests[r].conn;
        Placed(s.(requests := s.requests[r := Using(host, conn)]), host, conn)
    case Finished(r, result) =>
      if r !in s.requests || !s.requests[r].Using? then s
      else s.(requests := s.requests - {r}, pool := Report(s.pool, s.requests[r].host, result))
    case Recorded(host, result) =>
      s.(pool := Report(s.pool, host, result))
    case Shut =>
      s.(pool := CloseAll(s.pool))
  }

  function RunFrom(s: System, events: seq<Event>): System {
    if events == [] then s else Step(RunFrom(s, events[..|events| - 1]), events[|events| - 1])
  }

  function Run(events: seq<Event>): System {
    RunFrom(INITIAL, events)
  }

  lemma {:induction false} RunOn(s: System, events: seq<Event>, more: seq<Event>)
    ensures RunFrom(s, events + more) == RunFrom(RunFrom(s, events), more)
  {
    if more == [] {
      assert events + more == events;
    } else {
      RunOn(s, events, more[..|more| - 1]);
      assert (events + more)[..|events + more| - 1] == events + more[..|more| - 1];
    }
  }

  // ---- What holds after every run ----

  ghost predicate HealthAgrees(p: Pool) {
    forall h :: h in p.conns ==> h in p.health && p.health[h] == Up
  }

  /** A connection on its way into the pool, which only its own request knows. */
  ghost predicate Pending(s: System, c: Conn) {
    exists r :: r in s.requests && s.requests[r].Dialled? && s.requests[r].conn == c
  }

  ghost predicate InPool(s: System, c: Conn) {
    c in s.owner && s.owner[c] in s.pool.conns && s.pool.conns[s.owner[c]] == c
  }

  ghost predicate PhaseOwns(s: System, phase: Phase) {
    !phase.Dialing? ==> phase.conn in s.owner && s.owner[phase.conn] == phase.host
  }

  /** Connections on their way belong to one request and are in nobody else's hands. */
  ghost predicate PendingApart(s: System) {
    && (forall r, q ::
          r in s.requests && q in s.requests && r != q && s.requests[r].Dialled? && !s.requests[q].Dialing? ==>
          s.requests[r].conn != s.requests[q].conn)
    && (forall r :: r in s.requests && s.requests[r].Dialled? ==> Unshared(s, s.requests[r].conn))
  }

  ghost predicate Unshared(s: System, c: Conn) {
    !InPool(s, c) && c !in s.pool.closed && c !in s.displaced
  }

  ghost predicate SomewhereOf(s: System, c: Conn) {
    InPool(s, c) || Pending(s, c) || c in s.pool.closed || c in s.displaced
  }

  ghost predicate Inv(s: System) {
    && HealthAgrees(s.pool)
    && (forall h :: h in s.pool.conns ==> InPool(s, s.pool.conns[h]) && s.owner[s.pool.conns[h]] == h)
    && (forall r :: r in s.requests ==> PhaseOwns(s, s.requests[r]))
    && PendingApart(s)
    && (forall c :: c in s.displaced ==> c in s.owner && !InPool(s, c))
    && s.pool.closed <= s.owner.Keys
    && (!s.serving ==> s.requests == map[])
  }

  lemma StepKeepsInv(s: System, e: Event)
    requires Inv(s)
    ensures Inv(Step(s, e))
  {
    hide Inv, Step;
    match e
    case Boot(_, _) => BootingKeepsInv(s, e);
    case Serve => BootingKeepsInv(s, e);
    case Start(_, _) => LookingKeepsInv(s, e);
    case Checked(_, _) => LookingKeepsInv(s, e);
    case DialSucceeded(_, _) => DiallingKeepsInv(s, e);
    case Pooled(_) => PoolingKeepsInv(s, e);
    case Shut => ShuttingKeepsInv(s);
    case _ => ReportingKeepsInv(s, e);
  }

  lemma BootingKeepsInv(s: System, e: Event)
    requires Inv(s) && (e.Boot? || e.Serve?)
    ensures Inv(Step(s, e))
  {
  }

  lemma LookingKeepsInv(s: System, e: Event)
    requires Inv(s) && (e.Start? || e.Checked?)
    ensures Inv(Step(s, e))
  {
  }

  lemma DiallingKeepsInv(s: System, e: Event)
    requires Inv(s) && e.DialSucceeded?
    ensures Inv(Step(s, e))
  {
  }

  lemma PoolingKeepsInv(s: System, e: Event)
    requires Inv(s) && e.Pooled?
    ensures Inv(Step(s, e))
  {
  }

  lemma ShuttingKeepsInv(s: System)
    requires Inv(s)
    ensures Inv(Step(s, Shut))
  {
  }

  lemma ReportingKeepsInv(s: System, e: Event)
    requires Inv(s) && (e.BootFailed? || e.DialFailed? || e.Finished? || e.Recorded?)
    ensures Inv(Step(s, e))
  {
    hide Inv, Report;
    match e
    case BootFailed(host, error) => ReportKeepsInv(s, host, Down(error));
    case Recorded(host, result) => ReportKeepsInv(s, host, result);
    case DialFailed(r, error) =>
      if r in s.requests && s.requests[r].Dialing? {
        OverKeepsInv(s, r);
        ReportKeepsInv(s.(requests := s.requests - {r}), s.requests[r].host, Down(error));
      }
    case Finished(r, result) =>
      if r in s.requests && s.requests[r].Using? {
        OverKeepsInv(s, r);
        ReportKeepsInv(s.(requests := s.requests - {r}), s.requests[r].host, result);
      }
  }

  lemma ReportKeepsInv(s: System, host: string, health: Health)
    requires Inv(s)
    ensures Inv(s.(pool := Report(s.pool, host, health)))
  {
  }

  lemma OverKeepsInv(s: System, r: nat)
    requires Inv(s)
    ensures Inv(s.(requests := s.requests - {r}))
  {
  }

  lemma {:induction false} RunKeepsInv(events: seq<Event>)
    ensures Inv(Run(events))
  {
    if events != [] {
      RunKeepsInv(events[..|events| - 1]);
      StepKeepsInv(Run(events[..|events| - 1]), events[|events| - 1]);
    }
  }

  /** In every interleaving a host with a pooled connection is recorded as connected, so one recorded as disconnected
      has none. */
  lemma {:induction false} PooledIsConnected(events: seq<Event>, host: string)
    requires host in Run(events).pool.conns
    ensures host in Run(events).pool.health && Run(events).pool.health[host] == Up
  {
    RunKeepsInv(events);
  }

  /** No request ever runs its command over another host's connection, and no two hosts share one. */
  lemma EachHostItsOwn(events: seq<Event>)
    ensures var s := Run(events);
      && (forall r :: r in s.requests && s.requests[r].Using? ==>
            s.requests[r].conn in s.owner && s.owner[s.requests[r].conn] == s.requests[r].host)
      && (forall h :: h in s.pool.conns ==> s.pool.conns[h] in s.owner && s.owner[s.pool.conns[h]] == h)
  {
    RunKeepsInv(events);
    var s := Run(events);
    forall r | r in s.requests && s.requests[r].Using?
      ensures s.requests[r].conn in s.owner && s.owner[s.requests[r].conn] == s.requests[r].host
    {
      assert PhaseOwns(s, s.requests[r]);
    }
  }

  // ---- What a request does ----

  /** A request for a host with an open connection that is found alive uses that one: nothing is dialled. */
  lemma ReusesOpen(events: seq<Event>, r: nat, host: string)
    requires Run(events).serving && r !in Run(events).requests && host in Run(events).pool.conns
    requires Run(events).pool.conns[host] !in Run(events).pool.closed
    ensures var s, s' := Run(events), Run(events + [Start(r, host), Checked(r, true)]);
      s' == s.(requests := s.requests[r := Using(host, s.pool.conns[host])])
  {
    RunTwo(INITIAL, events, Start(r, host), Checked(r, true));
    var s := Run(events);
    var found, inUse := Checking(host, s.pool.conns[host]), Using(host, s.pool.conns[host]);
    assert s.requests[r := found][r := inUse] == s.requests[r := inUse];
  }

  /** A connection found dead is closed and replaced by a new one. */
  lemma ReplacesDead(events: seq<Event>, r: nat, host: string, conn: Conn)
    requires Run(events).serving && r !in Run(events).requests && host in Run(events).pool.conns
    requires conn !in Run(events).owner
    ensures var s := Run(events);
      var s' := Run(events + [Start(r, host), Checked(r, false)] + [DialSucceeded(r, conn), Pooled(r)]);
      && r in s'.requests && s'.requests[r] == Using(host, conn) && s.pool.conns[host] in s'.pool.closed
      && s'.pool.conns == s.pool.conns[host := conn] && conn !in s'.pool.closed
  {
    RunKeepsInv(events);
    RunTwo(INITIAL, events, Start(r, host), Checked(r, false));
    RunTwo(INITIAL, events + [Start(r, host), Checked(r, false)], DialSucceeded(r, conn), Pooled(r));
  }

  /** A command that loses its connection takes the host's connection out of the pool. */
  lemma FailureTakesOut(events: seq<Event>, r: nat, error: string)
    requires r in Run(events).requests && Run(events).requests[r].Using?
    ensures var s, host := Run(events), Run(events).requests[r].host;
      var s' := Run(events + [Finished(r, Down(error))]);
      && r !in s'.requests && host !in s'.pool.conns && host in s'.pool.health && s'.pool.health[host] == Down(error)
      && (host in s.pool.conns ==> s.pool.conns[host] in s'.pool.closed)
  {
    RunOne(INITIAL, events, Finished(r, Down(error)));
  }

  // ---- What becomes of a connection ----

  lemma StaysSomewhere(s: System, e: Event, c: Conn)
    requires Inv(s) && c in Step(s, e).owner
    requires c in s.owner ==> SomewhereOf(s, c)
    ensures SomewhereOf(Step(s, e), c)
  {
    if c !in s.owner {
      NewIsSomewhere(s, e, c);
    } else if InPool(s, c) {
      PooledStaysSomewhere(s, e, c);
    } else if Pending(s, c) {
      PendingStaysSomewhere(s, e, c);
    } else {
      NoneComesBack(s, e, c);
    }
  }

  lemma NewIsSomewhere(s: System, e: Event, c: Conn)
    requires Inv(s) && c in Step(s, e).owner && c !in s.owner
    ensures SomewhereOf(Step(s, e), c)
  {
    assert e.DialSucceeded? ==> Step(s, e).requests[e.r] == Dialled(s.requests[e.r].host, c);
  }

  lemma PooledStaysSomewhere(s: System, e: Event, c: Conn)
    requires InPool(s, c)
    ensures SomewhereOf(Step(s, e), c)
  {
    assert s.pool.conns[s.owner[c]] in s.pool.conns.Values;
  }

  lemma PendingStaysSomewhere(s: System, e: Event, c: Conn)
    requires Inv(s) && Pending(s, c)
    ensures SomewhereOf(Step(s, e), c)
  {
    hide HealthAgrees, PendingApart;
    var s' := Step(s, e);
    var r :| r in s.requests && s.requests[r].Dialled? && s.requests[r].conn == c;
    assert PhaseOwns(s, s.requests[r]);
    assert !(e.Pooled? && e.r == r) ==> r in s'.requests && s'.requests[r] == s.requests[r];
  }

  lemma NoneComesBack(s: System, e: Event, c: Conn)
    ensures c in s.pool.closed ==> c in Step(s, e).pool.closed
    ensures c in s.displaced ==> c in Step(s, e).displaced
  {
  }

  lemma {:induction false} EveryoneSomewhere(events: seq<Event>, c: Conn)
    requires c in Run(events).owner
    ensures SomewhereOf(Run(events), c)
  {
    if events != [] {
      var before := events[..|events| - 1];
      RunKeepsInv(before);
      if c in Run(before).owner {
        EveryoneSomewhere(before, c);
      }
      StaysSomewhere(Run(before), events[|events| - 1], c);
    }
  }

  // ---- Connections that are never closed ----

  ghost predicate BeingChecked(s: System, c: Conn) {
    exists r :: r in s.requests && s.requests[r].Checking? && s.requests[r].conn == c
  }

  /** Open, its place in the pool given to another one, and no request about to find it dead. */
  ghost predicate Abandoned(s: System, c: Conn) {
    c in s.displaced && c !in s.pool.closed && !BeingChecked(s, c)
  }

  lemma AbandonedStays(s: System, e: Event, c: Conn)
    requires Inv(s) && Abandoned(s, c)
    ensures Abandoned(Step(s, e), c)
  {
    hide HealthAgrees, PendingApart, PhaseOwns;
    StaysUnchecked(s, e, c);
    assert forall h :: h in s.pool.conns ==> s.pool.conns[h] != c;
    assert e.Checked? && e.r in s.requests && s.requests[e.r].Checking? ==> s.requests[e.r].conn != c;
  }

  lemma StaysUnchecked(s: System, e: Event, c: Conn)
    requires Inv(s) && c in s.displaced && !BeingChecked(s, c)
    ensures !BeingChecked(Step(s, e), c)
  {
    hide HealthAgrees, PendingApart, PhaseOwns;
    var s' := Step(s, e);
    forall r | r in s'.requests && s'.requests[r].Checking? ensures s'.requests[r].conn != c {
      assert r in s.requests && s.requests[r].Checking? ==> s.requests[r].conn != c;
    }
  }

  /** Nothing that can still happen closes it: no request, no dial, not Close. */
  lemma {:induction false} AbandonedForGood(events: seq<Event>, more: seq<Event>, c: Conn)
    requires Abandoned(Run(events), c)
    ensures Abandoned(Run(events + more), c)
  {
    if more == [] {
      assert events + more == events;
    } else {
      var front := more[..|more| - 1];
      AbandonedForGood(events, front, c);
      RunKeepsInv(events + front);
      AbandonedStays(Run(events + front), more[|more| - 1], c);
      assert (events + more)[..|events + more| - 1] == events + front;
    }
  }

  predicate DialsNothing(events: seq<Event>) {
    forall k :: 0 <= k < |events| ==> !events[k].Boot? && !events[k].DialSucceeded?
  }

  /** Any other open connection can still be closed, without a further dial. */
  lemma ClosedInTime(events: seq<Event>, c: Conn) returns (more: seq<Event>)
    requires c in Run(events).owner && !Abandoned(Run(events), c)
    ensures DialsNothing(more) && c in Run(events + more).pool.closed
  {
    var s := Run(events);
    EveryoneSomewhere(events, c);
    if c in s.pool.closed {
      more := [];
      assert events + more == events;
    } else if BeingChecked(s, c) {
      var r :| r in s.requests && s.requests[r].Checking? && s.requests[r].conn == c;
      more := [Checked(r, false)];
      RunOne(INITIAL, events, Checked(r, false));
    } else if InPool(s, c) {
      more := [Shut];
      RunOne(INITIAL, events, Shut);
      assert s.pool.conns[s.owner[c]] in s.pool.conns.Values;
    } else {
      var r :| r in s.requests && s.requests[r].Dialled? && s.requests[r].conn == c;
      more := [Pooled(r), Shut];
      RunTwo(INITIAL, events, Pooled(r), Shut);
      var s' := Step(s, Pooled(r));
      assert s'.pool.conns[s.requests[r].host] == c && c in s'.pool.conns.Values;
    }
  }

  lemma RunOne(s: System, events: seq<Event>, e: Event)
    ensures RunFrom(s, events + [e]) == Step(RunFrom(s, events), e)
  {
    assert (events + [e])[..|events|] == events;
  }

  lemma RunTwo(s: System, events: seq<Event>, e: Event, f: Event)
    ensures RunFrom(s, events + [e, f]) == Step(Step(RunFrom(s, events), e), f)
  {
    var all := events + [e, f];
    assert all[..|all| - 1] == events + [e] && all[|all| - 1] == f;
    RunOne(s, events, e);
  }

  ghost predicate StaysOpen(events: seq<Event>, c: Conn) {
    forall more :: DialsNothing(more) ==> c !in Run(events + more).pool.closed
  }

  /** A connection stays open whatever happens exactly when another one took its place while it was open and no request
      has it in hand; once all requests are over, exactly when another one took its place and it is open. */
  lemma NeverClosedIff(events: seq<Event>, c: Conn)
    requires c in Run(events).owner
    ensures StaysOpen(events, c) <==> Abandoned(Run(events), c)
    ensures Run(events).requests == map[] ==>
      (StaysOpen(events, c) <==> c in Run(events).displaced && c !in Run(events).pool.closed)
  {
    if Abandoned(Run(events), c) {
      forall more ensures c !in Run(events + more).pool.closed {
        AbandonedForGood(events, more, c);
      }
    } else {
      var more := ClosedInTime(events, c);
    }
  }

  // ---- After Close ----

  /** Close empties the pool and closes what was in it. */
  lemma {:induction false} ShutClosesThePool(events: seq<Event>, c: Conn)
    requires InPool(Run(events), c)
    ensures Run(events + [Shut]).pool.conns == map[] && c in Run(events + [Shut]).pool.closed
  {
    RunOne(INITIAL, events, Shut);
    assert Run(events).pool.conns[Run(events).owner[c]] == c;
  }

  /** The step gives the host's place to a connection. */
  predicate Takes(s: System, e: Event, host: string) {
    match e
    case Boot(h, conn) => h == host && !s.serving && conn !in s.owner
    case Pooled(r) => r in s.requests && s.requests[r].Dialled? && s.requests[r].host == host
    case _ => false
  }

  /** The step takes the host's connection, if there is one, out of the pool. */
  predicate Drops(s: System, e: Event, host: string) {
    match e
    case BootFailed(h, _) => h == host && !s.serving
    case DialFailed(r, _) => r in s.requests && s.requests[r].Dialing? && s.requests[r].host == host
    case Finished(r, result) => r in s.requests && s.requests[r].Using? && s.requests[r].host == host && result.Down?
    case Recorded(h, result) => h == host && result.Down?
    case Shut => true
    case _ => false
  }

  lemma PlaceStep(s: System, e: Event, host: string)
    ensures host in Step(s, e).pool.conns <==> Takes(s, e, host) || (host in s.pool.conns && !Drops(s, e, host))
  {
  }

  /** Step k of these gives the host a connection, and no later one takes it out. */
  ghost predicate TakenAt(s: System, events: seq<Event>, k: nat, host: string) {
    && k < |events| && Takes(RunFrom(s, events[..k]), events[k], host)
    && forall j :: k < j < |events| ==> !DropsAt(s, events, j, host)
  }

  ghost predicate DropsAt(s: System, events: seq<Event>, j: nat, host: string) {
    j < |events| && Drops(RunFrom(s, events[..j]), events[j], host)
  }

  ghost predicate TakenSince(s: System, events: seq<Event>, host: string) {
    exists k :: TakenAt(s, events, k, host)
  }

  lemma TakenLater(s: System, events: seq<Event>, e: Event, k: nat, host: string)
    requires k < |events|
    ensures TakenAt(s, events + [e], k, host) <==> TakenAt(s, events, k, host) && !Drops(RunFrom(s, events), e, host)
  {
    var all := events + [e];
    assert all[..k] == events[..k] && all[..|events|] == events;
    forall j | k < j < |events| ensures DropsAt(s, all, j, host) <==> DropsAt(s, events, j, host) {
      assert all[..j] == events[..j];
    }
    assert DropsAt(s, all, |events|, host) <==> Drops(RunFrom(s, events), e, host);
  }

  lemma {:induction false} PooledIffTaken(s: System, events: seq<Event>, host: string)
    requires s.pool.conns == map[]
    ensures host in RunFrom(s, events).pool.conns <==> TakenSince(s, events, host)
  {
    if events != [] {
      var front, e := events[..|events| - 1], events[|events| - 1];
      PooledIffTaken(s, front, host);
      PlaceStep(RunFrom(s, front), e, host);
      assert events == front + [e];
      forall k: nat | k < |front|
        ensures TakenAt(s, events, k, host) <==> TakenAt(s, front, k, host) && !Drops(RunFrom(s, front), e, host)
      {
        TakenLater(s, front, e, k, host);
      }
      assert TakenAt(s, events, |front|, host) <==> Takes(RunFrom(s, front), e, host);
    }
  }

  /** A dead connection still in the pool has a request that is replacing it. */
  ghost predicate Replacing(s: System, host: string) {
    exists r :: r in s.requests && (s.requests[r].Dialing? || s.requests[r].Dialled?) && s.requests[r].host == host
  }

  ghost predicate DeadAreReplaced(s: System) {
    forall h :: h in s.pool.conns && s.pool.conns[h] in s.pool.closed ==> Replacing(s, h)
  }

  lemma StepReplacesDead(s: System, e: Event)
    requires Inv(s) && DeadAreReplaced(s)
    ensures DeadAreReplaced(Step(s, e))
  {
    var s' := Step(s, e);
    forall h | h in s'.pool.conns && s'.pool.conns[h] in s'.pool.closed ensures Replacing(s', h) {
      DeadIsReplaced(s, e, h);
    }
  }

  lemma DeadIsReplaced(s: System, e: Event, h: string)
    requires Inv(s) && DeadAreReplaced(s)
    requires h in Step(s, e).pool.conns && Step(s, e).pool.conns[h] in Step(s, e).pool.closed
    ensures Replacing(Step(s, e), h)
  {
    hide Inv, Step, Takes;
    if Takes(s, e, h) {
      TakenIsOpen(s, e, h);
      assert false;
    }
    KeptAsItWas(s, e, h);
    if s.pool.conns[h] in s.pool.closed {
      StaysReplaced(s, e, h);
    } else {
      FoundDead(s, e, h);
    }
  }

  lemma TakenIsOpen(s: System, e: Event, h: string)
    requires Inv(s) && Takes(s, e, h)
    ensures h in Step(s, e).pool.conns && Step(s, e).pool.conns[h] !in Step(s, e).pool.closed
  {
  }

  lemma KeptAsItWas(s: System, e: Event, h: string)
    requires !Takes(s, e, h) && h in Step(s, e).pool.conns
    ensures h in s.pool.conns && Step(s, e).pool.conns[h] == s.pool.conns[h]
  {
  }

  lemma StaysReplaced(s: System, e: Event, h: string)
    requires Replacing(s, h) && !Takes(s, e, h) && h in Step(s, e).pool.conns
    ensures Replacing(Step(s, e), h)
  {
    var s' := Step(s, e);
    var r :| r in s.requests && (s.requests[r].Dialing? || s.requests[r].Dialled?) && s.requests[r].host == h;
    assert r in s'.requests && s'.requests[r].host == h;
  }

  lemma FoundDead(s: System, e: Event, h: string)
    requires Inv(s) && !Takes(s, e, h) && h in Step(s, e).pool.conns && h in s.pool.conns
    requires s.pool.conns[h] !in s.pool.closed && s.pool.conns[h] in Step(s, e).pool.closed
    ensures Replacing(Step(s, e), h)
  {
    assert e.Checked? && s.requests[e.r].conn == s.pool.conns[h] && PhaseOwns(s, s.requests[e.r]);
    assert Step(s, e).requests[e.r] == Dialing(h);
  }

  lemma {:induction false} RunReplacesDead(events: seq<Event>)
    ensures DeadAreReplaced(Run(events))
  {
    if events != [] {
      RunReplacesDead(events[..|events| - 1]);
      RunKeepsInv(events[..|events| - 1]);
      StepReplacesDead(Run(events[..|events| - 1]), events[|events| - 1]);
    }
  }

  /** Once the daemon has been closed and all requests are over, every connection ever dialled is closed exactly when
      no open one was displaced, and no request pooled one after the last Close to stay. */
  lemma AllClosedAtRestIff(before: seq<Event>, after: seq<Event>)
    requires Run(before + [Shut] + after).requests == map[]
    ensures var s, shut := Run(before + [Shut] + after), Run(before + [Shut]);
      (forall c :: c in s.owner ==> c in s.pool.closed)
      <==> s.displaced <= s.pool.closed && forall host :: !TakenSince(shut, after, host)
  {
    hide Step, RunFrom, Inv, DeadAreReplaced, SomewhereOf, TakenSince;
    var events := before + [Shut] + after;
    var s, shut := Run(events), Run(before + [Shut]);
    RunOn(INITIAL, before + [Shut], after);
    ShutEmpties(before);
    RunKeepsInv(events);
    RunReplacesDead(events);
    forall host ensures host in s.pool.conns <==> TakenSince(shut, after, host) {
      PooledIffTaken(shut, after, host);
    }
    forall c | c in s.owner ensures SomewhereOf(s, c) {
      EveryoneSomewhere(events, c);
    }
    ClosedAtRest(s);
  }

  lemma ShutEmpties(before: seq<Event>)
    ensures Run(before + [Shut]).pool.conns == map[]
  {
    RunOne(INITIAL, before, Shut);
  }

  lemma ClosedAtRest(s: System)
    requires s.requests == map[] && Inv(s) && DeadAreReplaced(s)
    requires forall c :: c in s.owner ==> SomewhereOf(s, c)
    ensures (forall c :: c in s.owner ==> c in s.pool.closed)
       <==> s.displaced <= s.pool.closed && forall host :: host !in s.pool.conns
  {
    forall h | h in s.pool.conns ensures s.pool.conns[h] in s.owner && s.pool.conns[h] !in s.pool.closed {
      assert !Replacing(s, h) && InPool(s, s.pool.conns[h]);
    }
    forall c | c in s.displaced ensures c in s.owner {
    }
  }

  // ---- One request per host ----

  ghost predicate Connecting(s: System, r: nat, host: string) {
    r in s.requests && !s.requests[r].Using? && s.requests[r].host == host
  }

  /** No two requests are connecting to the same host. */
  ghost predicate Alone(s: System) {
    forall r, q, h :: Connecting(s, r, h) && Connecting(s, q, h) ==> r == q
  }

  ghost predicate AloneThroughout(events: seq<Event>) {
    Alone(Run(events)) && (events != [] ==> AloneThroughout(events[..|events| - 1]))
  }

  /** What a request that is connecting knows about the pool stays true while it is the only one. */
  ghost predicate Settled(s: System, r: nat)
    requires r in s.requests
  {
    var at := s.requests[r];
    at.Using? || at.host !in s.pool.conns ||
    if at.Checking? then s.pool.conns[at.host] == at.conn else s.pool.conns[at.host] in s.pool.closed
  }

  lemma StepStaysSettled(s: System, e: Event, r: nat)
    requires Inv(s) && Alone(s) && r in Step(s, e).requests
    requires r in s.requests ==> Settled(s, r)
    ensures Settled(Step(s, e), r)
  {
    if e.Pooled? && e.r in s.requests && e.r != r && r in s.requests {
      var h := s.requests[e.r].host;
      assert Connecting(s, r, h) ==> !Connecting(s, e.r, h);
    }
  }

  lemma {:induction false} AloneStaysSettled(events: seq<Event>, r: nat)
    requires AloneThroughout(events) && r in Run(events).requests
    ensures Settled(Run(events), r)
  {
    if events != [] {
      var before := events[..|events| - 1];
      RunKeepsInv(before);
      if r in Run(before).requests {
        AloneStaysSettled(before, r);
      }
      StepStaysSettled(Run(before), events[|events| - 1], r);
    }
  }

  /** No host is dialled twice at startup. */
  predicate BootsOnce(events: seq<Event>) {
    forall i, j :: 0 <= i < j < |events| && events[i].Boot? && events[j].Boot? ==> events[i].host != events[j].host
  }

  lemma {:induction false} BootedBefore(events: seq<Event>, host: string)
    requires !Run(events).serving && host in Run(events).pool.conns
    ensures exists i :: 0 <= i < |events| && events[i].Boot? && events[i].host == host
  {
    var front, e := events[..|events| - 1], events[|events| - 1];
    RunKeepsInv(front);
    if !(e.Boot? && e.host == host) {
      BootedBefore(front, host);
      var i :| 0 <= i < |front| && front[i].Boot? && front[i].host == host;
      assert events[i] == front[i];
    }
  }

  /** As long as no host is dialled twice at startup and requests to one host connect one after the other, no open
      connection loses its place. */
  lemma {:induction false} AloneAbandonsNothing(events: seq<Event>)
    requires AloneThroughout(events) && BootsOnce(events)
    ensures Run(events).displaced <= Run(events).pool.closed
  {
    if events != [] {
      var before, e := events[..|events| - 1], events[|events| - 1];
      AloneAbandonsNothing(before);
      if e.Pooled? && e.r in Run(before).requests {
        AloneStaysSettled(before, e.r);
      }
      if e.Boot? && !Run(before).serving && e.host in Run(before).pool.conns {
        BootedBefore(before, e.host);
        assert false;
      }
    }
  }

  // ---- Three runs that leave a connection open ----

  lemma {:induction false} RunAppend(events: seq<Event>, e: Event, s: System, s': System)
    requires Run(events) == s && Step(s, e) == s'
    ensures Run(events + [e]) == s'
  {
    RunOne(INITIAL, events, e);
  }

  /** A pool with one connection to the host "web". */
  function Web(conn: Conn): Pool {
    Pool(map["web" := conn], map["web" := Up], {})
  }

  /** The same host twice in the daemon's list, and no request at all. */
  lemma BootTwiceAbandons() returns (events: seq<Event>)
    ensures AloneThroughout(events) && Abandoned(Run(events), 10)
  {
    var s1 := System(Web(10), map[], map[10 := "web"], {}, false);
    var s2 := System(Web(11), map[], map[10 := "web", 11 := "web"], {10}, false);
    RunAppend([], Boot("web", 10), INITIAL, s1);
    RunAppend([Boot("web", 10)], Boot("web", 11), s1, s2);
    events := [Boot("web", 10)] + [Boot("web", 11)];
    assert events[..1] == [Boot("web", 10)] && events[..1][..0] == [];
    assert Alone(INITIAL) && Alone(s1) && Alone(s2);
    assert AloneThroughout([]) && AloneThroughout(events[..1]);
  }

  /** One request has dialled and is about to tell the pool. */
  lemma OneDials(first: nat, conn: Conn, events: seq<Event>, s: System) returns (more: seq<Event>)
    requires Run(events) == s && s.serving && first !in s.requests && "web" !in s.pool.conns && conn !in s.owner
    ensures Run(more) ==
      s.(requests := s.requests[first := Dialled("web", conn)], owner := s.owner[conn := "web"])
  {
    hide Run, RunFrom;
    var s1 := s.(requests := s.requests[first := Dialing("web")]);
    RunAppend(events, Start(first, "web"), s, s1);
    more := events + [Start(first, "web")];
    assert s1.requests[first := Dialled("web", conn)] == s.requests[first := Dialled("web", conn)];
    RunAppend(more, DialSucceeded(first, conn), s1,
              s.(requests := s.requests[first := Dialled("web", conn)], owner := s.owner[conn := "web"]));
    more := more + [DialSucceeded(first, conn)];
  }

  const SERVING := System(NOTHING, map[], map[], {}, true)

  lemma ServingFirst()
    ensures Run([] + [Serve]) == SERVING
  {
    RunAppend([], Serve, INITIAL, SERVING);
  }

  /** A request that pools its connection after Close: the connection stays open at rest, though not displaced. */
  lemma LatePoolStays() returns (events: seq<Event>)
    ensures Shut in events && Run(events).requests == map[] && InPool(Run(events), 10) && 10 !in Run(events).pool.closed
  {
    hide Run, RunFrom;
    ServingFirst();
    events := OneDials(0, 10, [] + [Serve], SERVING);
    var s := SERVING.(requests := map[0 := Dialled("web", 10)], owner := map[10 := "web"]);
    assert Run(events) == s;
    RunAppend(events, Shut, s, s);
    events := events + [Shut];
    assert Shut in events;
    var s' := System(Web(10), map[0 := Using("web", 10)], map[10 := "web"], {}, true);
    RunAppend(events, Pooled(0), s, s');
    events := events + [Pooled(0)];
    RunAppend(events, Finished(0, Up), s', s'.(requests := map[]));
    events := events + [Finished(0, Up)];
  }

  const RACED := System(Web(11), map[0 := Using("web", 10), 1 := Using("web", 11)], map[10 := "web", 11 := "web"], {10},
                        true)

  lemma RacePools() returns (events: seq<Event>)
    ensures Run(events) == RACED
  {
    hide Run, RunFrom;
    ServingFirst();
    events := OneDials(0, 10, [] + [Serve], SERVING);
    var s := SERVING.(requests := map[0 := Dialled("web", 10)], owner := map[10 := "web"]);
    assert Run(events) == s;
    events := OneDials(1, 11, events, s);
    var s1 := RACED.(pool := NOTHING, displaced := {},
                     requests := map[0 := Dialled("web", 10), 1 := Dialled("web", 11)]);
    assert Run(events) == s1;
    var s2 := RACED.(pool := Web(10), requests := map[0 := Using("web", 10), 1 := Dialled("web", 11)], displaced := {});
    RunAppend(events, Pooled(0), s1, s2);
    events := events + [Pooled(0)];
    RunAppend(events, Pooled(1), s2, RACED);
    events := events + [Pooled(1)];
  }

  /** Two requests that dial the same host at the same time: the first connection is abandoned. */
  lemma RaceAbandons() returns (events: seq<Event>)
    ensures Run(events).requests == map[] && Abandoned(Run(events), 10)
  {
    hide Run, RunFrom;
    events := RacePools();
    var s := RACED.(requests := map[1 := Using("web", 11)]);
    RunAppend(events, Finished(0, Up), RACED, s);
    events := events + [Finished(0, Up)];
    RunAppend(events, Finished(1, Up), s, s.(requests := map[]));
    events := events + [Finished(1, Up)];
  }
}
