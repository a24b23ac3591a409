/** The attach/detach daemon of `internal/lsmuxsession/daemon.go`.  Every critical section is one atomic step; what
    happens outside the lock (sending, reading a connection) is a step of its own, in any interleaving. */
module SessionDaemon {
  import opened Options
  import opened Bytes

  const MAX_BUFFERED_OUTPUT: nat := 0x10_0000
  const READ_SIZE: nat := 8192

  type Conn = nat

  // ---- The replay buffer ----

  function LastBytes(s: seq<Byte>, n: nat): seq<Byte> {
    if |s| <= n then s else s[|s| - n..]
  }

  /** appendBufferedOutput. */
  function AppendBuffered(buffer: seq<Byte>, data: seq<Byte>): seq<Byte> {
    if data == [] then buffer
    else if |buffer| + |data| > MAX_BUFFERED_OUTPUT then
      var trim := |buffer| + |data| - MAX_BUFFERED_OUTPUT;
      (if trim > |buffer| then [] else buffer[trim..]) + data
    else buffer + data
  }

  /** The buffer holds the most recent bytes exactly when a single chunk is not larger than the whole buffer. */
  lemma AppendKeepsLast(buffer: seq<Byte>, data: seq<Byte>)
    requires |buffer| <= MAX_BUFFERED_OUTPUT
    ensures AppendBuffered(buffer, data) == LastBytes(buffer + data, MAX_BUFFERED_OUTPUT) <==>
      |data| <= MAX_BUFFERED_OUTPUT
  {
    var all := buffer + data;
    if data == [] {
      assert all == buffer;
    } else if |all| > MAX_BUFFERED_OUTPUT {
      var trim := |all| - MAX_BUFFERED_OUTPUT;
      if trim <= |buffer| {
        assert all[trim..] == buffer[trim..] + data;
      } else {
        assert |AppendBuffered(buffer, data)| == |data| > MAX_BUFFERED_OUTPUT;
      }
    }
  }

  lemma LastOfLast(s: seq<Byte>, more: seq<Byte>, n: nat)
    ensures LastBytes(LastBytes(s, n) + more, n) == LastBytes(s + more, n)
  {
  }

  // ---- The critical sections ----

  datatype Locked = Locked(client: Option<Conn>, buffer: seq<Byte>, shutdown: bool)

  function Broadcast(d: Locked, data: seq<Byte>): Locked {
    if d.client.None? then d.(buffer := AppendBuffered(d.buffer, data)) else d
  }

  function Attach(d: Locked, c: Conn): Locked {
    if d.client.None? then d.(client := Some(c), buffer := []) else d
  }

  function Detach(d: Locked, c: Conn): Locked {
    if d.client == Some(c) then d.(client := None) else d
  }

  class Daemon {
    var client: Option<Conn>
    var buffer: seq<Byte>
    var shutdown: bool

    function State(): Locked
      reads this
    {
      Locked(client, buffer, shutdown)
    }

    constructor ()
      ensures State() == Locked(None, [], false)
    {
      client, buffer, shutdown := None, [], false;
    }

    /** broadcastOutput up to the unlock: the result is the client to send to. */
    method BroadcastOutput(data: seq<Byte>) returns (to: Option<Conn>)
      modifies this
      ensures State() == Broadcast(old(State()), data) && to == old(client)
    {
      to := client;
      if to == None {
        AppendBufferedOutput(data);
      }
    }

    method AppendBufferedOutput(data: seq<Byte>)
      modifies `buffer
      ensures buffer == AppendBuffered(old(buffer), data)
    {
      if |data| == 0 {
        return;
      }
      if |buffer| + |data| > MAX_BUFFERED_OUTPUT {
        var trim := |buffer| + |data| - MAX_BUFFERED_OUTPUT;
        if trim > |buffer| {
          buffer := [];
        } else {
          buffer := buffer[trim..];
        }
      }
      buffer := buffer + data;
    }

    /** attachConn up to the unlock: a second client is turned away, the first one takes the buffer. */
    method AttachConn(c: Conn) returns (replay: Option<seq<Byte>>)
      modifies this
      ensures State() == Attach(old(State()), c)
      ensures replay == if old(client).None? then Some(old(buffer)) else None
    {
      if client != None {
        return None;
      }
      client := Some(c);
      replay := Some(buffer);
      buffer := [];
    }

    method DetachClient(c: Conn)
      modifies this
      ensures State() == Detach(old(State()), c)
    {
      if client == Some(c) {
        client := None;
      }
    }

    /** Close up to the unlock; only the first call goes on to tear things down. */
    method Close() returns (first: bool, last: Option<Conn>)
      modifies `shutdown
      ensures State() == old(State()).(shutdown := true) && first == !old(shutdown) && (first ==> last == client)
    {
      if shutdown {
        return false, None;
      }
      shutdown := true;
      return true, client;
    }
  }

  // ---- All goroutines together ----

  /** A connection's handler goroutine. */
  datatype Handler = Waiting | Serving | Done

  /** The goroutine that reads the terminal: between two reads it may still be sending to the client it saw. */
  datatype Reader = Idle | Sending(to: Conn)

  /** What a client that was let in gets: the replay on entry, then every chunk read while it was attached.  The
      output positions gap..start were read with nobody attached, start..end with this client attached. */
  datatype Session = Session(conn: Conn, gap: nat, start: nat, end: nat, replay: seq<Byte>, handed: seq<Byte>)

  datatype System = System(d: Locked, reader: Reader, handlers: map<Conn, Handler>, output: seq<Byte>,
                           sessions: seq<Session>)

  datatype Event =
    | Accept(c: Conn)             // a new connection says hello
    | TryAttach(c: Conn)          // its handler reaches the critical section of attachConn
    | Read(data: seq<Byte>)       // the reader gets a chunk and passes the critical section of broadcastOutput
    | Sent(ok: bool)              // the reader's send returns
    | Leave(c: Conn)              // the handler sees a detach, a bad message or the end of the connection
    | Shut

  const INITIAL := System(Locked(None, [], false), Idle, map[], [], [])

  /** Events that cannot happen in a state leave it as it is, so every list of events is a run. */
  function Step(s: System, e: Event): System {
    match e
    case Accept(c) =>
      if c in s.handlers then s else s.(handlers := s.handlers[c := Waiting])
    case TryAttach(c) =>
      if c !in s.handlers || s.handlers[c] != Waiting then s
      else if s.d.client.Some? then s.(handlers := s.handlers[c := Done])
      else
        var entered := Session(c, LastEnd(s.sessions), |s.output|, |s.output|, s.d.buffer, []);
        s.(d := Attach(s.d, c), handlers := s.handlers[c := Serving], sessions := s.sessions + [entered])
    case Read(data) =>
      if s.reader != Idle || !(0 < |data| <= READ_SIZE) then s
      else
        var s' := s.(d := Broadcast(s.d, data), output := s.output + data);
        if s.d.client.None? || s.sessions == [] then s'
        else
          var last := s.sessions[|s.sessions| - 1];
          var longer := last.(end := |s'.output|, handed := last.handed + data);
          s'.(reader := Sending(s.d.client.value), sessions := s.sessions[|s.sessions| - 1 := longer])
    case Sent(ok) =>
      if s.reader == Idle then s
      else s.(reader := Idle, d := if ok then s.d else Detach(s.d, s.reader.to))
    case Leave(c) =>
      if c !in s.handlers || s.handlers[c] != Serving then s
      else s.(handlers := s.handlers[c := Done], d := Detach(s.d, c))
    case Shut =>
      s.(d := s.d.(shutdown := true))
  }

  function LastEnd(sessions: seq<Session>): nat {
    if sessions == [] then 0 else sessions[|sessions| - 1].end
  }

  function Run(s: System, events: seq<Event>): System {
    if events == [] then s else Step(Run(s, events[..|events| - 1]), events[|events| - 1])
  }

  /** A client got the most recent bytes of the gap before it, and then everything, and its gap starts where the
      previous client left. */
  ghost predicate Served(s: System, k: nat)
    requires k < |s.sessions|
  {
    var it := s.sessions[k];
    && it.gap == LastEnd(s.sessions[..k])
    && it.gap <= it.start <= it.end <= |s.output|
    && it.replay == LastBytes(s.output[it.gap..it.start], MAX_BUFFERED_OUTPUT)
    && it.handed == s.output[it.start..it.end]
    && it.conn in s.handlers && s.handlers[it.conn] != Waiting
  }

  ghost predicate Inv(s: System) {
    && (forall k :: 0 <= k < |s.sessions| ==> Served(s, k))
    && LastEnd(s.sessions) <= |s.output|
    && (match s.d.client
        case None => s.d.buffer == LastBytes(s.output[LastEnd(s.sessions)..], MAX_BUFFERED_OUTPUT)
        case Some(c) =>
          && s.d.buffer == []
          && s.sessions != [] && s.sessions[|s.sessions| - 1].conn == c && LastEnd(s.sessions) == |s.output|
          && c in s.handlers && s.handlers[c] == Serving)
  }

  lemma StepKeepsInv(s: System, e: Event)
    requires Inv(s)
    ensures Inv(Step(s, e))
  {
    var s' := Step(s, e);
    match e
    case TryAttach(c) => AttachKeepsInv(s, c);
    case Read(data) => ReadKeepsInv(s, data);
    case _ =>
      forall k | 0 <= k < |s'.sessions|
        ensures Served(s', k)
      {
        assert Served(s, k);
      }
  }

  lemma AttachKeepsInv(s: System, c: Conn)
    requires Inv(s)
    ensures Inv(Step(s, TryAttach(c)))
  {
    var s' := Step(s, TryAttach(c));
    forall k | 0 <= k < |s'.sessions|
      ensures Served(s', k)
    {
      if k < |s.sessions| {
        assert Served(s, k) && s'.sessions[..k] == s.sessions[..k];
      } else {
        assert s'.sessions[..k] == s.sessions
          && s.output[LastEnd(s.sessions)..|s.output|] == s.output[LastEnd(s.sessions)..];
      }
    }
  }

  lemma ReadKeepsInv(s: System, data: seq<Byte>)
    requires Inv(s)
    ensures Inv(Step(s, Read(data)))
  {
    var s' := Step(s, Read(data));
    if s' != s {
      forall k | 0 <= k < |s'.sessions|
        ensures Served(s', k)
      {
        ReadKeepsSession(s, data, k);
      }
      var gap := s.output[LastEnd(s.sessions)..];
      if s.d.client.None? {
        AppendKeepsLast(s.d.buffer, data);
        LastOfLast(gap, data, MAX_BUFFERED_OUTPUT);
        assert s'.output[LastEnd(s.sessions)..] == gap + data;
      }
    }
  }

  lemma StretchKept(output: seq<Byte>, data: seq<Byte>, a: nat, b: nat)
    requires a <= b <= |output|
    ensures (output + data)[a..b] == output[a..b]
    ensures (output + data)[a..|output + data|] == output[a..|output|] + data
  {
  }

  lemma ReadKeepsSession(s: System, data: seq<Byte>, k: nat)
    requires Inv(s) && k < |s.sessions| && Step(s, Read(data)) != s
    ensures Served(Step(s, Read(data)), k)
  {
    var s', it := Step(s, Read(data)), s.sessions[k];
    assert Served(s, k);
    assert LastEnd(s'.sessions[..k]) == LastEnd(s.sessions[..k]) by {
      assert s'.sessions[..k] == s.sessions[..k];
    }
    assert s'.output == s.output + data;
    StretchKept(s.output, data, it.gap, it.start);
    StretchKept(s.output, data, it.start, it.end);
    if s.d.client.Some? && k == |s.sessions| - 1 {
      assert it.end == |s.output| && s'.sessions[k] == it.(end := |s'.output|, handed := it.handed + data);
    } else {
      assert s'.sessions[k] == it;
    }
  }

  lemma {:induction false} RunKeepsInv(events: seq<Event>)
    ensures Inv(Run(INITIAL, events))
  {
    if events != [] {
      RunKeepsInv(events[..|events| - 1]);
      StepKeepsInv(Run(INITIAL, events[..|events| - 1]), events[|events| - 1]);
    }
  }

  // ---- What holds after every run ----

  /** With nobody attached the buffer is the most recent part of the output since the last client left, up to the
      limit; with somebody attached it is empty. */
  lemma BufferInEveryRun(events: seq<Event>)
    ensures var s := Run(INITIAL, events);
      && LastEnd(s.sessions) <= |s.output|
      && var gap := |s.output| - LastEnd(s.sessions);
         var kept := if s.d.client.Some? then 0 else if gap < 1_048_576 then gap else 1_048_576;
      && s.d.buffer == s.output[|s.output| - kept..]
    ensures var s := Run(INITIAL, events);
      && s.d.buffer ==
         (if s.d.client.None? then LastBytes(s.output[LastEnd(s.sessions)..], MAX_BUFFERED_OUTPUT) else [])
      && |s.d.buffer| <= MAX_BUFFERED_OUTPUT
  {
    RunKeepsInv(events);
  }

  /** In every run every client was sent the last 2^20 bytes of what had been read since the client before it left, or
      all of them if there were fewer, and then everything that was read while it was attached. */
  lemma EveryClientServed(events: seq<Event>, k: nat)
    requires k < |Run(INITIAL, events).sessions|
    ensures var s := Run(INITIAL, events);
      var it := s.sessions[k];
      && it.gap == (if k == 0 then 0 else s.sessions[k - 1].end)
      && it.gap <= it.start <= it.end <= |s.output|
      && var kept := if it.start - it.gap < 1_048_576 then it.start - it.gap else 1_048_576;
      && it.replay == s.output[it.start - kept..it.start] && it.handed == s.output[it.start..it.end]
  {
    RunKeepsInv(events);
    assert Served(Run(INITIAL, events), k);
  }

  /** The output read up to where the last client left, as gaps and what the clients were handed, in order. */
  ghost function Accounted(s: System, count: nat): seq<Byte>
    requires Inv(s) && count <= |s.sessions|
  {
    if count == 0 then []
    else
      assert Served(s, count - 1);
      var it := s.sessions[count - 1];
      Accounted(s, count - 1) + s.output[it.gap..it.start] + it.handed
  }

  /** No byte of the output is handed to two clients or skipped between them. */
  lemma {:induction false} NothingTwiceOrSkipped(s: System, count: nat)
    requires Inv(s) && count <= |s.sessions|
    ensures LastEnd(s.sessions[..count]) <= |s.output|
    ensures Accounted(s, count) == s.output[..LastEnd(s.sessions[..count])]
  {
    if count > 0 {
      NothingTwiceOrSkipped(s, count - 1);
      assert Served(s, count - 1);
      var it := s.sessions[count - 1];
      assert s.sessions[..count][..count - 1] == s.sessions[..count - 1];
      StretchesJoin(s.output, it.gap, it.start, it.end);
    }
  }

  lemma StretchesJoin(output: seq<Byte>, a: nat, b: nat, c: nat)
    requires a <= b <= c <= |output|
    ensures output[..a] + output[a..b] + output[b..c] == output[..c]
  {
  }

  lemma AllAccounted(events: seq<Event>)
    ensures var s := Run(INITIAL, events);
      && Inv(s) && LastEnd(s.sessions) <= |s.output|
      && Accounted(s, |s.sessions|) + s.output[LastEnd(s.sessions)..] == s.output
  {
    hide Run, Inv, Accounted, LastEnd;
    var s := Run(INITIAL, events);
    RunKeepsInv(events);
    BufferInEveryRun(events);
    NothingTwiceOrSkipped(s, |s.sessions|);
    assert s.sessions[..|s.sessions|] == s.sessions;
  }

  ghost predicate DistinctConns(sessions: seq<Session>) {
    forall i, j :: 0 <= i < j < |sessions| ==> sessions[i].conn != sessions[j].conn
  }

  /** A connection is let in at most once, and each client in the list is a different one. */
  lemma {:induction false} LetInOnce(events: seq<Event>)
    ensures DistinctConns(Run(INITIAL, events).sessions)
  {
    if events != [] {
      var before := events[..|events| - 1];
      LetInOnce(before);
      RunKeepsInv(before);
      var s, e := Run(INITIAL, before), events[|events| - 1];
      var s' := Step(s, e);
      forall i, j | 0 <= i < j < |s'.sessions|
        ensures s'.sessions[i].conn != s'.sessions[j].conn
      {
        assert Served(s, i);
        assert s'.sessions[i].conn == s.sessions[i].conn;
        if j == |s.sessions| {
          assert e.TryAttach? && s.handlers[e.c] == Waiting && s'.sessions[j].conn == e.c;
        } else {
          assert s'.sessions[j].conn == s.sessions[j].conn;
        }
      }
    }
  }

  /** Whatever the interleaving, only the attached client itself ends its attachment: by leaving, or by a failed send
      to it.  The late detach of an earlier client does not evict its successor. */
  lemma {:induction false} OnlyItselfEnds(events: seq<Event>, e: Event, c: Conn)
    requires Run(INITIAL, events).d.client == Some(c)
    ensures var s := Run(INITIAL, events);
      (Step(s, e).d.client == Some(c) <==> !(e == Leave(c) || (e == Sent(false) && s.reader == Sending(c))))
  {
    RunKeepsInv(events);
  }
}
