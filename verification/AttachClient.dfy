/** The input loop of the attach client, `internal/lsmuxsession/client.go`: a prefix key, then the detach key, ends the
    session; a prefix key before any other byte is forwarded with it. */
module AttachClient {
  import opened Bytes

  datatype Message = Input(data: seq<Byte>) | Detach

  function Forwarded(sent: seq<Message>): seq<Byte> {
    if sent == [] then []
    else
      var last := sent[|sent| - 1];
      Forwarded(sent[..|sent| - 1]) + (if last.Input? then last.data else [])
  }

  /** Bytes that the loop passes on: no prefix key, or a prefix key and then anything but the detach key. */
  predicate Harmless(s: seq<Byte>, prefix: Byte, detach: Byte) {
    if s == [] then true
    else if s[0] != prefix then Harmless(s[1..], prefix, detach)
    else |s| >= 2 && s[1] != detach && Harmless(s[2..], prefix, detach)
  }

  lemma {:induction false} HarmlessAppend(s: seq<Byte>, t: seq<Byte>, prefix: Byte, detach: Byte)
    requires Harmless(s, prefix, detach)
    ensures Harmless(s + t, prefix, detach) <==> Harmless(t, prefix, detach)
  {
    if s == [] {
      assert s + t == t;
    } else {
      var n := if s[0] != prefix then 1 else 2;
      assert (s + t)[n..] == s[n..] + t;
      HarmlessAppend(s[n..], t, prefix, detach);
    }
  }

  /** The bytes before the chord are the same however they are split: the loop stops at the first chord. */
  lemma FirstChord(s: seq<Byte>, t: seq<Byte>, prefix: Byte, detach: Byte, input: seq<Byte>)
    requires Harmless(s, prefix, detach) && Harmless(t, prefix, detach)
    requires s + [prefix, detach] <= input && t <= input
    ensures t <= s
  {
    if |t| > |s| {
      var rest := t[|s|..];
      assert rest[0] == input[|s|] == prefix;
      assert |rest| >= 2 ==> rest[1] == input[|s| + 1] == detach;
      assert t == s + rest;
      HarmlessAppend(s, rest, prefix, detach);
      assert false;
    }
    assert t == s[..|t|];
  }

  /** The prefix key and the detach key stand at n, and no earlier byte takes the prefix key away. */
  ghost predicate ChordAt(stdin: seq<Byte>, n: int, prefix: Byte, detach: Byte) {
    0 <= n <= |stdin| - 2 && Harmless(stdin[..n], prefix, detach) && stdin[n..n + 2] == [prefix, detach]
  }

  /** The loop over standard input, which ends with a read error after `stdin`.  At every point the bytes read are the
      bytes forwarded and one prefix key that is still pending, if any. */
  method AttachInput(stdin: seq<Byte>, prefix: Byte, detach: Byte)
    returns (sent: seq<Message>, detached: bool, read: nat)
    ensures read <= |stdin| && |sent| > 0 && sent[|sent| - 1] == Detach
    ensures forall k :: 0 <= k < |sent| - 1 ==> sent[k].Input?
    ensures Harmless(Forwarded(sent), prefix, detach)
    ensures detached ==> stdin[..read] == Forwarded(sent) + [prefix, detach]
    ensures !detached ==> read == |stdin| && (stdin == Forwarded(sent) || stdin == Forwarded(sent) + [prefix])
    ensures detached <==> exists n :: ChordAt(stdin, n, prefix, detach)
  {
    sent, detached, read := [], false, 0;
    var pendingPrefix := false;
    while read < |stdin|
      invariant 0 <= read <= |stdin|
      invariant InStep(stdin[..read], sent, pendingPrefix, prefix, detach)
    {
      var b := stdin[read];
      InputStep(stdin[..read], sent, pendingPrefix, b, prefix, detach);
      read := read + 1;
      assert stdin[..read] == stdin[..read - 1] + [b];
      if pendingPrefix {
        pendingPrefix := false;
        if b == detach {
          ChordFound(stdin, sent, prefix, detach, read);
          sent := sent + [Detach];
          return sent, true, read;
        }
        sent := sent + [Input([prefix, b])];
        continue;
      }
      if b == prefix {
        pendingPrefix := true;
        continue;
      }
      sent := sent + [Input([b])];
    }
    assert stdin[..read] == stdin;
    NoChord(stdin, Forwarded(sent), prefix, detach);
    ForwardedDetach(sent);
    sent := sent + [Detach];
  }

  ghost predicate InStep(input: seq<Byte>, sent: seq<Message>, pendingPrefix: bool, prefix: Byte, detach: Byte) {
    && (forall k :: 0 <= k < |sent| ==> sent[k].Input?)
    && Harmless(Forwarded(sent), prefix, detach)
    && input == if pendingPrefix then Forwarded(sent) + [prefix] else Forwarded(sent)
  }

  lemma InputStep(input: seq<Byte>, sent: seq<Message>, pendingPrefix: bool, b: Byte, prefix: Byte, detach: Byte)
    requires InStep(input, sent, pendingPrefix, prefix, detach)
    ensures if pendingPrefix then b == detach || InStep(input + [b], sent + [Input([prefix, b])], false, prefix, detach)
            else if b == prefix then InStep(input + [b], sent, true, prefix, detach)
            else InStep(input + [b], sent + [Input([b])], false, prefix, detach)
  {
    var data := if pendingPrefix then [prefix, b] else [b];
    ForwardedInput(sent, data);
    HarmlessAppend(Forwarded(sent), data, prefix, detach);
    assert Forwarded(sent) + [prefix] + [b] == Forwarded(sent) + [prefix, b];
  }

  lemma ForwardedInput(sent: seq<Message>, data: seq<Byte>)
    ensures Forwarded(sent + [Input(data)]) == Forwarded(sent) + data
  {
    assert (sent + [Input(data)])[..|sent|] == sent;
  }

  lemma ForwardedDetach(sent: seq<Message>)
    ensures Forwarded(sent + [Detach]) == Forwarded(sent)
  {
    assert (sent + [Detach])[..|sent|] == sent;
  }

  lemma ChordFound(stdin: seq<Byte>, sent: seq<Message>, prefix: Byte, detach: Byte, read: nat)
    requires 0 < read <= |stdin| && InStep(stdin[..read - 1], sent, true, prefix, detach) && stdin[read - 1] == detach
    ensures Forwarded(sent + [Detach]) == Forwarded(sent) && stdin[..read] == Forwarded(sent) + [prefix, detach]
    ensures ChordAt(stdin, read - 2, prefix, detach)
  {
    ForwardedDetach(sent);
    assert stdin[..read] == stdin[..read - 1] + [detach];
    assert stdin[..read - 2] == stdin[..read - 1][..read - 2] == Forwarded(sent);
    assert stdin[read - 2..read] == stdin[..read][read - 2..];
  }

  lemma NoChord(stdin: seq<Byte>, s: seq<Byte>, prefix: Byte, detach: Byte)
    requires Harmless(s, prefix, detach) && (stdin == s || stdin == s + [prefix])
    ensures !exists n :: ChordAt(stdin, n, prefix, detach)
  {
    forall n | ChordAt(stdin, n, prefix, detach)
      ensures false
    {
      assert stdin[..n] + [prefix, detach] <= stdin;
      FirstChord(stdin[..n], s, prefix, detach, stdin);
    }
  }
}
