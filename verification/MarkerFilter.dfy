/** `startupMarkerFilterWriter` of `internal/mux/remote.go`: removes the first startup marker from a byte stream
    that arrives in arbitrary pieces.  The destination is a sink that never fails. */
module MarkerFilter {

  import opened Bytes

  ghost predicate At(s: seq<Byte>, m: seq<Byte>, i: int) {
    0 <= i && i + |m| <= |s| && s[i..i + |m|] == m
  }

  ghost predicate Occurs(s: seq<Byte>, m: seq<Byte>) {
    exists i :: At(s, m, i)
  }

  /** The library's first-index search. */
  function Index(s: seq<Byte>, m: seq<Byte>): (idx: int)
    ensures idx >= 0 ==> At(s, m, idx) && forall i :: i < idx ==> !At(s, m, i)
    ensures idx < 0 ==> idx == -1 && !Occurs(s, m)
  {
    IndexFrom(s, m, 0)
  }

  function IndexFrom(s: seq<Byte>, m: seq<Byte>, from: nat): (idx: int)
    requires from <= |s| + 1
    requires forall i :: i < from ==> !At(s, m, i)
    ensures idx >= 0 ==> At(s, m, idx) && forall i :: i < idx ==> !At(s, m, i)
    ensures idx < 0 ==> idx == -1 && !Occurs(s, m)
    decreases |s| + 1 - from
  {
    if from + |m| > |s| then -1
    else if s[from..from + |m|] == m then from
    else IndexFrom(s, m, from + 1)
  }

  /** The bytes of `\r?\n?` at the front of s. */
  function NewlineLength(s: seq<Byte>): (n: nat)
    ensures n <= |s| && n <= 2
    ensures n == 0 <==> |s| == 0 || (s[0] != CR && s[0] != LF)
    ensures n == 2 <==> |s| > 1 && s[0] == CR && s[1] == LF
  {
    var cr := if |s| > 0 && s[0] == CR then 1 else 0;
    if |s| > cr && s[cr] == LF then cr + 1 else cr
  }

  /** The bytes without the first marker and the newline bytes that directly follow it. */
  function Cut(s: seq<Byte>, marker: seq<Byte>): seq<Byte>
    requires Occurs(s, marker)
  {
    CutAt(s, Index(s, marker), |marker|)
  }

  function CutAt(s: seq<Byte>, idx: nat, length: nat): seq<Byte>
    requires idx + length <= |s|
  {
    var end := idx + length;
    s[..idx] + s[end + NewlineLength(s[end..])..]
  }

  /** Why part of the pending bytes may be let go: a marker that starts among the bytes already let go would lie
      entirely within the input already searched, as at least a marker's length is still held back. */
  lemma HeldBackSuffices(gone: seq<Byte>, held: seq<Byte>, more: seq<Byte>, m: seq<Byte>)
    requires !Occurs(gone + held, m)
    requires gone == [] || |held| >= |m|
    ensures Occurs(gone + held + more, m) <==> Occurs(held + more, m)
    ensures Occurs(held + more, m) ==> Index(gone + held + more, m) == |gone| + Index(held + more, m)
  {
    var all := gone + held + more;
    forall i | 0 <= i < |gone|
      ensures !At(all, m, i)
    {
      NotAmongGone(gone, held, more, m, i);
    }
    hide At;
    forall i | i >= 0
      ensures At(all, m, |gone| + i) <==> At(held + more, m, i)
    {
      AtLater(gone, held, more, m, i);
    }
    if Occurs(held + more, m) {
      assert At(all, m, |gone| + Index(held + more, m));
    }
    if Occurs(all, m) {
      var i :| At(all, m, i);
      assert At(held + more, m, i - |gone|);
      var k := Index(all, m);
      assert At(held + more, m, k - |gone|);
    }
  }

  lemma NotAmongGone(gone: seq<Byte>, held: seq<Byte>, more: seq<Byte>, m: seq<Byte>, i: nat)
    requires !Occurs(gone + held, m) && i < |gone| && |held| >= |m|
    ensures !At(gone + held + more, m, i)
  {
    assert !At(gone + held, m, i);
    assert (gone + held)[i..i + |m|] == (gone + held + more)[i..i + |m|];
  }

  lemma AtLater(gone: seq<Byte>, held: seq<Byte>, more: seq<Byte>, m: seq<Byte>, i: nat)
    ensures At(gone + held + more, m, |gone| + i) <==> At(held + more, m, i)
  {
    var all := gone + held + more;
    if |gone| + i + |m| <= |all| {
      assert all[|gone| + i..|gone| + i + |m|] == (held + more)[i..i + |m|];
    }
  }

  class StartupMarkerFilter {
    const marker: seq<Byte>
    var pending: seq<Byte>
    var stripped: bool
    var dst: seq<Byte>           // everything written to the destination
    ghost var before: seq<Byte>  // the input that an earlier Flush let go unsearched
    ghost var sought: seq<Byte>  // the input searched since, up to the Write that found the marker
    ghost var gone: seq<Byte>    // the part of `sought` that the destination already has
    ghost var after: seq<Byte>   // the input of later Writes

    ghost function Input(): seq<Byte>
      reads this
    {
      before + sought + after
    }

    ghost predicate Valid()
      reads this
    {
      if marker == [] then !stripped && pending == after == [] && dst == Input()
      else if stripped then pending == [] && Occurs(sought, marker) && dst == before + Cut(sought, marker) + after
      else
        && after == []
        && !Occurs(sought, marker)
        && dst == before + gone && sought == gone + pending
        && |pending| <= |marker| + 4
        && (gone != [] ==> |pending| == |marker| + 4)
    }

    constructor (marker: seq<Byte>)
      ensures Valid() && this.marker == marker && before == sought == after == dst == [] && !stripped
    {
      this.marker := marker;
      pending, stripped, dst, before, sought, gone, after := [], false, [], [], [], [], [];
    }

    method Write(p: seq<Byte>)
      requires Valid()
      modifies this
      ensures Valid() && Input() == old(Input()) + p && before == old(before)
      ensures sought == if old(stripped) then old(sought) else old(sought) + p
      ensures marker != [] ==> (stripped <==> Occurs(sought, marker))
    {
      if |marker| == 0 || stripped {
        dst := dst + p;
        if stripped {
          ConcatAssociative(before + Cut(sought, marker), after, p);
          ConcatAssociative(before + sought, after, p);
          after := after + p;
        } else {
          ConcatAssociative(before, sought, p);
          sought := sought + p;
        }
        return;
      }
      ConcatAssociative(before, sought, p);
      Search(p);
    }

    /** Write before the marker has been found. */
    method Search(p: seq<Byte>)
      requires Valid() && marker != [] && !stripped
      modifies this
      ensures Valid() && before == old(before) && sought == old(sought) + p && after == []
      ensures stripped <==> Occurs(sought, marker)
    {
      HeldBackSuffices(gone, pending, p, marker);
      ConcatAssociative(gone, pending, p);
      pending := pending + p;
      sought := gone + pending;
      var idx := Index(pending, marker);
      if idx >= 0 {
        CutAfter(before, gone, pending, marker);
        StripFound(idx);
        return;
      }

      var keep := |marker| + 4;
      if |pending| > keep {
        var flushLen := |pending| - keep;
        LetGo(before, gone, pending, flushLen);
        dst := dst + pending[..flushLen];
        gone := gone + pending[..flushLen];
        pending := pending[flushLen..];
      }
    }

    /** Search once the marker stands at pending[idx..]. */
    method StripFound(idx: nat)
      requires marker != [] && after == [] && Occurs(sought, marker)
      requires Occurs(pending, marker) && idx == Index(pending, marker)
      requires dst + Cut(pending, marker) == before + Cut(sought, marker)
      modifies this
      ensures Valid() && stripped && before == old(before) && sought == old(sought) && after == []
    {
      hide Cut, CutAt, At, Index, NewlineLength;
      FirstIsWithin(pending, marker);
      var end := SkipNewline(pending, idx + |marker|);
      CutIs(pending, marker, end);
      var filtered := pending[..idx] + pending[end..];
      CutEnds(dst, filtered, before + Cut(sought, marker));
      pending := [];
      stripped := true;
      if |filtered| > 0 {
        dst := dst + filtered;
      }
    }

    ghost predicate HasRead(chunks: seq<seq<Byte>>)
      reads this
    {
      && Valid() && before == [] && Input() == Flatten(chunks)
      && (marker != [] ==> sought == Searched(chunks, marker) && (stripped <==> Occurs(sought, marker)))
    }

    lemma Finished(chunks: seq<seq<Byte>>)
      requires HasRead(chunks)
      ensures stripped <==> marker != [] && Occurs(Flatten(chunks), marker)
      ensures stripped ==> var s := Searched(chunks, marker);
        s <= Flatten(chunks) && Occurs(s, marker) && dst == Cut(s, marker) + Flatten(chunks)[|s|..]
    {
      SearchedIsPrefix(chunks, marker);
      assert before + sought == sought;
      if stripped {
        assert after == Flatten(chunks)[|sought|..];
        assert before + Cut(sought, marker) == Cut(sought, marker);
      }
    }

    method WriteNext(ghost chunks: seq<seq<Byte>>, k: nat, chunk: seq<Byte>)
      requires k < |chunks| && chunk == chunks[k] && HasRead(chunks[..k])
      modifies this
      ensures HasRead(chunks[..k + 1])
    {
      assert chunks[..k + 1][..k] == chunks[..k];
      Write(chunk);
    }

    method Finish(ghost chunks: seq<seq<Byte>>) returns (out: seq<Byte>)
      requires HasRead(chunks)
      modifies this
      ensures out == Filtered(chunks, marker)
    {
      Finished(chunks);
      Flush();
      out := dst;
    }

    /** Ends the stream: what is held back holds no marker. */
    method Flush()
      requires Valid()
      modifies this
      ensures Valid() && Input() == old(Input()) && stripped == old(stripped)
      ensures stripped ==> before == old(before) && sought == old(sought) && dst == old(dst)
      ensures !stripped ==> dst == Input()
    {
      if |pending| != 0 {
        dst := dst + pending;
        pending := [];
      }
      if |marker| != 0 && !stripped {
        before, sought, gone := dst, [], [];
      }
    }
  }

  method SkipNewline(s: seq<Byte>, at: nat) returns (end: nat)
    requires at <= |s|
    ensures end == at + NewlineLength(s[at..])
  {
    end := at;
    if end < |s| && s[end] == CR {
      end := end + 1;
    }
    if end < |s| && s[end] == LF {
      end := end + 1;
    }
  }

  lemma CutFurther(gone: seq<Byte>, held: seq<Byte>, idx: nat, length: nat)
    requires idx + length <= |held|
    ensures CutAt(gone + held, |gone| + idx, length) == gone + CutAt(held, idx, length)
  {
    var end := idx + length;
    assert (gone + held)[|gone| + end..] == held[end..];
    var next := end + NewlineLength(held[end..]);
    assert (gone + held)[|gone| + next..] == held[next..];
    assert (gone + held)[..|gone| + idx] == gone + held[..idx];
    ConcatAssociative(gone, held[..idx], held[next..]);
  }

  lemma CutEnds(done: seq<Byte>, filtered: seq<Byte>, all: seq<Byte>)
    requires all == done + filtered
    ensures all + [] == all && (filtered == [] ==> done == all)
  {
  }

  lemma FirstIsWithin(s: seq<Byte>, m: seq<Byte>)
    requires Occurs(s, m)
    ensures 0 <= Index(s, m) && Index(s, m) + |m| <= |s| && Cut(s, m) == CutAt(s, Index(s, m), |m|)
  {
  }

  lemma CutIs(s: seq<Byte>, m: seq<Byte>, end: nat)
    requires Occurs(s, m) && 0 <= Index(s, m) && Index(s, m) + |m| <= |s|
    requires end == Index(s, m) + |m| + NewlineLength(s[Index(s, m) + |m|..])
    ensures end <= |s| && Cut(s, m) == s[..Index(s, m)] + s[end..]
  {
    hide At, Occurs, NewlineLength;
  }

  lemma CutAfter(before: seq<Byte>, gone: seq<Byte>, held: seq<Byte>, m: seq<Byte>)
    requires Occurs(held, m) && Occurs(gone + held, m) && Index(gone + held, m) == |gone| + Index(held, m)
    ensures before + Cut(gone + held, m) == before + gone + Cut(held, m)
  {
    hide Cut, CutAt, Index, At, Occurs;
    FirstIsWithin(held, m);
    FirstIsWithin(gone + held, m);
    CutFurther(gone, held, Index(held, m), |m|);
    ConcatAssociative(before, gone, Cut(held, m));
  }

  lemma LetGo(before: seq<Byte>, gone: seq<Byte>, held: seq<Byte>, n: nat)
    requires n <= |held|
    ensures before + gone + held[..n] == before + (gone + held[..n])
    ensures gone + held == gone + held[..n] + held[n..]
  {
  }

  // ---- A whole stream, cut into Writes in any way ----

  /** The Writes up to the first one that completes a marker, or all of them. */
  ghost function Searched(chunks: seq<seq<Byte>>, marker: seq<Byte>): seq<Byte> {
    if chunks == [] then []
    else
      var s := Searched(chunks[..|chunks| - 1], marker);
      if Occurs(s, marker) then s else s + chunks[|chunks| - 1]
  }

  lemma OccursStays(s: seq<Byte>, more: seq<Byte>, m: seq<Byte>)
    requires Occurs(s, m)
    ensures Occurs(s + more, m) && Index(s + more, m) == Index(s, m)
  {
    var k := Index(s, m);
    assert (s + more)[k..k + |m|] == s[k..k + |m|];
    assert At(s + more, m, k);
    var first := Index(s + more, m);
    assert s[first..first + |m|] == (s + more)[first..first + |m|];
    assert At(s, m, first);
  }

  lemma {:induction false} SearchedIsPrefix(chunks: seq<seq<Byte>>, marker: seq<Byte>)
    ensures Searched(chunks, marker) <= Flatten(chunks)
    ensures Occurs(Searched(chunks, marker), marker) <==> Occurs(Flatten(chunks), marker)
    ensures !Occurs(Flatten(chunks), marker) ==> Searched(chunks, marker) == Flatten(chunks)
  {
    if chunks != [] {
      SearchedIsPrefix(chunks[..|chunks| - 1], marker);
      var s, all := Searched(chunks[..|chunks| - 1], marker), Flatten(chunks);
      if Occurs(s, marker) {
        OccursStays(s, all[|s|..], marker);
        assert s + all[|s|..] == all;
      }
    }
  }

  /** The first k Writes complete the first marker, which stands at i; it is gone, and so is an optional CR and an
      optional LF after it, as far as the k-th Write brought them. */
  ghost predicate TakenOut(chunks: seq<seq<Byte>>, marker: seq<Byte>, k: nat, i: nat, out: seq<Byte>) {
    && 0 < k <= |chunks| && !Occurs(Flatten(chunks[..k - 1]), marker)
    && var s, all, end := Flatten(chunks[..k]), Flatten(chunks), i + |marker|;
    && s <= all && At(s, marker, i) && (forall j :: 0 <= j < i ==> !At(s, marker, j))
    && var n := if [13, 10] <= s[end..] then 2 else if [13] <= s[end..] || [10] <= s[end..] then 1 else 0;
    && out == all[..i] + all[end + n..]
  }

  lemma {:induction false} SearchedStops(chunks: seq<seq<Byte>>, marker: seq<Byte>) returns (k: nat)
    requires marker != [] && Occurs(Flatten(chunks), marker)
    ensures 0 < k <= |chunks| && !Occurs(Flatten(chunks[..k - 1]), marker)
    ensures Searched(chunks, marker) == Flatten(chunks[..k])
  {
    var n := |chunks| - 1;
    hide Occurs;
    NothingOccurs(marker);
    SearchedIsPrefix(chunks[..n], marker);
    if Occurs(Flatten(chunks[..n]), marker) {
      k := SearchedStops(chunks[..n], marker);
      assert chunks[..n][..k] == chunks[..k] && chunks[..n][..k - 1] == chunks[..k - 1];
    } else {
      k := |chunks|;
      assert chunks[..k] == chunks;
    }
  }

  lemma NothingOccurs(marker: seq<Byte>)
    requires marker != []
    ensures !Occurs([], marker)
  {
  }

  lemma FilteredTakesOut(chunks: seq<seq<Byte>>, marker: seq<Byte>)
    ensures marker != [] && Occurs(Flatten(chunks), marker) ==>
      exists k, i :: TakenOut(chunks, marker, k, i, Filtered(chunks, marker))
  {
    if marker != [] && Occurs(Flatten(chunks), marker) {
      var k := SearchedStops(chunks, marker);
      SearchedIsPrefix(chunks, marker);
      WritesTakeOut(chunks, marker, k);
    }
  }

  lemma WritesTakeOut(chunks: seq<seq<Byte>>, marker: seq<Byte>, k: nat)
    requires marker != [] && Occurs(Flatten(chunks), marker)
    requires 0 < k <= |chunks| && !Occurs(Flatten(chunks[..k - 1]), marker)
    requires Searched(chunks, marker) == Flatten(chunks[..k]) <= Flatten(chunks)
    requires Occurs(Flatten(chunks[..k]), marker)
    ensures exists i :: TakenOut(chunks, marker, k, i, Filtered(chunks, marker))
  {
    hide Occurs, At, Flatten, Searched, Cut, CutAt, Index;
    var s, all := Flatten(chunks[..k]), Flatten(chunks);
    FirstIsWithin(s, marker);
    CutStands(s, all, Index(s, marker), |marker|);
    assert TakenOut(chunks, marker, k, Index(s, marker), Filtered(chunks, marker));
  }

  lemma CutStands(s: seq<Byte>, all: seq<Byte>, idx: nat, length: nat)
    requires s <= all && idx + length <= |s|
    ensures var end := idx + length;
      var n := if [13, 10] <= s[end..] then 2 else if [13] <= s[end..] || [10] <= s[end..] then 1 else 0;
      end + n <= |s| && CutAt(s, idx, length) + all[|s|..] == all[..idx] + all[end + n..]
  {
    hide NewlineLength;
    var end := idx + length;
    NewlineBytes(s[end..]);
    var n := NewlineLength(s[end..]);
    SkipStands(s, all, idx, end + n);
  }

  lemma NewlineBytes(t: seq<Byte>)
    ensures NewlineLength(t) == if [13, 10] <= t then 2 else if [13] <= t || [10] <= t then 1 else 0
  {
  }

  lemma SkipStands(s: seq<Byte>, all: seq<Byte>, a: nat, b: nat)
    requires s <= all && a <= b <= |s|
    ensures s[..a] + s[b..] + all[|s|..] == all[..a] + all[b..]
  {
    assert s[..a] == all[..a] && s[b..] + all[|s|..] == all[b..];
  }

  /** What the filter makes of these Writes: without a marker the stream is unchanged; with one, the first marker is
      gone and so are the newline bytes that follow it within the Write that completed it.  Later markers pass. */
  ghost function Filtered(chunks: seq<seq<Byte>>, marker: seq<Byte>): seq<Byte> {
    if marker == [] || !Occurs(Flatten(chunks), marker) then Flatten(chunks)
    else
      SearchedIsPrefix(chunks, marker);
      var s := Searched(chunks, marker);
      Cut(s, marker) + Flatten(chunks)[|s|..]
  }

  method FilterStartupMarkerReader(chunks: seq<seq<Byte>>, marker: seq<Byte>) returns (out: seq<Byte>)
    ensures out == Filtered(chunks, marker)
    ensures marker == [] || !Occurs(Flatten(chunks), marker) ==> out == Flatten(chunks)
    ensures marker != [] && Occurs(Flatten(chunks), marker) ==> exists k, i :: TakenOut(chunks, marker, k, i, out)
  {
    FilteredTakesOut(chunks, marker);
    var filter := new StartupMarkerFilter(marker);
    assert chunks[..0] == [];
    for k := 0 to |chunks|
      invariant fresh(filter) && filter.marker == marker && filter.HasRead(chunks[..k])
    {
      filter.WriteNext(chunks, k, chunks[k]);
    }
    assert chunks[..|chunks|] == chunks;
    out := filter.Finish(chunks);
  }

  /** The marker's newline reaches across the end of the Write that completed the marker. */
  ghost predicate NewlineSplit(s: seq<Byte>, rest: seq<Byte>, marker: seq<Byte>)
    requires Occurs(s, marker)
  {
    SplitNewline(s, rest, Index(s, marker) + |marker|)
  }

  predicate SplitNewline(s: seq<Byte>, rest: seq<Byte>, end: nat)
    requires end <= |s|
  {
    rest != [] && (if end == |s| then rest[0] == CR || rest[0] == LF
                   else end + 1 == |s| && s[end] == CR && rest[0] == LF)
  }

  ghost predicate CutsNewline(chunks: seq<seq<Byte>>, marker: seq<Byte>) {
    && marker != [] && Occurs(Flatten(chunks), marker)
    && (SearchedIsPrefix(chunks, marker);
        NewlineSplit(Searched(chunks, marker), Flatten(chunks)[|Searched(chunks, marker)|..], marker))
  }

  /** The output is what one single Write of the whole stream gives, exactly unless the Write that completed the marker
      ends before the newline that follows the marker does. */
  lemma ChunkingShows(chunks: seq<seq<Byte>>, marker: seq<Byte>)
    ensures Filtered(chunks, marker) == Filtered([Flatten(chunks)], marker) <==> !CutsNewline(chunks, marker)
  {
    var all := Flatten(chunks);
    hide Occurs, Index, Cut, Searched, NewlineSplit, Flatten;
    FlattenOne(all);
    if marker != [] && Occurs(all, marker) {
      OneWrite(all, marker);
      SearchedIsPrefix(chunks, marker);
      var s := Searched(chunks, marker);
      RestFollows(s, all);
      OneCutShows(s, all[|s|..], marker);
      NothingLeft(all, Cut(all, marker));
    }
  }

  lemma FlattenOne(all: seq<Byte>)
    ensures Flatten([all]) == all
  {
    var one: seq<seq<Byte>> := [all];
    assert one[..0] == [];
  }

  lemma RestFollows(s: seq<Byte>, all: seq<Byte>)
    requires s <= all
    ensures s + all[|s|..] == all
  {
  }

  lemma NothingLeft(all: seq<Byte>, out: seq<Byte>)
    ensures out + all[|all|..] == out
  {
  }

  lemma OneWrite(all: seq<Byte>, marker: seq<Byte>)
    requires marker != []
    ensures Flatten([all]) == all && Searched([all], marker) == all
  {
    var one: seq<seq<Byte>> := [all];
    assert one[..0] == [];
  }

  lemma OneCutShows(s: seq<Byte>, rest: seq<Byte>, marker: seq<Byte>)
    requires Occurs(s, marker)
    ensures Occurs(s + rest, marker)
    ensures Cut(s, marker) + rest == Cut(s + rest, marker) <==> !NewlineSplit(s, rest, marker)
  {
    OccursStays(s, rest, marker);
    CutLonger(s, rest, Index(s, marker), |marker|);
  }

  /** The marker and its CR in one Write, the LF in the next: the LF stays. */
  lemma NewlineSplitShows(m: Byte)
    ensures Filtered([[m, CR], [LF]], [m]) != Filtered([[m, CR, LF]], [m])
  {
    var chunks, s, marker := [[m, CR], [LF]], [m, CR], [m];
    OneWrite(s, marker);
    assert chunks[..1] == [s] && Flatten(chunks) == [m, CR, LF];
    assert At(s, marker, 0) && At([m, CR, LF], marker, 0);
    assert Searched(chunks, marker) == s && Flatten(chunks)[|s|..] == [LF];
    assert NewlineSplit(s, [LF], marker);
    ChunkingShows(chunks, marker);
  }

  lemma CutLonger(s: seq<Byte>, rest: seq<Byte>, idx: nat, length: nat)
    requires idx + length <= |s|
    ensures var end := idx + length;
      CutAt(s, idx, length) + rest == CutAt(s + rest, idx, length)
      <==> !SplitNewline(s, rest, end)
  {
    var end := idx + length;
    assert (s + rest)[end..] == s[end..] + rest;
    var short, full := NewlineLength(s[end..]), NewlineLength(s[end..] + rest);
    if short == full {
      assert (s + rest)[end + full..] == s[end + short..] + rest;
      assert (s + rest)[..idx] == s[..idx];
      ConcatAssociative(s[..idx], s[end + short..], rest);
    } else {
      assert |CutAt(s, idx, length) + rest| != |CutAt(s + rest, idx, length)|;
    }
  }
}
