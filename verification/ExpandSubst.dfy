/** `expandLocalProcessSubstitutions` of `internal/pshell/local_process_subst.go`: the quoted paths of the results are
    put where the text of each substitution first occurs, one substitution after the other. */
module ExpandSubst {
  // ---- The library's replacement of the first occurrence ----

  predicate StandsAt(s: string, raw: string, j: int) {
    0 <= j && j + |raw| <= |s| && s[j..j + |raw|] == raw
  }

  function FirstAt(s: string, raw: string, from: nat): (j: int)
    requires from <= |s| + 1
    ensures j >= 0 ==> from <= j && StandsAt(s, raw, j) && forall i :: from <= i < j ==> !StandsAt(s, raw, i)
    ensures j < 0 ==> j == -1 && forall i :: from <= i ==> !StandsAt(s, raw, i)
    decreases |s| + 1 - from
  {
    if from + |raw| > |s| then -1 else if StandsAt(s, raw, from) then from else FirstAt(s, raw, from + 1)
  }

  function ReplacedAt(s: string, raw: string, words: string, j: int): string {
    if StandsAt(s, raw, j) then s[..j] + words + s[j + |raw|..] else s
  }

  function ReplaceFirst(s: string, raw: string, words: string): string {
    ReplacedAt(s, raw, words, FirstAt(s, raw, 0))
  }

  /** The text occurs in `line`, starting before position n. */
  ghost predicate EarlierCopy(line: string, raw: string, n: nat) {
    exists j :: j < n && StandsAt(line, raw, j)
  }

  lemma ReplacedApart(line: string, raw: string, words: string, j: nat, n: nat)
    requires StandsAt(line, raw, j) && StandsAt(line, raw, n) && j < n
    requires words != "" && raw != "" && words[0] != raw[0]
    ensures ReplacedAt(line, raw, words, j) != ReplacedAt(line, raw, words, n)
  {
    assert ReplacedAt(line, raw, words, j)[j] == words[0];
    assert ReplacedAt(line, raw, words, n)[j] == line[j] == line[j..j + |raw|][0] == raw[0];
  }

  /** One replacement hits the place n exactly when there is no earlier copy of the text, quoted or not. */
  lemma ReplacedInPlace(line: string, raw: string, n: nat, words: string)
    requires StandsAt(line, raw, n) && raw != "" && words != "" && words[0] != raw[0]
    ensures ReplaceFirst(line, raw, words) == ReplacedAt(line, raw, words, n) <==> !EarlierCopy(line, raw, n)
  {
    var j := FirstAt(line, raw, 0);
    assert 0 <= j <= n;
    assert EarlierCopy(line, raw, n) <==> j < n;
    if j < n {
      ReplacedApart(line, raw, words, j, n);
    }
  }

  // ---- The loop, and what it is meant to do ----

  ghost predicate Turn(lines: seq<string>, raws: seq<string>, words: seq<string>, k: nat) {
    k < |raws| && k < |words| && k + 1 < |lines| && lines[k + 1] == ReplaceFirst(lines[k], raws[k], words[k])
  }

  /** The line before the loop and after each of its turns. */
  ghost predicate Turns(lines: seq<string>, raws: seq<string>, words: seq<string>) {
    |lines| == |raws| + 1 == |words| + 1 && forall k :: 0 <= k < |raws| ==> Turn(lines, raws, words, k)
  }

  /** Quoted words are put in for a text that starts with no quote. */
  ghost predicate Puts(raws: seq<string>, words: seq<string>, k: nat) {
    k < |raws| && k < |words| && raws[k] != "" && raws[k][0] != '\'' && words[k] != "" && words[k][0] == '\''
  }

  ghost predicate Put(parts: seq<string>, raws: seq<string>, words: seq<string>, places: seq<nat>, k: nat) {
    && Puts(raws, words, k) && k < |places| && k + 1 < |parts|
    && StandsAt(parts[k], raws[k], places[k])
    && parts[k + 1] == ReplacedAt(parts[k], raws[k], words[k], places[k])
    && (k > 0 ==> places[k - 1] <= places[k])
  }

  /** Each text is replaced, by quoted words, where it is meant to be, from left to right. */
  ghost predicate PutInPlace(parts: seq<string>, raws: seq<string>, words: seq<string>, places: seq<nat>) {
    && |parts| == |raws| + 1 == |words| + 1 == |places| + 1
    && forall k :: 0 <= k < |raws| ==> Put(parts, raws, words, places, k)
  }

  /** The text does not occur before its place in the line as it is then. */
  ghost predicate NoCopyBefore(parts: seq<string>, raws: seq<string>, places: seq<nat>, k: nat) {
    k < |parts| && k < |raws| && k < |places| && !EarlierCopy(parts[k], raws[k], places[k])
  }

  lemma TurnInPlace(lines: seq<string>, parts: seq<string>, raws: seq<string>, words: seq<string>, places: seq<nat>,
                    k: nat)
    requires Turn(lines, raws, words, k) && Put(parts, raws, words, places, k) && lines[k] == parts[k]
    ensures lines[k + 1] == parts[k + 1] <==> NoCopyBefore(parts, raws, places, k)
  {
    ReplacedInPlace(parts[k], raws[k], places[k], words[k]);
  }

  ghost predicate SameUpTo(lines: seq<string>, parts: seq<string>, n: nat) {
    n < |lines| && n < |parts| && forall k :: 0 <= k <= n ==> lines[k] == parts[k]
  }

  ghost predicate NoCopies(parts: seq<string>, raws: seq<string>, places: seq<nat>, n: nat) {
    forall k :: 0 <= k < n ==> NoCopyBefore(parts, raws, places, k)
  }

  /** The line is as it should be after every turn exactly when no text occurs before its place in the
      line as it is then. */
  lemma {:induction false} EachTurnInPlaceIff(lines: seq<string>, parts: seq<string>, raws: seq<string>,
                                              words: seq<string>, places: seq<nat>, n: nat)
    requires Turns(lines, raws, words) && PutInPlace(parts, raws, words, places) && lines[0] == parts[0] && n <= |raws|
    ensures SameUpTo(lines, parts, n) <==> NoCopies(parts, raws, places, n)
  {
    if n > 0 {
      EachTurnInPlaceIff(lines, parts, raws, words, places, n - 1);
      assert SameUpTo(lines, parts, n) <==> SameUpTo(lines, parts, n - 1) && lines[n] == parts[n];
      if SameUpTo(lines, parts, n - 1) {
        assert Turn(lines, raws, words, n - 1) && Put(parts, raws, words, places, n - 1);
        TurnInPlace(lines, parts, raws, words, places, n - 1);
      }
    }
  }

  // ---- A misplaced replacement is never repaired ----

  /** The line has a quote where the other one has none, and no difference before that. */
  ghost predicate Astray(line: string, wanted: string, m: nat) {
    m < |line| && m < |wanted| && line[..m] == wanted[..m] && line[m] == '\'' && wanted[m] != '\''
  }

  lemma StaysAstray(line: string, wanted: string, m: nat, raw: string, words: string) returns (m': nat)
    requires Astray(line, wanted, m) && raw != "" && raw[0] != '\'' && words != "" && words[0] == '\''
    ensures Astray(ReplaceFirst(line, raw, words), wanted, m')
  {
    var j := FirstAt(line, raw, 0);
    if j < 0 {
      m' := m;
    } else {
      assert line[j] == line[j..j + |raw|][0] == raw[0];
      PutElsewhere(line, wanted, m, line[..j], words, line[j + |raw|..], j);
      m' := if j < m then j else m;
    }
  }

  lemma PutElsewhere(line: string, wanted: string, m: nat, before: string, words: string, rest: string, j: nat)
    requires Astray(line, wanted, m) && j < |line| && before == line[..j] && line[j] != '\''
    requires words != "" && words[0] == '\''
    ensures Astray(before + words + rest, wanted, if j < m then j else m)
  {
    var now := before + words + rest;
    assert now[..j] == line[..j] && now[j] == words[0];
    if j < m {
      assert line[..j] == line[..m][..j] && wanted[..j] == wanted[..m][..j]
        && line[j] == line[..m][j] == wanted[..m][j];
    } else {
      assert now[..m] == now[..j][..m] == line[..m] && now[m] == now[..j][m] == line[..j][m];
    }
  }

  lemma {:induction false} AstrayToTheEnd(lines: seq<string>, raws: seq<string>, words: seq<string>, k: nat,
                                          wanted: string, m: nat)
    requires Turns(lines, raws, words) && k < |lines| && Astray(lines[k], wanted, m)
    requires forall i :: 0 <= i < |raws| ==> Puts(raws, words, i)
    ensures lines[|lines| - 1] != wanted
    decreases |lines| - k
  {
    if k < |raws| {
      assert Turn(lines, raws, words, k) && Puts(raws, words, k);
      var m' := StaysAstray(lines[k], wanted, m, raws[k], words[k]);
      AstrayToTheEnd(lines, raws, words, k + 1, wanted, m');
    }
  }

  /** What stands before a place stays. */
  lemma {:induction false} BeforeStays(parts: seq<string>, raws: seq<string>, words: seq<string>, places: seq<nat>,
                                       k: nat, m: nat)
    requires PutInPlace(parts, raws, words, places) && k < |raws| && k <= m <= |raws|
    ensures places[k] <= |parts[k]| && places[k] <= |parts[m]| && parts[m][..places[k]] == parts[k][..places[k]]
    ensures m > k ==> places[k] <= places[m - 1]
  {
    assert Put(parts, raws, words, places, k);
    if k < m {
      BeforeStays(parts, raws, words, places, k, m - 1);
      assert Put(parts, raws, words, places, m - 1);
      KeepsFront(parts[m - 1], raws[m - 1], words[m - 1], places[m - 1], places[k]);
    }
  }

  lemma KeepsFront(s: string, raw: string, words: string, j: nat, n: nat)
    requires n <= j && StandsAt(s, raw, j)
    ensures n <= |ReplacedAt(s, raw, words, j)| && ReplacedAt(s, raw, words, j)[..n] == s[..n]
  {
    assert (s[..j] + words + s[j + |raw|..])[..j] == s[..j];
  }

  /** Where a copy stands before the place, the words go astray. */
  lemma GoesAstray(line: string, raw: string, n: nat, words: string, wanted: string) returns (m: nat)
    requires StandsAt(line, raw, n) && EarlierCopy(line, raw, n) && n <= |wanted| && line[..n] == wanted[..n]
    requires raw != "" && raw[0] != '\'' && words != "" && words[0] == '\''
    ensures Astray(ReplaceFirst(line, raw, words), wanted, m)
  {
    m := FirstAt(line, raw, 0);
    assert m < n && line[m] == line[m..m + |raw|][0] == raw[0];
    assert line[m] == line[..n][m] == wanted[..n][m] && line[..m] == line[..n][..m] == wanted[..n][..m];
  }

  lemma CopyMisplaces(lines: seq<string>, parts: seq<string>, raws: seq<string>, words: seq<string>, places: seq<nat>,
                      k: nat)
    requires Turns(lines, raws, words) && PutInPlace(parts, raws, words, places) && k < |raws| && lines[k] == parts[k]
    requires !NoCopyBefore(parts, raws, places, k)
    ensures lines[|raws|] != parts[|raws|]
  {
    var wanted := parts[|raws|];
    assert Turn(lines, raws, words, k) && Put(parts, raws, words, places, k);
    BeforeStays(parts, raws, words, places, k, |raws|);
    var m := GoesAstray(parts[k], raws[k], places[k], words[k], wanted);
    forall i | 0 <= i < |raws| ensures Puts(raws, words, i) {
      assert Put(parts, raws, words, places, i);
    }
    AstrayToTheEnd(lines, raws, words, k + 1, wanted, m);
  }

  lemma {:induction false} LeastCopy(parts: seq<string>, raws: seq<string>, places: seq<nat>, n: nat) returns (k: nat)
    requires !NoCopies(parts, raws, places, n)
    ensures k < n && !NoCopyBefore(parts, raws, places, k) && NoCopies(parts, raws, places, k)
  {
    if NoCopies(parts, raws, places, n - 1) {
      k := n - 1;
    } else {
      k := LeastCopy(parts, raws, places, n - 1);
    }
  }

  /** The whole loop ends as it is meant to under the same condition: what goes wrong at one turn is wrong at the
      end. */
  lemma EndsInPlaceIff(lines: seq<string>, parts: seq<string>, raws: seq<string>, words: seq<string>, places: seq<nat>)
    requires Turns(lines, raws, words) && PutInPlace(parts, raws, words, places) && lines[0] == parts[0]
    ensures lines[|raws|] == parts[|raws|] <==> NoCopies(parts, raws, places, |raws|)
  {
    EachTurnInPlaceIff(lines, parts, raws, words, places, |raws|);
    if !NoCopies(parts, raws, places, |raws|) {
      var k := LeastCopy(parts, raws, places, |raws|);
      EachTurnInPlaceIff(lines, parts, raws, words, places, k);
      CopyMisplaces(lines, parts, raws, words, places, k);
    }
  }
}
