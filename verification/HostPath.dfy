/** Telling hosts from a path in `hosts:path`: `internal/common/common.go`.  `strings.TrimSpace` is a parameter. */
module HostPath {
  import opened Strings

  // ---- Splitting at the first colon ----

  datatype HostAndPath = HostAndPath(hosts: seq<string>, path: string)

  /** Nothing is lost: joined again with commas and a colon, the result is the value. */
  function ParseHostPath(value: string): (r: HostAndPath)
    ensures r.hosts == [] <==> ':' !in value
    ensures r.hosts == [] ==> r.path == value
    ensures r.hosts != [] ==> Join(r.hosts, ',') + ":" + r.path == value && ':' !in Join(r.hosts, ',')
    ensures forall h :: h in r.hosts ==> ',' !in h
  {
    var i := FirstIndex(value, ':');
    if i == -1 then HostAndPath([], value)
    else
      JoinSplit(value[..i], ',');
      assert value == value[..i] + ":" + value[i + 1..];
      HostAndPath(Split(value[..i], ','), value[i + 1..])
  }

  // ---- Looking for known hosts from the right ----

  function Named(s: string, trim: string -> string): string {
    trim(if s != "" && s[0] == '@' then s[1..] else s)
  }

  function NamedAll(parts: seq<string>, trim: string -> string): seq<string> {
    seq(|parts|, i requires 0 <= i < |parts| => Named(parts[i], trim))
  }

  predicate Known(part: string, known: set<string>, trim: string -> string) {
    Named(part, trim) != "" && Named(part, trim) in known
  }

  ghost function KnownNames(knownHosts: seq<string>, trim: string -> string): set<string> {
    set k | k in knownHosts && Named(k, trim) != "" :: Named(k, trim)
  }

  /** The colon at idx ends a selector all of whose parts are known, and a path follows it. */
  ghost predicate Selects(value: string, idx: int, known: set<string>, trim: string -> string) {
    && 0 < idx < |value| - 1
    && value[idx] == ':'
    && (forall part :: part in Split(value[..idx], ',') ==> Known(part, known, trim))
  }

  ghost predicate NoneFrom(value: string, from: int, known: set<string>, trim: string -> string) {
    forall idx :: from <= idx ==> !Selects(value, idx, known, trim)
  }

  /** What the parse is: the rightmost selecting colon decides, and without one the first colon. */
  ghost predicate Parsed(value: string, known: set<string>, trim: string -> string, r: HostAndPath) {
    && (NoneFrom(value, 0, known, trim) ==> r == ParseHostPath(value))
    && (forall idx :: Selects(value, idx, known, trim) && NoneFrom(value, idx + 1, known, trim) ==>
          r == HostAndPath(NamedAll(Split(value[..idx], ','), trim), value[idx + 1..]))
  }

  /** The loop over the comma parts, which replaces each part by its name as long as all are known. */
  method MatchParts(parts: seq<string>, known: set<string>, trim: string -> string)
      returns (matched: bool, hosts: seq<string>)
    ensures matched <==> forall part :: part in parts ==> Known(part, known, trim)
    ensures matched ==> hosts == NamedAll(parts, trim)
  {
    hosts, matched := parts, true;
    for i := 0 to |parts|
      invariant |hosts| == |parts| && hosts[i..] == parts[i..]
      invariant forall j :: 0 <= j < i ==> hosts[j] == Named(parts[j], trim)
      invariant forall j :: 0 <= j < i ==> Known(parts[j], known, trim)
      invariant matched
    {
      var candidate := Named(hosts[i], trim);
      assert hosts[i] == parts[i..][0];
      if candidate == "" || candidate !in known {
        assert !Known(parts[i], known, trim);
        return false, hosts;
      }
      assert hosts[i + 1..] == hosts[i..][1..] == parts[i..][1..] == parts[i + 1..];
      hosts := hosts[i := candidate];
    }
  }

  method KnownHostSet(knownHosts: seq<string>, trim: string -> string) returns (known: set<string>)
    ensures known == KnownNames(knownHosts, trim)
  {
    known := {};
    for i := 0 to |knownHosts|
      invariant known == KnownNames(knownHosts[..i], trim)
    {
      assert knownHosts[..i + 1] == knownHosts[..i] + [knownHosts[i]];
      var name := Named(knownHosts[i], trim);
      if name != "" {
        known := known + {name};
      }
    }
    assert knownHosts[..|knownHosts|] == knownHosts;
  }

  lemma NoSelectorWithoutHosts(value: string, known: set<string>, trim: string -> string)
    requires known == {} || ':' !in value
    ensures NoneFrom(value, 0, known, trim)
  {
    forall idx | 0 < idx < |value| - 1 && known == {} ensures !Selects(value, idx, known, trim) {
      assert !Known(Split(value[..idx], ',')[0], known, trim);
    }
  }

  /** The whole search ends, whatever `trim` does, and finds the rightmost selector. */
  method ParseHostPathWithHosts(value: string, knownHosts: seq<string>, trim: string -> string)
      returns (r: HostAndPath)
    ensures Parsed(value, KnownNames(knownHosts, trim), trim, r)
  {
    var known := KnownHostSet(knownHosts, trim);
    if ':' !in value {
      NoSelectorWithoutHosts(value, known, trim);
      return HostAndPath([], value);
    }
    if known == {} {
      NoSelectorWithoutHosts(value, known, trim);
      return ParseHostPath(value);
    }
    var idx := LastIndex(value, ':');
    while idx >= 0
      invariant -1 <= idx < |value|
      invariant idx >= 0 ==> value[idx] == ':'
      invariant NoneFrom(value, idx + 1, known, trim)
    {
      var selector, candidatePath := value[..idx], value[idx + 1..];
      if selector != "" && candidatePath != "" {
        var matched, hosts := MatchParts(Split(selector, ','), known, trim);
        if matched {
          RightmostDecides(value, idx, known, trim);
          return HostAndPath(hosts, candidatePath);
        }
      }
      assert !Selects(value, idx, known, trim);
      var next := LastIndex(value[..idx], ':');
      NothingBetween(value, next, idx, known, trim);
      idx := next;
    }
    r := ParseHostPath(value);
  }

  lemma RightmostDecides(value: string, idx: int, known: set<string>, trim: string -> string)
    requires Selects(value, idx, known, trim) && NoneFrom(value, idx + 1, known, trim)
    ensures Parsed(value, known, trim, HostAndPath(NamedAll(Split(value[..idx], ','), trim), value[idx + 1..]))
  {
    assert !NoneFrom(value, 0, known, trim);
    forall k | Selects(value, k, known, trim) && NoneFrom(value, k + 1, known, trim) ensures k == idx {
      assert !(idx + 1 <= k) && !(k + 1 <= idx);
    }
  }

  lemma NothingBetween(value: string, next: int, idx: int, known: set<string>, trim: string -> string)
    requires -1 <= next < idx < |value|
    requires ':' !in value[..idx][next + 1..]
    requires NoneFrom(value, idx + 1, known, trim) && !Selects(value, idx, known, trim)
    ensures NoneFrom(value, next + 1, known, trim)
  {
    forall k | next + 1 <= k ensures !Selects(value, k, known, trim) {
      if next < k < idx {
        assert value[k] == value[..idx][next + 1..][k - next - 1];
      }
    }
  }

  // ---- What a caller can rely on ----

  /** The result is unique. */
  lemma ParsedOnce(value: string, known: set<string>, trim: string -> string, r: HostAndPath, s: HostAndPath)
    requires Parsed(value, known, trim, r) && Parsed(value, known, trim, s)
    ensures r == s
  {
    if !NoneFrom(value, 0, known, trim) {
      var idx := Rightmost(value, known, trim, |value|);
    }
  }

  lemma {:induction false} Rightmost(value: string, known: set<string>, trim: string -> string, from: nat)
      returns (idx: int)
    requires !NoneFrom(value, 0, known, trim) && NoneFrom(value, from, known, trim)
    ensures Selects(value, idx, known, trim) && NoneFrom(value, idx + 1, known, trim)
    decreases from
  {
    if from > 0 && NoneFrom(value, from - 1, known, trim) {
      idx := Rightmost(value, known, trim, from - 1);
    } else {
      idx := from - 1;
    }
  }

  /** A known host, listed with or without an `@`, without blanks around it. */
  ghost predicate CleanHost(h: string, knownHosts: seq<string>, trim: string -> string) {
    ',' !in h && h != "" && h[0] != '@' && trim(h) == h && (h in knownHosts || "@" + h in knownHosts)
  }

  /** The hosts as they may be typed: each with or without an `@` in front. */
  ghost predicate TypedAs(typed: seq<string>, hosts: seq<string>) {
    |typed| == |hosts| && forall i :: 0 <= i < |hosts| ==> typed[i] == hosts[i] || typed[i] == "@" + hosts[i]
  }

  ghost predicate AllClean(hosts: seq<string>, knownHosts: seq<string>, trim: string -> string) {
    hosts != [] && forall i :: 0 <= i < |hosts| ==> CleanHost(hosts[i], knownHosts, trim)
  }

  /** `h1,...,hn:path` for known hosts, which may contain colons themselves, comes back as those hosts and that path
      exactly when no colon further right ends a selector of known hosts as well.  An `@` before a host is dropped. */
  lemma RoundTrip(typed: seq<string>, hosts: seq<string>, path: string, knownHosts: seq<string>,
                  trim: string -> string, r: HostAndPath)
    requires AllClean(hosts, knownHosts, trim) && TypedAs(typed, hosts) && path != ""
    requires Parsed(Join(typed, ',') + ":" + path, KnownNames(knownHosts, trim), trim, r)
    ensures r == HostAndPath(hosts, path) <==>
            NoneFrom(Join(typed, ',') + ":" + path, |Join(typed, ',')| + 1, KnownNames(knownHosts, trim), trim)
  {
    var value, known := Join(typed, ',') + ":" + path, KnownNames(knownHosts, trim);
    var at := |Join(typed, ',')|;
    SelectorReads(typed, hosts, path, knownHosts, trim);
    if !NoneFrom(value, at + 1, known, trim) {
      var idx := Rightmost(value, known, trim, |value|);
      assert idx > at;
      assert |r.path| == |value| - idx - 1 < |path|;
    }
  }

  lemma HostIsKnown(part: string, h: string, knownHosts: seq<string>, trim: string -> string)
    requires CleanHost(h, knownHosts, trim) && (part == h || part == "@" + h)
    ensures Named(part, trim) == h && h in KnownNames(knownHosts, trim) && part != "" && ',' !in part
  {
    assert ("@" + h)[1..] == h;
    var k := if h in knownHosts then h else "@" + h;
    assert k in knownHosts && Named(k, trim) == h;
  }

  lemma SelectorReads(typed: seq<string>, hosts: seq<string>, path: string, knownHosts: seq<string>,
                      trim: string -> string)
    requires AllClean(hosts, knownHosts, trim) && TypedAs(typed, hosts) && path != ""
    ensures var selector := Join(typed, ',');
            var value := selector + ":" + path;
            && Selects(value, |selector|, KnownNames(knownHosts, trim), trim)
            && NamedAll(Split(value[..|selector|], ','), trim) == hosts
            && value[|selector| + 1..] == path
  {
    hide CleanHost, Named, KnownNames;
    var selector := Join(typed, ',');
    var value := selector + ":" + path;
    assert value[..|selector|] == selector;
    forall i | 0 <= i < |hosts|
      ensures Named(typed[i], trim) == hosts[i] && Known(typed[i], KnownNames(knownHosts, trim), trim)
      ensures ',' !in typed[i] && typed[i] != ""
    {
      HostIsKnown(typed[i], hosts[i], knownHosts, trim);
      CleanIsNotEmpty(hosts[i], knownHosts, trim);
    }
    SplitJoin(typed, ',');
    assert Split(value[..|selector|], ',') == typed;
    assert |selector| > 0 by {
      assert typed[0] != "";
    }
    assert NamedAll(typed, trim) == hosts;
  }

  lemma CleanIsNotEmpty(h: string, knownHosts: seq<string>, trim: string -> string)
    requires CleanHost(h, knownHosts, trim)
    ensures h != ""
  {
  }

  /** In particular when the path holds no colon. */
  lemma RoundTripPlainPath(typed: seq<string>, hosts: seq<string>, path: string, knownHosts: seq<string>,
                           trim: string -> string, r: HostAndPath)
    requires AllClean(hosts, knownHosts, trim) && TypedAs(typed, hosts) && path != "" && ':' !in path
    requires Parsed(Join(typed, ',') + ":" + path, KnownNames(knownHosts, trim), trim, r)
    ensures r == HostAndPath(hosts, path)
  {
    hide Parsed, Selects, NoneFrom, AllClean, Join, KnownNames, TypedAs;
    RoundTrip(typed, hosts, path, knownHosts, trim, r);
    NotEmpty(typed, hosts, knownHosts, trim);
    var selector := Join(typed, ',');
    assert (selector + ":" + path)[|selector| + 1..] == path;
    NoColonNoSelector(selector + ":" + path, |selector| + 1, KnownNames(knownHosts, trim), trim);
  }

  lemma NotEmpty(typed: seq<string>, hosts: seq<string>, knownHosts: seq<string>, trim: string -> string)
    requires AllClean(hosts, knownHosts, trim) && TypedAs(typed, hosts)
    ensures typed != []
  {
  }

  lemma NoColonNoSelector(value: string, from: nat, known: set<string>, trim: string -> string)
    requires from <= |value| && ':' !in value[from..]
    ensures NoneFrom(value, from, known, trim)
  {
    forall k | from <= k < |value| ensures value[k] != ':' {
      assert value[k] == value[from..][k - from];
    }
  }
}
