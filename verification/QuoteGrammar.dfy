/** The quoting and the balance that the scanners of `internal/pshell/local_process_subst.go` follow character by
    character, as a grammar: backslashes, single quotes and double quotes as section 2.2 of the POSIX Shell Command
    Language has them, and parentheses in pairs. */
module QuoteGrammar {
  import opened ProcessSubst

  // ---- The grammar ----

  /** Between double quotes. */
  datatype Item = Literal(c: char) | Backslashed(c: char)

  datatype Piece = Bare(c: char) | Escaped(c: char) | SingleQuoted(text: string) | DoubleQuoted(items: seq<Item>)

  predicate ValidItems(items: seq<Item>) {
    forall k :: 0 <= k < |items| ==> items[k].Literal? ==> items[k].c != '\"' && items[k].c != '\\'
  }

  predicate ValidPiece(p: Piece) {
    match p
    case Bare(c) => c != '\'' && c != '\"' && c != '\\'
    case Escaped(_) => true
    case SingleQuoted(text) => '\'' !in text
    case DoubleQuoted(items) => ValidItems(items)
  }

  predicate ValidPieces(ps: seq<Piece>) {
    forall k :: 0 <= k < |ps| ==> ValidPiece(ps[k])
  }

  function ItemsText(items: seq<Item>): string {
    if items == [] then ""
    else (if items[0].Literal? then [items[0].c] else ['\\', items[0].c]) + ItemsText(items[1..])
  }

  function PieceText(p: Piece): (t: string)
    ensures t != ""
  {
    match p
    case Bare(c) => [c]
    case Escaped(c) => ['\\', c]
    case SingleQuoted(text) => "'" + text + "'"
    case DoubleQuoted(items) => "\"" + ItemsText(items) + "\""
  }

  function PiecesText(ps: seq<Piece>): string {
    if ps == [] then "" else PieceText(ps[0]) + PiecesText(ps[1..])
  }

  /** A stretch in which every unquoted parenthesis has its partner. */
  datatype Part = Quiet(piece: Piece) | Group(parts: seq<Part>)

  predicate ValidPart(part: Part) {
    match part
    case Quiet(p) => ValidPiece(p) && p != Bare('(') && p != Bare(')')
    case Group(parts) => forall k :: 0 <= k < |parts| ==> ValidPart(parts[k])
  }

  predicate ValidParts(parts: seq<Part>) {
    forall k :: 0 <= k < |parts| ==> ValidPart(parts[k])
  }

  function PartText(part: Part): (t: string)
    ensures t != ""
    decreases part
  {
    match part
    case Quiet(p) => PieceText(p)
    case Group(parts) => "(" + PartsText(parts) + ")"
  }

  function PartsText(parts: seq<Part>): string
    decreases parts
  {
    if parts == [] then "" else PartText(parts[0]) + PartsText(parts[1..])
  }

  // ---- What the scanners make of it ----

  predicate Stands(s: string, at: nat, t: string): (stands: bool)
    ensures stands ==> at + |t| <= |s|
  {
    at + |t| <= |s| && s[at..at + |t|] == t
  }

  lemma StandsSplit(s: string, at: nat, a: string, b: string)
    ensures Stands(s, at, a + b) <==> Stands(s, at, a) && Stands(s, at + |a|, b)
  {
    if at + |a + b| <= |s| {
      var t := s[at..at + |a + b|];
      assert t[..|a|] == s[at..at + |a|] && t[|a|..] == s[at + |a|..at + |a| + |b|];
      assert (a + b)[..|a|] == a && (a + b)[|a|..] == b;
      assert t == t[..|a|] + t[|a|..];
    }
  }

  lemma CharStands(s: string, at: nat, t: string, k: nat)
    requires Stands(s, at, t) && k < |t|
    ensures s[at + k] == t[k]
  {
    assert s[at..at + |t|][k] == t[k];
  }

  /** No character strictly within the stretch is unquoted. */
  ghost predicate Quoted(s: string, from: nat, to: nat)
    requires to <= |s|
  {
    forall k :: from < k < to ==> QuoteAt(s, k) != Plain
  }

  lemma {:induction false} SingleReads(s: string, at: nat, t: string)
    requires Stands(s, at, t) && '\'' !in t && QuoteAt(s, at) == Single
    ensures forall k :: at <= k <= at + |t| ==> QuoteAt(s, k) == Single
    decreases |t|
  {
    if t != "" {
      assert t == [t[0]] + t[1..];
      StandsSplit(s, at, [t[0]], t[1..]);
      CharStands(s, at, t, 0);
      SingleReads(s, at + 1, t[1..]);
    }
  }

  lemma {:induction false} ItemsRead(s: string, at: nat, items: seq<Item>)
    requires Stands(s, at, ItemsText(items)) && ValidItems(items) && QuoteAt(s, at) == Double
    ensures var end := at + |ItemsText(items)|; QuoteAt(s, end) == Double && Quoted(s, at, end)
    decreases |items|
  {
    hide Stands;
    if items != [] {
      var t := if items[0].Literal? then [items[0].c] else ['\\', items[0].c];
      StandsSplit(s, at, t, ItemsText(items[1..]));
      CharStands(s, at, t, 0);
      if items[0].Backslashed? {
        assert QuoteAt(s, at + 1) == DoubleEscape && QuoteAt(s, at + 2) == Double;
      } else {
        assert QuoteAt(s, at + 1) == Double;
      }
      ItemsRead(s, at + |t|, items[1..]);
    }
  }

  /** A piece begins and ends unquoted and is quoted in between. */
  lemma PieceReads(s: string, at: nat, p: Piece)
    requires Stands(s, at, PieceText(p)) && ValidPiece(p) && QuoteAt(s, at) == Plain
    ensures var end := at + |PieceText(p)|; QuoteAt(s, end) == Plain && Quoted(s, at, end)
    ensures s[at] == PieceText(p)[0]
  {
    hide Stands, ItemsText;
    CharStands(s, at, PieceText(p), 0);
    match p
    case Bare(c) =>
    case Escaped(c) =>
      assert QuoteAt(s, at + 1) == PlainEscape;
    case SingleQuoted(text) =>
      Enclosed(s, at, "'", text);
      SingleReads(s, at + 1, text);
    case DoubleQuoted(items) =>
      Enclosed(s, at, "\"", ItemsText(items));
      ItemsRead(s, at + 1, items);
  }

  lemma Enclosed(s: string, at: nat, quote: string, t: string)
    requires Stands(s, at, quote + t + quote) && |quote| == 1
    ensures s[at] == quote[0] && Stands(s, at + 1, t) && s[at + 1 + |t|] == quote[0]
  {
    StandsSplit(s, at, quote + t, quote);
    StandsSplit(s, at, quote, t);
    CharStands(s, at, quote, 0);
    CharStands(s, at + 1 + |t|, quote, 0);
  }

  lemma {:induction false} PiecesRead(s: string, at: nat, ps: seq<Piece>)
    requires Stands(s, at, PiecesText(ps)) && ValidPieces(ps) && QuoteAt(s, at) == Plain
    ensures QuoteAt(s, at + |PiecesText(ps)|) == Plain
    decreases |ps|
  {
    hide Stands, PieceText, QuoteAt, ValidPiece, Quoted;
    if ps != [] {
      StandsSplit(s, at, PieceText(ps[0]), PiecesText(ps[1..]));
      PieceReads(s, at, ps[0]);
      PiecesRead(s, at + |PieceText(ps[0])|, ps[1..]);
    }
  }

  // ---- And back ----

  lemma {:induction false} SingleBody(s: string, from: nat, to: nat)
    requires from < to <= |s| && QuoteAt(s, from) == Single && QuoteAt(s, to) == Plain && Quoted(s, from, to)
    ensures s[to - 1] == '\'' && '\'' !in s[from..to - 1]
    decreases |s| - from
  {
    if s[from] == '\'' {
      assert QuoteAt(s, from + 1) == Plain;
    } else {
      assert QuoteAt(s, from + 1) == Single;
      SingleBody(s, from + 1, to);
      assert s[from..to - 1] == [s[from]] + s[from + 1..to - 1];
    }
  }

  lemma {:induction false} DoubleBody(s: string, from: nat, to: nat) returns (items: seq<Item>)
    requires from < to <= |s| && QuoteAt(s, from) == Double && QuoteAt(s, to) == Plain && Quoted(s, from, to)
    ensures ValidItems(items) && s[from..to] == ItemsText(items) + "\""
    decreases |s| - from
  {
    hide QuoteAt;
    Step(s, from);
    if s[from] == '\"' {
      items := [];
    } else if s[from] == '\\' {
      Step(s, from + 1);
      var rest := DoubleBody(s, from + 2, to);
      items := [Backslashed(s[from + 1])] + rest;
      assert items[1..] == rest && s[from..to] == ['\\', s[from + 1]] + s[from + 2..to];
      assert ItemsText(items) + "\"" == ['\\', s[from + 1]] + (ItemsText(rest) + "\"");
    } else {
      var rest := DoubleBody(s, from + 1, to);
      items := [Literal(s[from])] + rest;
      assert items[1..] == rest && s[from..to] == [s[from]] + s[from + 1..to];
      assert ItemsText(items) + "\"" == [s[from]] + (ItemsText(rest) + "\"");
    }
  }

  lemma PieceOf(s: string, from: nat, to: nat) returns (p: Piece)
    requires from < to <= |s| && QuoteAt(s, from) == Plain && QuoteAt(s, to) == Plain && Quoted(s, from, to)
    ensures ValidPiece(p) && PieceText(p) == s[from..to] && (p.Bare? ==> p == Bare(s[from]))
  {
    hide QuoteAt, ItemsText;
    Step(s, from);
    if s[from] == '\'' {
      SingleBody(s, from + 1, to);
      p := SingleQuoted(s[from + 1..to - 1]);
      SingleText(s, from, to);
    } else if s[from] == '\"' {
      var items := DoubleBody(s, from + 1, to);
      p := DoubleQuoted(items);
      DoubleText(s, from, to, ItemsText(items));
    } else if s[from] == '\\' {
      Step(s, from + 1);
      p := Escaped(s[from + 1]);
    } else {
      p := Bare(s[from]);
    }
  }

  lemma Step(s: string, k: nat)
    requires k < |s|
    ensures QuoteAt(s, k + 1) == NextQuote(QuoteAt(s, k), s[k])
  {
  }

  lemma SingleText(s: string, from: nat, to: nat)
    requires from + 1 < to <= |s| && s[from] == '\'' && s[to - 1] == '\''
    ensures s[from..to] == "'" + s[from + 1..to - 1] + "'"
  {
  }

  lemma DoubleText(s: string, from: nat, to: nat, t: string)
    requires from < to <= |s| && s[from] == '\"' && s[from + 1..to] == t + "\""
    ensures s[from..to] == "\"" + t + "\""
  {
    assert s[from..to] == "\"" + s[from + 1..to];
  }

  lemma {:induction false} NextPlain(s: string, from: nat, to: nat, at: nat) returns (end: nat)
    requires from < at <= to <= |s| && QuoteAt(s, to) == Plain && Quoted(s, from, at)
    ensures from < end <= to && QuoteAt(s, end) == Plain && Quoted(s, from, end)
    decreases |s| - at
  {
    if QuoteAt(s, at) == Plain {
      end := at;
    } else {
      end := NextPlain(s, from, to, at + 1);
    }
  }

  lemma {:induction false} PiecesOf(s: string, from: nat, to: nat) returns (ps: seq<Piece>)
    requires from <= to <= |s| && QuoteAt(s, from) == Plain && QuoteAt(s, to) == Plain
    ensures ValidPieces(ps) && PiecesText(ps) == s[from..to]
    decreases |s| - from
  {
    hide QuoteAt, PieceText, ValidPiece, Quoted;
    if from == to {
      ps := [];
    } else {
      var end := NextPlain(s, from, to, from + 1);
      var p := PieceOf(s, from, end);
      var rest := PiecesOf(s, end, to);
      ps := [p] + rest;
      assert ps[1..] == rest && s[from..to] == s[from..end] + s[end..to];
    }
  }

  /** The text before position i is made of whole pieces. */
  ghost predicate EndsUnquoted(s: string, i: nat) {
    i <= |s| && exists ps :: ValidPieces(ps) && PiecesText(ps) == s[..i]
  }

  /** The scanners take a character as unquoted exactly when whole pieces end before it. */
  lemma UnquotedIff(s: string, i: nat)
    requires i <= |s|
    ensures QuoteAt(s, i) == Plain <==> EndsUnquoted(s, i)
  {
    hide PiecesText;
    if QuoteAt(s, i) == Plain {
      var ps := PiecesOf(s, 0, i);
      assert s[0..i] == s[..i];
    }
    if EndsUnquoted(s, i) {
      var ps :| ValidPieces(ps) && PiecesText(ps) == s[..i];
      assert s[0..i] == s[..i];
      PiecesRead(s, 0, ps);
    }
  }

  // ---- Balance ----

  lemma {:induction false} DepthFlat(s: string, a: nat, b: nat)
    requires a <= b <= |s| && forall k :: a <= k < b ==> Weight(s, k) == 0
    ensures Depth(s, a, b) == 0
  {
    if a < b {
      DepthFlat(s, a, b - 1);
    }
  }

  ghost predicate Upward(s: string, from: nat, to: nat)
    requires from <= to <= |s|
  {
    forall k :: from <= k <= to ==> Depth(s, from, k) >= 0
  }

  lemma UpwardJoins(s: string, a: nat, b: nat, c: nat)
    requires a <= b <= c <= |s| && Upward(s, a, b) && Depth(s, a, b) == 0 && Upward(s, b, c)
    ensures Upward(s, a, c) && Depth(s, a, c) == Depth(s, b, c)
  {
    forall k | b <= k <= c ensures Depth(s, a, k) == Depth(s, b, k) {
      DepthSplits(s, a, b, k);
    }
  }

  lemma PieceIsFlat(s: string, at: nat, p: Piece)
    requires Stands(s, at, PieceText(p)) && ValidPiece(p) && QuoteAt(s, at) == Plain && p != Bare('(') && p != Bare(')')
    ensures var end := at + |PieceText(p)|;
      QuoteAt(s, end) == Plain && Depth(s, at, end) == 0 && Upward(s, at, end)
  {
    PieceReads(s, at, p);
    var end := at + |PieceText(p)|;
    forall k | at <= k < end ensures Weight(s, k) == 0 {
    }
    forall k | at <= k <= end ensures Depth(s, at, k) == 0 {
      DepthFlat(s, at, k);
    }
  }

  lemma {:induction false} PartReads(s: string, at: nat, part: Part)
    requires Stands(s, at, PartText(part)) && ValidPart(part) && QuoteAt(s, at) == Plain
    ensures var end := at + |PartText(part)|;
      QuoteAt(s, end) == Plain && Depth(s, at, end) == 0 && Upward(s, at, end)
    decreases part
  {
    match part
    case Quiet(p) =>
      PieceIsFlat(s, at, p);
    case Group(parts) =>
      GroupStands(s, at, PartsText(parts));
      PartsRead(s, at + 1, parts);
      GroupReads(s, at, at + 1 + |PartsText(parts)|);
  }

  lemma GroupStands(s: string, at: nat, t: string)
    requires Stands(s, at, "(" + t + ")") && QuoteAt(s, at) == Plain
    ensures at + 1 + |t| < |s| && s[at] == '(' && s[at + 1 + |t|] == ')'
    ensures Stands(s, at + 1, t) && QuoteAt(s, at + 1) == Plain
  {
    StandsSplit(s, at, "(" + t, ")");
    StandsSplit(s, at, "(", t);
    CharStands(s, at, "(", 0);
    CharStands(s, at + 1 + |t|, ")", 0);
  }

  lemma GroupReads(s: string, paren: nat, end: nat)
    requires paren < end < |s| && s[paren] == '(' && s[end] == ')' && QuoteAt(s, paren) == Plain == QuoteAt(s, end)
    requires Upward(s, paren + 1, end) && Depth(s, paren + 1, end) == 0
    ensures Closes(s, paren, end) && QuoteAt(s, end + 1) == Plain
    ensures Depth(s, paren, end + 1) == 0 && Upward(s, paren, end + 1)
  {
    assert Depth(s, paren, paren) == 0 && Depth(s, paren, paren + 1) == 1;
    forall k | paren < k <= end ensures Depth(s, paren, k) == 1 + Depth(s, paren + 1, k) {
      DepthSplits(s, paren, paren + 1, k);
    }
    assert Depth(s, paren, end + 1) == Depth(s, paren, end) - 1;
  }

  lemma NoDepth(s: string, at: nat)
    requires at <= |s|
    ensures Depth(s, at, at) == 0 && Upward(s, at, at)
  {
  }

  lemma {:induction false} PartsRead(s: string, at: nat, parts: seq<Part>)
    requires Stands(s, at, PartsText(parts)) && ValidParts(parts) && QuoteAt(s, at) == Plain
    ensures var end := at + |PartsText(parts)|;
      QuoteAt(s, end) == Plain && Depth(s, at, end) == 0 && Upward(s, at, end)
    decreases parts
  {
    hide Stands, QuoteAt, Depth, Upward, PartText, ValidPart;
    if parts == [] {
      NoDepth(s, at);
    } else {
      var first, rest := PartText(parts[0]), PartsText(parts[1..]);
      StandsSplit(s, at, first, rest);
      PartReads(s, at, parts[0]);
      PartsRead(s, at + |first|, parts[1..]);
      UpwardJoins(s, at, at + |first|, at + |first| + |rest|);
    }
  }

  /** Where a stretch first comes back to depth 0. */
  lemma {:induction false} BackToZero(s: string, from: nat, to: nat, at: nat) returns (end: nat)
    requires from < at <= to <= |s| && Depth(s, from, to) == 0 && Upward(s, from, to)
    requires forall k :: from < k < at ==> Depth(s, from, k) > 0
    ensures from < end <= to && Depth(s, from, end) == 0
    ensures forall k :: from < k < end ==> Depth(s, from, k) > 0
    decreases |s| - at
  {
    if Depth(s, from, at) == 0 {
      end := at;
    } else {
      end := BackToZero(s, from, to, at + 1);
    }
  }

  lemma OneStep(s: string, from: nat)
    requires from < |s|
    ensures Depth(s, from, from + 1) == Weight(s, from)
  {
    assert Depth(s, from, from) == 0;
  }

  lemma Within(s: string, from: nat, end: nat)
    requires from + 1 < end <= |s| && s[from] == '(' && QuoteAt(s, from) == Plain
    requires Depth(s, from, end) == 0 && forall k :: from < k < end ==> Depth(s, from, k) > 0
    ensures s[end - 1] == ')' && QuoteAt(s, end - 1) == Plain
    ensures QuoteAt(s, from + 1) == Plain && QuoteAt(s, end) == Plain
    ensures Depth(s, from + 1, end - 1) == 0 && Upward(s, from + 1, end - 1)
  {
    hide Depth, QuoteAt;
    LastStep(s, from, end);
    assert Depth(s, from, end - 1) > 0;
    OneStep(s, from);
    DepthSplits(s, from, from + 1, end - 1);
    UpwardWithin(s, from, from + 1, end - 1);
    UnquotedStep(s, from);
    UnquotedStep(s, end - 1);
  }

  lemma UpwardWithin(s: string, from: nat, next: nat, to: nat)
    requires from < next <= to <= |s| && Depth(s, from, next) == 1
    requires forall k :: next <= k <= to ==> Depth(s, from, k) > 0
    ensures Upward(s, next, to)
  {
    hide Depth;
    forall k | next <= k <= to ensures Depth(s, next, k) >= 0 {
      DepthSplits(s, from, next, k);
      assert Depth(s, from, k) > 0;
    }
  }

  lemma LastStep(s: string, from: nat, end: nat)
    requires from < end <= |s|
    ensures Depth(s, from, end) == Depth(s, from, end - 1) + Weight(s, end - 1)
  {
  }

  lemma UnquotedStep(s: string, k: nat)
    requires k < |s| && QuoteAt(s, k) == Plain && (s[k] == '(' || s[k] == ')')
    ensures QuoteAt(s, k + 1) == Plain
  {
  }

  lemma Behind(s: string, from: nat, end: nat, to: nat)
    requires from <= end <= to <= |s| && Depth(s, from, end) == 0 && Depth(s, from, to) == 0 && Upward(s, from, to)
    ensures Depth(s, end, to) == 0 && Upward(s, end, to)
  {
    forall k | end <= k <= to ensures Depth(s, end, k) == Depth(s, from, k) {
      DepthSplits(s, from, end, k);
    }
  }

  lemma {:induction false} PartsOf(s: string, from: nat, to: nat) returns (parts: seq<Part>)
    requires from <= to <= |s| && QuoteAt(s, from) == Plain == QuoteAt(s, to)
    requires Depth(s, from, to) == 0 && Upward(s, from, to)
    ensures ValidParts(parts) && PartsText(parts) == s[from..to]
    decreases |s| - from
  {
    if from == to {
      parts := [];
    } else {
      var part, end := FirstPart(s, from, to);
      Behind(s, from, end, to);
      var rest := PartsOf(s, end, to);
      parts := [part] + rest;
      assert parts[1..] == rest && s[from..to] == s[from..end] + s[end..to];
    }
  }

  lemma {:induction false} FirstPart(s: string, from: nat, to: nat) returns (part: Part, end: nat)
    requires from < to <= |s| && QuoteAt(s, from) == Plain == QuoteAt(s, to)
    requires Depth(s, from, to) == 0 && Upward(s, from, to)
    ensures from < end <= to && QuoteAt(s, end) == Plain && Depth(s, from, end) == 0
    ensures ValidPart(part) && PartText(part) == s[from..end]
    decreases |s| - from, 0
  {
    hide QuoteAt, Depth, PartText, ValidPart;
    if s[from] == '(' {
      end := BackToZero(s, from, to, from + 1);
      NotAtOnce(s, from, end);
      Within(s, from, end);
      var inner := PartsOf(s, from + 1, end - 1);
      part := Group(inner);
      GroupPart(s, from, end, inner);
    } else {
      end := NextPlain(s, from, to, from + 1);
      part := QuietPart(s, from, end, to);
    }
  }

  lemma NotAtOnce(s: string, from: nat, end: nat)
    requires from < end <= |s| && s[from] == '(' && QuoteAt(s, from) == Plain && Depth(s, from, end) == 0
    ensures from + 1 < end
  {
    OneStep(s, from);
  }

  lemma GroupPart(s: string, from: nat, end: nat, inner: seq<Part>)
    requires from + 1 < end <= |s| && s[from] == '(' && s[end - 1] == ')'
    requires ValidParts(inner) && PartsText(inner) == s[from + 1..end - 1]
    ensures ValidPart(Group(inner)) && PartText(Group(inner)) == s[from..end]
  {
    hide PartsText;
    assert PartText(Group(inner)) == "(" + PartsText(inner) + ")";
    assert s[from..end] == "(" + s[from + 1..end - 1] + ")";
  }

  lemma QuietPart(s: string, from: nat, end: nat, to: nat) returns (part: Part)
    requires from < end <= to <= |s| && QuoteAt(s, from) == Plain == QuoteAt(s, end) && Quoted(s, from, end)
    requires s[from] != '(' && Upward(s, from, to)
    ensures ValidPart(part) && PartText(part) == s[from..end] && Depth(s, from, end) == 0
  {
    hide Depth, PieceText, ValidPiece, Quoted;
    OneStep(s, from);
    assert Depth(s, from, from + 1) >= 0;
    var p := PieceOf(s, from, end);
    part := Quiet(p);
    assert Stands(s, from, PieceText(p));
    PieceIsFlat(s, from, p);
  }

  /** The parenthesis at `end` is the partner of the one at `paren` exactly when what stands between them is
      balanced. */
  lemma ClosesIff(s: string, paren: nat, end: nat)
    requires paren < end < |s| && s[paren] == '(' && QuoteAt(s, paren) == Plain
    ensures Closes(s, paren, end)
       <==> s[end] == ')' && exists parts :: ValidParts(parts) && PartsText(parts) == s[paren + 1..end]
  {
    if Closes(s, paren, end) {
      CloserIsPlain(s, paren, end);
      Within(s, paren, end + 1);
      var parts := PartsOf(s, paren + 1, end);
    }
    forall parts | ValidParts(parts) && PartsText(parts) == s[paren + 1..end] && s[end] == ')'
      ensures Closes(s, paren, end)
    {
      PartsRead(s, paren + 1, parts);
      GroupReads(s, paren, end);
    }
  }

  // ---- Whole commands ----

  /** Text in which nothing opens a substitution, and substitutions. */
  datatype Chunk = Text(pieces: seq<Piece>) | Subst(split: bool, body: seq<Part>)

  predicate ValidChunk(chunk: Chunk) {
    match chunk
    case Text(ps) => ValidPieces(ps) && Bare('<') !in ps && Bare('+') !in ps
    case Subst(_, body) => ValidParts(body)
  }

  function ChunkText(chunk: Chunk): (t: string)
    ensures chunk.Subst? ==> t != ""
  {
    match chunk
    case Text(ps) => PiecesText(ps)
    case Subst(split, body) => (if split then "+<" else "<") + ("(" + PartsText(body) + ")")
  }

  function CommandText(chunks: seq<Chunk>): string {
    if chunks == [] then "" else ChunkText(chunks[0]) + CommandText(chunks[1..])
  }

  function SpansOf(chunks: seq<Chunk>, at: nat): seq<Span> {
    if chunks == [] then []
    else
      var end := at + |ChunkText(chunks[0])|;
      (if chunks[0].Subst? then [Span(at, end - 1)] else []) + SpansOf(chunks[1..], end)
  }

  function SpecsOf(chunks: seq<Chunk>, trim: string -> string): seq<Spec> {
    if chunks == [] then []
    else
      (if chunks[0].Subst? then [Spec(ChunkText(chunks[0]), trim(PartsText(chunks[0].body)), chunks[0].split)] else [])
      + SpecsOf(chunks[1..], trim)
  }

  lemma PieceOpensNothing(s: string, at: nat, p: Piece)
    requires Stands(s, at, PieceText(p)) && ValidPiece(p) && p != Bare('<') && p != Bare('+') && QuoteAt(s, at) == Plain
    ensures QuoteAt(s, at + |PieceText(p)|) == Plain
    ensures forall i :: at <= i < at + |PieceText(p)| ==> !Opener(s, i)
  {
    hide QuoteAt;
    PieceReads(s, at, p);
    assert s[at] != '<' && s[at] != '+';
  }

  lemma {:induction false} NothingOpens(s: string, at: nat, ps: seq<Piece>)
    requires Stands(s, at, PiecesText(ps)) && ValidPieces(ps) && Bare('<') !in ps && Bare('+') !in ps
    requires QuoteAt(s, at) == Plain
    ensures QuoteAt(s, at + |PiecesText(ps)|) == Plain
    ensures forall i :: at <= i < at + |PiecesText(ps)| ==> !Opener(s, i)
    decreases |ps|
  {
    hide Stands, PieceText, QuoteAt, Opener, ValidPiece;
    if ps != [] {
      var p := ps[0];
      StandsSplit(s, at, PieceText(p), PiecesText(ps[1..]));
      assert p in ps;
      PieceOpensNothing(s, at, p);
      NothingOpens(s, at + |PieceText(p)|, ps[1..]);
    }
  }

  lemma SubstReads(s: string, at: nat, split: bool, body: seq<Part>, trim: string -> string)
    requires Stands(s, at, ChunkText(Subst(split, body))) && ValidParts(body) && QuoteAt(s, at) == Plain
    ensures var end := at + |ChunkText(Subst(split, body))|;
      && QuoteAt(s, end) == Plain
      && SpecOf(s, Span(at, end - 1), Spec(ChunkText(Subst(split, body)), trim(PartsText(body)), split), trim)
  {
    hide PartsText, Stands, QuoteAt, Closes, ValidParts, Opener, ParenOf, SpecOf, ChunkText;
    SubstText(split, body);
    var opening, inner := if split then "+<" else "<", PartsText(body);
    StandsSplit(s, at, opening, "(" + inner + ")");
    OpeningReads(s, at, opening);
    GroupCloses(s, at + |opening|, body);
    OpensAt(s, at, opening);
    Slices(s, at, opening, "(" + inner + ")", inner);
    IsSpec(s, at, at + |ChunkText(Subst(split, body))|, split, inner, ChunkText(Subst(split, body)), trim);
  }

  lemma SubstText(split: bool, body: seq<Part>)
    ensures ChunkText(Subst(split, body)) == (if split then "+<" else "<") + ("(" + PartsText(body) + ")")
  {
  }

  lemma IsSpec(s: string, at: nat, end: nat, split: bool, inner: string, raw: string, trim: string -> string)
    requires at < end <= |s| && Opener(s, at) && Closes(s, ParenOf(s, at), end - 1) && s[at..end] == raw
    requires s[ParenOf(s, at) + 1..end - 1] == inner && split == (s[at] == '+')
    ensures SpecOf(s, Span(at, end - 1), Spec(raw, trim(inner), split), trim)
  {
    hide Opener, Closes, ParenOf;
  }

  lemma OpensAt(s: string, at: nat, opening: string)
    requires (opening == "<" || opening == "+<") && at + |opening| < |s| && QuoteAt(s, at) == Plain
    requires s[at] == opening[0] && s[at + |opening| - 1] == '<' && s[at + |opening|] == '('
    ensures Opener(s, at) && ParenOf(s, at) == at + |opening|
  {
    hide QuoteAt;
  }

  lemma GroupCloses(s: string, paren: nat, body: seq<Part>)
    requires Stands(s, paren, "(" + PartsText(body) + ")") && ValidParts(body) && QuoteAt(s, paren) == Plain
    ensures var end := paren + 1 + |PartsText(body)|;
      end < |s| && s[paren] == '(' && Closes(s, paren, end) && QuoteAt(s, end + 1) == Plain
  {
    hide PartsText, Stands, QuoteAt, Closes, Depth, ValidParts;
    GroupStands(s, paren, PartsText(body));
    PartsRead(s, paren + 1, body);
    GroupReads(s, paren, paren + 1 + |PartsText(body)|);
  }

  lemma OpeningReads(s: string, at: nat, opening: string)
    requires Stands(s, at, opening) && (opening == "<" || opening == "+<") && QuoteAt(s, at) == Plain
    ensures at + |opening| <= |s| && QuoteAt(s, at + |opening|) == Plain && s[at] == opening[0]
    ensures s[at + |opening| - 1] == '<'
  {
    CharStands(s, at, opening, 0);
    CharStands(s, at, opening, |opening| - 1);
    assert QuoteAt(s, at + 1) == Plain;
  }

  lemma Slices(s: string, at: nat, opening: string, group: string, inner: string)
    requires Stands(s, at, opening + group) && group == "(" + inner + ")"
    ensures var end := at + |opening + group|;
      s[at..end] == opening + group && s[at + |opening| + 1..end - 1] == inner
  {
    var t, skip := s[at..at + |opening + group|], |opening| + 1;
    assert t[skip..|t| - 1] == group[1..|group| - 1] == inner;
    SliceOfSlice(s, at, at + |t|, skip, |t| - 1);
  }

  lemma SliceOfSlice(s: string, a: nat, b: nat, c: nat, d: nat)
    requires a <= b <= |s| && c <= d <= b - a
    ensures s[a..b][c..d] == s[a + c..a + d]
  {
    forall k | 0 <= k < d - c ensures s[a..b][c..d][k] == s[a + c..a + d][k] {
    }
  }

  /** From a position on, the spans are the substitutions. */
  ghost predicate ListedFrom(s: string, at: nat, spans: seq<Span>, specs: seq<Spec>, trim: string -> string) {
    && Listed(s, spans, specs, trim)
    && (forall k :: 0 <= k < |spans| ==> at <= spans[k].start)
    && (forall i :: at <= i < |s| && Opener(s, i) ==> Covered(spans, i))
  }

  lemma SpanInFront(s: string, at: nat, end: nat, spans: seq<Span>, specs: seq<Spec>, trim: string -> string,
                    spec: Spec)
    requires ListedFrom(s, end, spans, specs, trim) && at < end && SpecOf(s, Span(at, end - 1), spec, trim)
    ensures ListedFrom(s, at, [Span(at, end - 1)] + spans, [spec] + specs, trim)
  {
    hide Opener, SpecOf, Covered;
    var all := [Span(at, end - 1)] + spans;
    assert forall k :: 0 < k < |all| ==> all[k] == spans[k - 1] && ([spec] + specs)[k] == specs[k - 1];
    forall i | at <= i < |s| && Opener(s, i) ensures Covered(all, i) {
      CoveredInFront(at, end, spans, i);
    }
  }

  lemma CoveredInFront(at: nat, end: nat, spans: seq<Span>, i: nat)
    requires at <= i && at < end && (end <= i ==> Covered(spans, i))
    ensures Covered([Span(at, end - 1)] + spans, i)
  {
    var all := [Span(at, end - 1)] + spans;
    if i < end {
      assert all[0].start <= i <= all[0].end;
    } else {
      var k :| 0 <= k < |spans| && spans[k].start <= i <= spans[k].end;
      assert all[k + 1] == spans[k];
    }
  }

  lemma OneChunk(chunk: Chunk, rest: seq<Chunk>, at: nat, trim: string -> string)
    ensures CommandText([chunk] + rest) == ChunkText(chunk) + CommandText(rest)
    ensures var end := at + |ChunkText(chunk)|;
      SpansOf([chunk] + rest, at) == (if chunk.Subst? then [Span(at, end - 1)] else []) + SpansOf(rest, end)
    ensures SpecsOf([chunk] + rest, trim)
         == (if chunk.Subst? then [Spec(ChunkText(chunk), trim(PartsText(chunk.body)), chunk.split)] else [])
            + SpecsOf(rest, trim)
  {
    hide ChunkText, PartsText;
    assert ([chunk] + rest)[1..] == rest;
  }

  lemma NoneListed(s: string, at: nat, trim: string -> string)
    requires at >= |s|
    ensures ListedFrom(s, at, [], [], trim)
  {
  }

  lemma TextOpensNothing(s: string, at: nat, ps: seq<Piece>)
    requires Stands(s, at, ChunkText(Text(ps))) && ValidChunk(Text(ps)) && QuoteAt(s, at) == Plain
    ensures var end := at + |ChunkText(Text(ps))|;
      QuoteAt(s, end) == Plain && forall i :: at <= i < end ==> !Opener(s, i)
  {
    hide Stands, QuoteAt, Opener, PiecesText;
    NothingOpens(s, at, ps);
  }

  lemma ListedEarlier(s: string, at: nat, end: nat, spans: seq<Span>, specs: seq<Spec>, trim: string -> string)
    requires ListedFrom(s, end, spans, specs, trim) && at <= end && forall i :: at <= i < end ==> !Opener(s, i)
    ensures ListedFrom(s, at, spans, specs, trim)
  {
    hide Opener, Closes;
  }

  lemma {:induction false} ChunksListed(s: string, at: nat, chunks: seq<Chunk>, trim: string -> string)
    requires Stands(s, at, CommandText(chunks)) && at + |CommandText(chunks)| == |s| && QuoteAt(s, at) == Plain
    requires forall k :: 0 <= k < |chunks| ==> ValidChunk(chunks[k])
    ensures ListedFrom(s, at, SpansOf(chunks, at), SpecsOf(chunks, trim), trim)
    decreases |chunks|
  {
    hide Opener, SpecOf, Closes, Stands, QuoteAt, ListedFrom, ChunkText, PiecesText, PartsText;
    if chunks == [] {
      NoneListed(s, at, trim);
    } else {
      var chunk, rest := chunks[0], chunks[1..];
      var end := at + |ChunkText(chunk)|;
      StandsSplit(s, at, ChunkText(chunk), CommandText(rest));
      assert [chunk] + rest == chunks;
      OneChunk(chunk, rest, at, trim);
      match chunk
      case Text(ps) =>
        TextOpensNothing(s, at, ps);
        ChunksListed(s, end, rest, trim);
        assert SpansOf(chunks, at) == SpansOf(rest, end) && SpecsOf(chunks, trim) == SpecsOf(rest, trim);
        ListedEarlier(s, at, end, SpansOf(rest, end), SpecsOf(rest, trim), trim);
      case Subst(split, body) =>
        SubstReads(s, at, split, body, trim);
        ChunksListed(s, end, rest, trim);
        SpanInFront(s, at, end, SpansOf(rest, end), SpecsOf(rest, trim), trim,
                    Spec(ChunkText(chunk), trim(PartsText(body)), split));
    }
  }

  /** A command put together from text and substitutions is taken apart into just these substitutions. */
  lemma TakenApart(chunks: seq<Chunk>, trim: string -> string)
    requires forall k :: 0 <= k < |chunks| ==> ValidChunk(chunks[k])
    ensures Parsed(CommandText(chunks), trim, SpansOf(chunks, 0), SpecsOf(chunks, trim))
    ensures !Unterminated(CommandText(chunks))
    ensures forall spans, specs :: Parsed(CommandText(chunks), trim, spans, specs) ==> specs == SpecsOf(chunks, trim)
  {
    var s := CommandText(chunks);
    assert s[0..|s|] == s;
    ChunksListed(s, 0, chunks, trim);
    ParsedTerminates(s, trim, SpansOf(chunks, 0), SpecsOf(chunks, trim));
    forall spans, specs | Parsed(s, trim, spans, specs) ensures specs == SpecsOf(chunks, trim) {
      ParsedOnce(s, trim, spans, specs, SpansOf(chunks, 0), SpecsOf(chunks, trim));
    }
  }

  // ---- Any string, quoted ----

  /** A backslash before each double quote and backslash. */
  function Slashed(s: string): string {
    if s == "" then "" else (if s[0] == '\"' || s[0] == '\\' then ['\\', s[0]] else [s[0]]) + Slashed(s[1..])
  }

  /** A backslash before each character. */
  function AllSlashed(s: string): string {
    if s == "" then "" else ['\\', s[0]] + AllSlashed(s[1..])
  }

  lemma {:induction false} SlashedIsItems(s: string) returns (items: seq<Item>)
    ensures ValidItems(items) && ItemsText(items) == Slashed(s)
  {
    if s == "" {
      items := [];
    } else {
      var rest := SlashedIsItems(s[1..]);
      items := [if s[0] == '\"' || s[0] == '\\' then Backslashed(s[0]) else Literal(s[0])] + rest;
      assert items[1..] == rest;
    }
  }

  lemma {:induction false} AllSlashedIsPieces(s: string) returns (ps: seq<Piece>)
    ensures ValidPieces(ps) && PiecesText(ps) == AllSlashed(s) && forall p <- ps :: p.Escaped?
  {
    if s == "" {
      ps := [];
    } else {
      var rest := AllSlashedIsPieces(s[1..]);
      ps := [Escaped(s[0])] + rest;
      assert ps[1..] == rest;
    }
  }

  /** A text of either kind hides whatever it holds, and a substitution after it is found. */
  lemma QuotedTextHides(s: string, t: string, split: bool, body: seq<Part>, trim: string -> string)
    requires (t == "\"" + Slashed(s) + "\"" || t == AllSlashed(s)) && ValidParts(body)
    ensures Parsed(t, trim, [], [])
    ensures var raw := (if split then "+<" else "<") + ("(" + PartsText(body) + ")");
      Parsed(t + raw, trim, [Span(|t|, |t + raw| - 1)], [Spec(raw, trim(PartsText(body)), split)])
  {
    hide Parsed, PartsText, Slashed, AllSlashed, ItemsText, PiecesText;
    if t == AllSlashed(s) {
      var ps := AllSlashedIsPieces(s);
      TextHides(ps, split, body, trim);
    } else {
      var items := SlashedIsItems(s);
      var ps := [DoubleQuoted(items)];
      OnePiece(DoubleQuoted(items));
      TextHides(ps, split, body, trim);
    }
  }

  lemma OnePiece(p: Piece)
    ensures PiecesText([p]) == PieceText(p)
  {
    assert [p][1..] == [] && PieceText(p) + "" == PieceText(p);
  }

  lemma TextHides(ps: seq<Piece>, split: bool, body: seq<Part>, trim: string -> string)
    requires ValidChunk(Text(ps)) && ValidParts(body)
    ensures var t, raw := PiecesText(ps), ChunkText(Subst(split, body));
      && Parsed(t, trim, [], [])
      && Parsed(t + raw, trim, [Span(|t|, |t + raw| - 1)], [Spec(raw, trim(PartsText(body)), split)])
  {
    hide PiecesText, PartsText, Parsed, Unterminated;
    var text, subst := Text(ps), Subst(split, body);
    var t, raw := ChunkText(text), ChunkText(subst);
    TakenApart([text], trim);
    OneChunk(text, [], 0, trim);
    assert [text] + [] == [text] && t + "" == t;
    TakenApart([text, subst], trim);
    OneChunk(text, [subst], 0, trim);
    OneChunk(subst, [], |t|, trim);
    assert [text] + [subst] == [text, subst] && [subst] + [] == [subst] && raw + "" == raw;
    assert SpansOf([text, subst], 0) == [Span(|t|, |t + raw| - 1)];
    assert SpecsOf([text, subst], trim) == [Spec(raw, trim(PartsText(body)), split)];
  }
}
