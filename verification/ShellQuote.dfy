/** `shellQuote` and `joinShellWords` of `internal/pshell/local_process_subst.go`, against the word splitting and quote
    removal of the POSIX shell (Shell Command Language, section 2.2). */
module ShellQuote {
  import opened Options
  import opened ProcessSubst

  // ---- The code ----

  /** Every single quote becomes '"'"': out of the quotes, a double-quoted single quote, and back in. */
  function Escaped(s: string): string {
    if s == "" then "" else (if s[0] == '\'' then "'\"'\"'" else [s[0]]) + Escaped(s[1..])
  }

  function Quoted(s: string): string {
    if s == "" then "''" else "'" + Escaped(s) + "'"
  }

  function Spaced(words: seq<string>): string {
    if words == [] then ""
    else if |words| == 1 then words[0]
    else Spaced(words[..|words| - 1]) + " " + words[|words| - 1]
  }

  function JoinShellWords(words: seq<string>): string {
    Spaced(seq(|words|, i requires 0 <= i < |words| => Quoted(words[i])))
  }

  // ---- The shell ----

  /** Characters that an unquoted word cannot carry literally: operators, expansions, patterns, comments, newline. */
  const SPECIAL := "|&;<>()$`*?[#~=%!{}\n"

  /** The words of a line, quotes removed, when it is nothing but words.  `word` is the word being read, if one has
      begun, and `done` the words before it. */
  function Words(line: string, q: Quote, word: Option<string>, done: seq<string>): Option<seq<string>>
    requires q != Plain ==> word.Some?
  {
    if line == "" then
      if q != Plain then None else Some(done + if word.Some? then [word.value] else [])
    else
      var c, rest := line[0], line[1..];
      var so := if word.Some? then word.value else "";
      match q
      case Plain =>
        if c == ' ' || c == '\t' then Words(rest, Plain, None, done + if word.Some? then [word.value] else [])
        else if c in SPECIAL then None
        else if c == '\'' then Words(rest, Single, Some(so), done)
        else if c == '\"' then Words(rest, Double, Some(so), done)
        else if c == '\\' then Words(rest, PlainEscape, Some(so), done)
        else Words(rest, Plain, Some(so + [c]), done)
      case PlainEscape =>
        Words(rest, Plain, Some(if c == '\n' then so else so + [c]), done)
      case Single =>
        if c == '\'' then Words(rest, Plain, Some(so), done) else Words(rest, Single, Some(so + [c]), done)
      case Double =>
        if c == '$' || c == '`' then None
        else if c == '\"' then Words(rest, Plain, Some(so), done)
        else if c == '\\' then Words(rest, DoubleEscape, Some(so), done)
        else Words(rest, Double, Some(so + [c]), done)
      case DoubleEscape =>
        Words(rest, Double,
              Some(if c == '\n' then so else if c in "$`\"\\" then so + [c] else so + ['\\', c]), done)
  }

  /** The shell takes the same characters as quoted as the scanner: having read any part of a line of words, it goes on
      from the scanner's quoting. */
  lemma {:induction false} ShellFollowsScanner(line: string, i: nat) returns (word: Option<string>, done: seq<string>)
    requires i <= |line| && Words(line, Plain, None, []).Some?
    ensures QuoteAt(line, i) != Plain ==> word.Some?
    ensures Words(line[i..], QuoteAt(line, i), word, done) == Words(line, Plain, None, [])
  {
    if i == 0 {
      word, done := None, [];
      assert line[0..] == line;
    } else {
      var before, done' := ShellFollowsScanner(line, i - 1);
      assert line[i - 1..][1..] == line[i..];
      word, done := OneCharacter(line[i - 1..], QuoteAt(line, i - 1), before, done');
    }
  }

  lemma OneCharacter(rest: string, q: Quote, before: Option<string>, done: seq<string>)
      returns (word: Option<string>, done': seq<string>)
    requires rest != "" && (q != Plain ==> before.Some?) && Words(rest, q, before, done).Some?
    ensures NextQuote(q, rest[0]) != Plain ==> word.Some?
    ensures Words(rest[1..], NextQuote(q, rest[0]), word, done') == Words(rest, q, before, done)
  {
    var c, so := rest[0], if before.Some? then before.value else "";
    word, done' := before, done;
    match q
    case Plain =>
      if c == ' ' || c == '\t' {
        word, done' := None, done + if before.Some? then [before.value] else [];
      } else {
        word := Some(if c == '\'' || c == '\"' || c == '\\' then so else so + [c]);
      }
    case PlainEscape =>
      word := Some(if c == '\n' then so else so + [c]);
    case Single =>
      word := Some(if c == '\'' then so else so + [c]);
    case Double =>
      word := Some(if c == '\"' || c == '\\' then so else so + [c]);
    case DoubleEscape =>
      word := Some(if c == '\n' then so else if c in "$`\"\\" then so + [c] else so + ['\\', c]);
  }

  lemma {:induction false} EscapedReads(s: string, rest: string, word: string, done: seq<string>)
    ensures Words(Escaped(s) + "'" + rest, Single, Some(word), done) == Words(rest, Plain, Some(word + s), done)
  {
    var line := Escaped(s) + "'" + rest;
    if s == "" {
      assert line[1..] == rest && word + s == word;
    } else {
      var tail := Escaped(s[1..]) + "'" + rest;
      assert word + s == word + [s[0]] + s[1..];
      EscapedReads(s[1..], rest, word + [s[0]], done);
      if s[0] == '\'' {
        assert line == "'\"'\"'" + tail;
        QuoteInQuotes(tail, word, done);
      } else {
        assert line[1..] == tail;
      }
    }
  }

  lemma QuoteInQuotes(tail: string, word: string, done: seq<string>)
    ensures Words("'\"'\"'" + tail, Single, Some(word), done) == Words(tail, Single, Some(word + "'"), done)
  {
    var l2, l4 := "'\"'" + tail, "'" + tail;
    assert ("'\"'\"'" + tail)[1..] == "\"" + l2;
    QuoteOpens('\"', l2, word, done);
    assert l2[1..] == "\"" + l4;
    assert ("\"" + l4)[1..] == l4;
    assert Words(l2, Double, Some(word), done) == Words("\"" + l4, Double, Some(word + "'"), done);
    assert Words("\"" + l4, Double, Some(word + "'"), done) == Words(l4, Plain, Some(word + "'"), done);
    QuoteOpens('\'', tail, word + "'", done);
  }

  lemma QuoteOpens(quote: char, rest: string, word: string, done: seq<string>)
    requires quote == '\'' || quote == '\"'
    ensures Words([quote] + rest, Plain, Some(word), done)
      == Words(rest, if quote == '\'' then Single else Double, Some(word), done)
  {
    assert ([quote] + rest)[1..] == rest;
  }

  /** The shell reads a quoted string back as that one string, whatever it holds. */
  lemma QuotedReads(s: string, rest: string, done: seq<string>)
    ensures Words(Quoted(s) + rest, Plain, None, done) == Words(rest, Plain, Some(s), done)
  {
    var line := Quoted(s) + rest;
    assert line[1..] == Escaped(s) + "'" + rest;
    EscapedReads(s, rest, "", done);
    assert "" + s == s;
  }

  ghost function QuotedWords(words: seq<string>): seq<string> {
    seq(|words|, i requires 0 <= i < |words| => Quoted(words[i]))
  }

  lemma JoinStep(words: seq<string>)
    requires |words| > 1
    ensures JoinShellWords(words) == JoinShellWords(words[..|words| - 1]) + " " + Quoted(words[|words| - 1])
  {
    assert QuotedWords(words)[..|words| - 1] == QuotedWords(words[..|words| - 1]);
  }

  /** Quoting brings in nothing but quotes, and joining nothing but spaces. */
  lemma {:induction false} JoinKeepsOut(words: seq<string>, c: char)
    requires c != '\'' && c != '\"' && c != ' ' && forall w <- words :: c !in w
    ensures c !in JoinShellWords(words)
  {
    if words != [] {
      var n := |words| - 1;
      assert words[n] in words;
      EscapedKeepsOut(words[n], c);
      if n > 0 {
        JoinKeepsOut(words[..n], c);
        JoinStep(words);
      }
    }
  }

  lemma {:induction false} EscapedKeepsOut(s: string, c: char)
    requires c != '\'' && c != '\"' && c !in s
    ensures c !in Escaped(s)
  {
    if s != "" {
      EscapedKeepsOut(s[1..], c);
    }
  }

  lemma {:induction false} JoinReads(words: seq<string>, rest: string, done: seq<string>)
    requires words != []
    ensures Words(JoinShellWords(words) + rest, Plain, None, done)
         == Words(rest, Plain, Some(words[|words| - 1]), done + words[..|words| - 1])
  {
    var n := |words| - 1;
    if n == 0 {
      assert done + words[..0] == done;
      QuotedReads(words[0], rest, done);
    } else {
      var tail := " " + (Quoted(words[n]) + rest);
      JoinStep(words);
      assert JoinShellWords(words) + rest == JoinShellWords(words[..n]) + tail;
      JoinReads(words[..n], tail, done);
      LastMoves(done, words, n);
      NextWordReads(words[n - 1], words[n], rest, done + words[..n][..n - 1]);
    }
  }

  lemma LastMoves(done: seq<string>, words: seq<string>, n: nat)
    requires 0 < n < |words|
    ensures done + words[..n][..n - 1] + [words[n - 1]] == done + words[..n]
  {
  }

  lemma NextWordReads(word: string, next: string, rest: string, done: seq<string>)
    ensures Words(" " + (Quoted(next) + rest), Plain, Some(word), done) == Words(rest, Plain, Some(next), done + [word])
  {
    assert (" " + (Quoted(next) + rest))[1..] == Quoted(next) + rest;
    QuotedReads(next, rest, done + [word]);
  }

  /** Quoting and joining any words, then splitting them as the shell does, gives the same words. */
  lemma JoinRoundTrip(words: seq<string>)
    ensures Words(JoinShellWords(words), Plain, None, []) == Some(words)
  {
    if words == [] {
      assert JoinShellWords(words) == "";
    } else {
      var n := |words| - 1;
      JoinReads(words, "", []);
      assert JoinShellWords(words) + "" == JoinShellWords(words);
      assert words == [] + words[..n] + [words[n]];
    }
  }

  // ---- The scanner in quoted text ----

  function After(q: Quote, s: string): Quote
    decreases s
  {
    if s == "" then q else After(NextQuote(q, s[0]), s[1..])
  }

  /** Unquoted characters of s start no substitution. */
  predicate Inert(q: Quote, s: string)
    decreases s
  {
    s == "" || ((q == Plain ==> s[0] != '<' && s[0] != '+') && Inert(NextQuote(q, s[0]), s[1..]))
  }

  lemma {:induction false} InertAppend(q: Quote, s: string, t: string)
    requires Inert(q, s) && Inert(After(q, s), t)
    ensures Inert(q, s + t) && After(q, s + t) == After(After(q, s), t)
    decreases s
  {
    if s == "" {
      assert s + t == t;
    } else {
      assert (s + t)[1..] == s[1..] + t;
      InertAppend(NextQuote(q, s[0]), s[1..], t);
    }
  }

  lemma {:induction false} EscapedIsInert(s: string)
    ensures Inert(Single, Escaped(s) + "'") && After(Single, Escaped(s) + "'") == Plain
  {
    if s != "" {
      var tail := Escaped(s[1..]) + "'";
      EscapedIsInert(s[1..]);
      if s[0] == '\'' {
        QuoteInQuotesIsInert();
        InertAppend(Single, "'\"'\"'", tail);
        assert Escaped(s) + "'" == "'\"'\"'" + tail;
      } else {
        InertAppend(Single, [s[0]], tail);
        assert Escaped(s) + "'" == [s[0]] + tail;
      }
    }
  }

  lemma QuoteInQuotesIsInert()
    ensures Inert(Single, "'\"'\"'") && After(Single, "'\"'\"'") == Single
  {
    var l1, l2, l3, l4 := "\"'\"'", "'\"'", "\"'", "'";
    assert "'\"'\"'"[1..] == l1 && l1[1..] == l2 && l2[1..] == l3 && l3[1..] == l4 && l4[1..] == "";
    assert Inert(Plain, l4) && After(Plain, l4) == Single;
    assert Inert(Double, l3) && After(Double, l3) == Single;
    assert Inert(Double, l2) && After(Double, l2) == Single;
    assert Inert(Plain, l1) && After(Plain, l1) == Single;
  }

  lemma QuotedIsInert(s: string)
    ensures Inert(Plain, Quoted(s)) && After(Plain, Quoted(s)) == Plain
  {
    EscapedIsInert(s);
    assert Inert(Plain, "'") && After(Plain, "'") == Single;
    InertAppend(Plain, "'", Escaped(s) + "'");
    assert Quoted(s) == "'" + (Escaped(s) + "'");
  }

  lemma {:induction false} JoinIsInert(words: seq<string>)
    ensures Inert(Plain, JoinShellWords(words)) && After(Plain, JoinShellWords(words)) == Plain
  {
    if |words| == 1 {
      QuotedIsInert(words[0]);
    } else if |words| > 1 {
      var n := |words| - 1;
      JoinStep(words);
      JoinIsInert(words[..n]);
      QuotedIsInert(words[n]);
      assert Inert(Plain, " ") && After(Plain, " ") == Plain;
      InertAppend(Plain, JoinShellWords(words[..n]), " ");
      InertAppend(Plain, JoinShellWords(words[..n]) + " ", Quoted(words[n]));
    }
  }

  lemma {:induction false} InertHasNoOpener(before: string, s: string, after: string)
    requires Inert(QuoteAt(before, |before|), s)
    ensures QuoteAt(before + s + after, |before| + |s|) == After(QuoteAt(before, |before|), s)
    ensures forall i :: |before| <= i < |before| + |s| ==> !Opener(before + s + after, i)
    decreases |s|
  {
    var line := before + s + after;
    QuotePrefix(before, line);
    if s != "" {
      var before' := before + [s[0]];
      assert before' + s[1..] + after == line;
      assert before'[..|before|] == before;
      QuotePrefix(before, before');
      InertHasNoOpener(before', s[1..], after);
    }
  }

  lemma QuotePrefix(s: string, t: string)
    requires s <= t
    ensures QuoteAt(t, |s|) == QuoteAt(s, |s|)
  {
    QuotePrefixAt(s, t, |s|);
  }

  lemma {:induction false} QuotePrefixAt(s: string, t: string, i: nat)
    requires s <= t && i <= |s|
    ensures QuoteAt(t, i) == QuoteAt(s, i)
  {
    if i > 0 {
      QuotePrefixAt(s, t, i - 1);
    }
  }

  /** Words put into an unquoted place of a command bring no substitution with them, and what follows them is read as
      before. */
  lemma JoinedWordsAreInert(before: string, words: seq<string>, after: string)
    requires QuoteAt(before, |before|) == Plain
    ensures var line, end := before + JoinShellWords(words) + after, |before| + |JoinShellWords(words)|;
      && QuoteAt(line, end) == Plain
      && forall i :: |before| <= i < end ==> !Opener(line, i)
  {
    JoinIsInert(words);
    InertHasNoOpener(before, JoinShellWords(words), after);
  }
}
