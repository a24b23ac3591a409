/** The line-oriented writers: `terminalLogWriter` of `internal/mux/remote.go` and `eventWriter` of
    `internal/lspipe/daemon.go`.  Both hold back an unfinished line between Writes. */
module LineWriters {
  import opened Bytes

  predicate EndsLine(s: seq<Byte>) {
    s != [] && s[|s| - 1] == LF
  }

  /** The library's split after each newline: the last piece is what follows the last newline, possibly nothing. */
  function SplitAfter(s: seq<Byte>): (pieces: seq<seq<Byte>>)
    ensures |pieces| >= 1
  {
    if s == [] then [[]]
    else
      var before := SplitAfter(s[..|s| - 1]);
      var n, c := |before| - 1, s[|s| - 1];
      var extended := before[..n] + [before[n] + [c]];
      if c == LF then extended + [[]] else extended
  }

  /** One newline, at the end. */
  predicate IsLine(s: seq<Byte>) {
    EndsLine(s) && LF !in s[..|s| - 1]
  }

  function Whole(s: seq<Byte>): seq<seq<Byte>> {
    SplitAfter(s)[..|SplitAfter(s)| - 1]
  }

  function Tail(s: seq<Byte>): seq<Byte> {
    SplitAfter(s)[|SplitAfter(s)| - 1]
  }

  /** The lines of a finished stream: the last one may lack its newline, but is not empty. */
  function AllLines(s: seq<Byte>): seq<seq<Byte>> {
    Whole(s) + (if Tail(s) == [] then [] else [Tail(s)])
  }

  lemma SplitExtend(s: seq<Byte>, c: Byte)
    ensures Whole(s + [c]) == if c == LF then Whole(s) + [Tail(s) + [c]] else Whole(s)
    ensures Tail(s + [c]) == if c == LF then [] else Tail(s) + [c]
  {
    assert (s + [c])[..|s|] == s;
  }

  lemma {:induction false} SplitShape(s: seq<Byte>)
    ensures forall k :: 0 <= k < |Whole(s)| ==> IsLine(Whole(s)[k])
    ensures LF !in Tail(s)
  {
    hide SplitAfter;
    if s == [] {
      NoNewline(s);
    } else {
      SplitShape(s[..|s| - 1]);
      assert s == s[..|s| - 1] + [s[|s| - 1]];
      SplitExtend(s[..|s| - 1], s[|s| - 1]);
    }
  }

  /** Lines need only the unfinished part of what came before. */
  lemma {:induction false} SplitResumes(a: seq<Byte>, b: seq<Byte>)
    ensures Whole(a + b) == Whole(a) + Whole(Tail(a) + b)
    ensures Tail(a + b) == Tail(Tail(a) + b)
  {
    hide SplitAfter;
    if b == [] {
      assert a + b == a && Tail(a) + b == Tail(a);
      SplitShape(a);
      NoNewline(Tail(a));
    } else {
      var n, c := |b| - 1, b[|b| - 1];
      SplitResumes(a, b[..n]);
      ResumesByte(a, b[..n], c);
      assert b == b[..n] + [c];
    }
  }

  lemma ResumesByte(a: seq<Byte>, b: seq<Byte>, c: Byte)
    requires Whole(a + b) == Whole(a) + Whole(Tail(a) + b) && Tail(a + b) == Tail(Tail(a) + b)
    ensures Whole(a + (b + [c])) == Whole(a) + Whole(Tail(a) + (b + [c]))
      && Tail(a + (b + [c])) == Tail(Tail(a) + (b + [c]))
  {
    hide Whole, Tail, SplitAfter;
    ConcatAssociative(a, b, [c]);
    ConcatAssociative(Tail(a), b, [c]);
    SplitExtend(a + b, c);
    SplitExtend(Tail(a) + b, c);
    ConcatAssociative(Whole(a), Whole(Tail(a) + b), [Tail(a + b) + [c]]);
  }

  lemma {:induction false} NoNewline(s: seq<Byte>)
    requires LF !in s
    ensures SplitAfter(s) == [s]
  {
    if s != [] {
      NoNewline(s[..|s| - 1]);
      assert s == s[..|s| - 1] + [s[|s| - 1]];
    }
  }

  lemma OneLine(s: seq<Byte>)
    requires IsLine(s)
    ensures SplitAfter(s) == [s, []]
  {
    NoNewline(s[..|s| - 1]);
    assert s == s[..|s| - 1] + [LF];
  }

  lemma TailAfterNewline(s: seq<Byte>)
    ensures EndsLine(s) ==> Tail(s) == []
  {
    if s != [] {
      SplitExtend(s[..|s| - 1], s[|s| - 1]);
      assert s == s[..|s| - 1] + [s[|s| - 1]];
    }
  }

  /** No byte is lost. */
  lemma LinesConcat(s: seq<Byte>)
    ensures Flatten(Whole(s)) + Tail(s) == s
    ensures Flatten(AllLines(s)) == s
  {
    WholeAndTail(s);
    if Tail(s) == [] {
      assert AllLines(s) == Whole(s);
    } else {
      assert AllLines(s)[..|Whole(s)|] == Whole(s);
    }
  }

  lemma {:induction false} WholeAndTail(s: seq<Byte>)
    ensures Flatten(Whole(s)) + Tail(s) == s
  {
    if s != [] {
      var t, c := s[..|s| - 1], s[|s| - 1];
      WholeAndTail(t);
      OneMoreByte(t, c);
      assert s == t + [c];
    }
  }

  lemma OneMoreByte(s: seq<Byte>, c: Byte)
    requires Flatten(Whole(s)) + Tail(s) == s
    ensures Flatten(Whole(s + [c])) + Tail(s + [c]) == s + [c]
  {
    SplitExtend(s, c);
    ConcatAssociative(Flatten(Whole(s)), Tail(s), [c]);
    if c == LF {
      assert (Whole(s) + [Tail(s) + [c]])[..|Whole(s)|] == Whole(s);
    }
  }

  /** The lines of the text: each ends with its only newline, but for the last one, which may have none. */
  ghost predicate AreLines(lines: seq<seq<Byte>>, text: seq<Byte>) {
    && Flatten(lines) == text
    && forall k :: 0 <= k < |lines| ==>
         && lines[k] != [] && LF !in lines[k][..|lines[k]| - 1]
         && (k + 1 < |lines| ==> lines[k][|lines[k]| - 1] == LF)
  }

  lemma AllLinesAreLines(s: seq<Byte>)
    ensures AreLines(AllLines(s), s)
  {
    LinesConcat(s);
    SplitShape(s);
    forall k | 0 <= k < |Whole(s)| ensures IsLine(Whole(s)[k]) && AllLines(s)[k] == Whole(s)[k] {
    }
  }

  // ---- terminalLogWriter ----

  /** Each line after the stamp that the clock gave when it was written. */
  function Stamped(lines: seq<seq<Byte>>, stamp: nat -> seq<Byte>): seq<Byte> {
    if lines == [] then []
    else Stamped(lines[..|lines| - 1], stamp) + (stamp(|lines| - 1) + lines[|lines| - 1])
  }

  /** The lines without the empty one that a split leaves after a final newline. */
  function Filled(lines: seq<seq<Byte>>): seq<seq<Byte>> {
    if lines == [] then []
    else
      var last := lines[|lines| - 1];
      if last == [] then Filled(lines[..|lines| - 1]) else Filled(lines[..|lines| - 1]) + [last]
  }

  lemma {:induction false} FilledLines(lines: seq<seq<Byte>>)
    requires forall k :: 0 <= k < |lines| ==> lines[k] != []
    ensures Filled(lines) == lines
  {
    if lines != [] {
      FilledLines(lines[..|lines| - 1]);
    }
  }

  class TerminalLogWriter {
    const timestamp: bool
    const removeAnsi: bool
    const stripAnsi: seq<Byte> -> seq<Byte>  // applied to each Write on its own
    const clock: nat -> seq<Byte>            // the text of the k-th time stamp
    var isOpen: bool
    var pending: seq<Byte>
    var file: seq<Byte>
    ghost var text: seq<Byte>                // everything to be logged, after stripping
    var written: nat                         // lines written so far, each with its own reading of the clock

    ghost function Stamp(): nat -> seq<Byte> {
      k => if timestamp then clock(k) else []
    }

    ghost predicate Valid()
      reads this
    {
      if !timestamp && !removeAnsi then pending == [] && file == text
      else if isOpen then pending == Tail(text) && file == Stamped(Whole(text), Stamp()) && written == |Whole(text)|
      else pending == [] && file == Stamped(AllLines(text), Stamp())
    }

    constructor (timestamp: bool, removeAnsi: bool, stripAnsi: seq<Byte> -> seq<Byte>, clock: nat -> seq<Byte>)
      ensures Valid() && isOpen && text == []
      ensures this.timestamp == timestamp && this.removeAnsi == removeAnsi && this.stripAnsi == stripAnsi
        && this.clock == clock
    {
      this.timestamp, this.removeAnsi, this.stripAnsi, this.clock := timestamp, removeAnsi, stripAnsi, clock;
      isOpen, pending, file, text, written := true, [], [], [], 0;
    }

    method Write(p: seq<Byte>) returns (ok: bool)
      requires Valid()
      modifies this
      ensures Valid() && ok == old(isOpen) == isOpen
      ensures text == if ok then old(text) + (if removeAnsi then stripAnsi(p) else p) else old(text)
      ensures !ok ==> file == old(file)
    {
      if !isOpen {
        return false;
      }
      if !timestamp && !removeAnsi {
        file := file + p;
        text := text + p;
        return true;
      }
      var chunk := p;
      if removeAnsi {
        chunk := stripAnsi(chunk);
      }
      SplitResumes(text, chunk);
      ghost var before := Whole(text);
      text := text + chunk;
      var lines;
      lines, pending := HoldBack(pending + chunk);
      WriteLines(lines, before);
      return true;
    }

    /** The pieces to write now, and the unfinished line. */
    method HoldBack(chunk: seq<Byte>) returns (lines: seq<seq<Byte>>, rest: seq<Byte>)
      ensures Filled(lines) == Whole(chunk) && rest == Tail(chunk)
    {
      lines := SplitAfter(chunk);
      TailAfterNewline(chunk);
      SplitShape(chunk);
      FilledLines(Whole(chunk));
      if |lines| > 0 && !EndsLine(chunk) {
        rest := lines[|lines| - 1];
        lines := lines[..|lines| - 1];
      } else {
        rest := [];
        assert lines == Whole(chunk) + [[]];
        assert lines[..|lines| - 1] == Whole(chunk);
      }
    }

    method WriteLines(lines: seq<seq<Byte>>, ghost before: seq<seq<Byte>>)
      requires file == Stamped(before, Stamp()) && written == |before|
      modifies `file, `written
      ensures file == Stamped(before + Filled(lines), Stamp()) && written == |before + Filled(lines)|
    {
      assert before + Filled(lines[..0]) == before;
      for k := 0 to |lines|
        invariant file == Stamped(before + Filled(lines[..k]), Stamp()) && written == |before + Filled(lines[..k])|
      {
        assert lines[..k + 1][..k] == lines[..k];
        var line := lines[k];
        if line == [] {
          continue;
        }
        WriteLine(line, before + Filled(lines[..k]));
        ConcatAssociative(before, Filled(lines[..k]), [line]);
      }
      assert lines[..|lines|] == lines;
    }

    method WriteLine(line: seq<Byte>, ghost lines: seq<seq<Byte>>)
      requires file == Stamped(lines, Stamp()) && written == |lines|
      modifies `file, `written
      ensures file == Stamped(lines + [line], Stamp()) && written == |lines| + 1
    {
      assert (lines + [line])[..|lines|] == lines;
      var out := line;
      if timestamp {
        out := clock(written) + line;
      }
      file := file + out;
      written := written + 1;
    }

    method Close()
      requires Valid()
      modifies this
      ensures Valid() && !isOpen && text == old(text)
      ensures !old(isOpen) ==> file == old(file)
    {
      if !isOpen {
        return;
      }
      if pending != [] {
        WriteLine(pending, Whole(text));
        pending := [];
      }
      assert Tail(text) == [] ==> AllLines(text) == Whole(text);
      isOpen := false;
    }
  }

  /** The file after a whole session does not depend on how the output was cut into Writes, but for the stripping of
      escape sequences, which sees one Write at a time. */
  method LogSession(chunks: seq<seq<Byte>>, timestamp: bool, removeAnsi: bool, stripAnsi: seq<Byte> -> seq<Byte>,
                    clock: nat -> seq<Byte>)
    returns (file: seq<Byte>)
    ensures var text :=
      Flatten(if removeAnsi then seq(|chunks|, k requires 0 <= k < |chunks| => stripAnsi(chunks[k])) else chunks);
      if timestamp then exists lines :: AreLines(lines, text) && StampBefore(file, lines, clock) else file == text
  {
    var log := new TerminalLogWriter(timestamp, removeAnsi, stripAnsi, clock);
    ghost var stripped :=
      if removeAnsi then seq(|chunks|, k requires 0 <= k < |chunks| => stripAnsi(chunks[k])) else chunks;
    for k := 0 to |chunks|
      invariant fresh(log) && log.Valid() && log.isOpen && log.text == Flatten(stripped[..k])
      invariant log.timestamp == timestamp && log.removeAnsi == removeAnsi && log.stripAnsi == stripAnsi
        && log.clock == clock
    {
      assert stripped[..k + 1][..k] == stripped[..k];
      var ok := log.Write(chunks[k]);
    }
    assert stripped[..|chunks|] == stripped;
    log.Close();
    file := log.file;
    if timestamp {
      SameStamps(AllLines(log.text), log.Stamp(), clock);
      AllLinesAreLines(log.text);
      StampedLines(AllLines(log.text), clock);
    } else if removeAnsi {
      NoStamps(AllLines(log.text), log.Stamp());
      LinesConcat(log.text);
    }
  }

  /** The k-th line stands right after the k-th stamp. */
  ghost predicate StampBefore(file: seq<Byte>, lines: seq<seq<Byte>>, clock: nat -> seq<Byte>) {
    file == Flatten(seq(|lines|, k requires 0 <= k < |lines| => clock(k) + lines[k]))
  }

  lemma {:induction false} StampedLines(lines: seq<seq<Byte>>, clock: nat -> seq<Byte>)
    ensures StampBefore(Stamped(lines, clock), lines, clock)
  {
    if lines != [] {
      var front := lines[..|lines| - 1];
      StampedLines(front, clock);
      assert seq(|lines|, k requires 0 <= k < |lines| => clock(k) + lines[k])[..|front|]
          == seq(|front|, k requires 0 <= k < |front| => clock(k) + front[k]);
    }
  }

  lemma {:induction false} SameStamps(lines: seq<seq<Byte>>, f: nat -> seq<Byte>, g: nat -> seq<Byte>)
    requires forall k :: f(k) == g(k)
    ensures Stamped(lines, f) == Stamped(lines, g)
  {
    if lines != [] {
      SameStamps(lines[..|lines| - 1], f, g);
    }
  }

  lemma {:induction false} NoStamps(lines: seq<seq<Byte>>, f: nat -> seq<Byte>)
    requires forall k :: f(k) == []
    ensures Stamped(lines, f) == Flatten(lines)
  {
    if lines != [] {
      NoStamps(lines[..|lines| - 1], f);
    }
  }

  // ---- eventWriter ----

  /** " :: ", between the host and the line. */
  const SEPARATOR: seq<Byte> := [32, 58, 58, 32]

  class EventWriter {
    const host: seq<Byte>
    const isStderr: bool
    const raw: bool
    const suppressHeader: bool
    const isNoise: seq<Byte> -> bool   // the stty complaint detector
    var buf: seq<Byte>
    var events: seq<seq<Byte>>         // the data of every event sent
    ghost var flushed: seq<seq<Byte>>  // the events of the lines ended by an earlier Flush
    ghost var text: seq<Byte>          // the input since that Flush

    ghost function Rendered(line: seq<Byte>): seq<Byte> {
      if isStderr && isNoise(line) then []
      else (if suppressHeader then [] else host + SEPARATOR) + line + (if EndsLine(line) then [] else [LF])
    }

    ghost function RenderedLines(lines: seq<seq<Byte>>): seq<seq<Byte>> {
      seq(|lines|, k requires 0 <= k < |lines| => Rendered(lines[k]))
    }

    ghost predicate Valid()
      reads this
    {
      if raw then buf == [] && (!isStderr ==> Flatten(events) == text)
      else buf == Tail(text) && events == flushed + RenderedLines(Whole(text))
    }

    constructor (host: seq<Byte>, isStderr: bool, raw: bool, suppressHeader: bool, isNoise: seq<Byte> -> bool)
      ensures Valid() && events == flushed == [] && text == []
      ensures this.host == host && this.isStderr == isStderr && this.raw == raw
      ensures this.suppressHeader == suppressHeader && this.isNoise == isNoise
    {
      this.host, this.isStderr, this.raw, this.suppressHeader, this.isNoise :=
        host, isStderr, raw, suppressHeader, isNoise;
      buf, events, flushed, text := [], [], [], [];
    }

    method Write(p: seq<Byte>)
      requires Valid()
      modifies this
      ensures Valid() && text == old(text) + p && flushed == old(flushed)
    {
      if raw {
        WriteRaw(p);
        return;
      }
      // The buffered reader hands out p piece by piece, each with its newline if it has one.
      var pieces := SplitAfter(p);
      SplitShape(p);
      assert forall k :: 0 <= k < |pieces| - 1 ==> pieces[k] == Whole(p)[k];
      for k := 0 to |pieces|
        invariant Valid() && flushed == old(flushed) && text == old(text) + Flatten(pieces[..k])
      {
        assert pieces[..k + 1][..k] == pieces[..k];
        ConcatAssociative(old(text), Flatten(pieces[..k]), pieces[k]);
        WritePiece(pieces[k]);
      }
      assert pieces[..|pieces|] == pieces && Flatten(pieces) == p by {
        LinesConcat(p);
      }
    }

    method WritePiece(chunk: seq<Byte>)
      requires Valid() && !raw && (IsLine(chunk) || LF !in chunk)
      modifies this
      ensures Valid() && text == old(text) + chunk && flushed == old(flushed)
    {
      PieceJoins(text, chunk);
      ghost var before, line := Whole(text), Tail(text) + chunk;
      text := text + chunk;
      if |chunk| > 0 {
        buf := buf + chunk;
        if chunk[|chunk| - 1] == LF {
          SendLine(before, line);
        }
      }
    }

    /** The buffered line is finished. */
    method SendLine(ghost before: seq<seq<Byte>>, ghost line: seq<Byte>)
      requires buf == line && IsLine(line) && events == flushed + RenderedLines(before)
      modifies `buf, `events
      ensures buf == [] && events == flushed + RenderedLines(before + [line])
    {
      OutputOneLine(line);
      FlushLocked(true);
      RenderedAppend(before, line);
      ConcatAssociative(flushed, RenderedLines(before), [Rendered(line)]);
    }

    /** Raw output goes out as it comes, but for the noise lines that lie within one Write to stderr. */
    method WriteRaw(p: seq<Byte>)
      requires Valid() && raw
      modifies this
      ensures Valid() && text == old(text) + p && flushed == old(flushed)
      ensures Flatten(events) == Flatten(old(events)) + if isStderr then Quiet(SplitAfter(p)) else p
    {
      if |p| > 0 {
        var data := p;
        if isStderr {
          data := FilterNoise(data);
        }
        if |data| > 0 {
          assert (events + [data])[..|events|] == events;
          events := events + [data];
        }
      }
      text := text + p;
    }

    ghost function Quiet(pieces: seq<seq<Byte>>): seq<Byte> {
      if pieces == [] then []
      else
        var front, last := pieces[..|pieces| - 1], pieces[|pieces| - 1];
        if last == [] || isNoise(last) then Quiet(front) else Quiet(front) + last
    }

    /** Exactly the noise is dropped; the rest stays in order. */
    lemma QuietDropsNoise(xs: seq<seq<Byte>>, piece: seq<Byte>)
      ensures Quiet([]) == [] && Quiet(xs + [piece]) == Quiet(xs) + if isNoise(piece) then [] else piece
    {
      assert (xs + [piece])[..|xs|] == xs;
    }

    method FilterNoise(data: seq<Byte>) returns (out: seq<Byte>)
      ensures out == Quiet(SplitAfter(data))
    {
      var lines := SplitAfter(data);
      out := [];
      for k := 0 to |lines|
        invariant out == Quiet(lines[..k])
      {
        assert lines[..k + 1][..k] == lines[..k];
        if lines[k] == [] || isNoise(lines[k]) {
          continue;
        }
        out := out + lines[k];
      }
      assert lines[..|lines|] == lines;
    }

    /** What one event carries: the non-empty pieces, rendered. */
    ghost function Output(pieces: seq<seq<Byte>>): seq<Byte> {
      if pieces == [] then []
      else
        var front, last := pieces[..|pieces| - 1], pieces[|pieces| - 1];
        if last == [] || (isStderr && isNoise(last)) then Output(front) else Output(front) + Rendered(last)
    }

    method Show(line: seq<Byte>) returns (shown: seq<Byte>)
      requires !(isStderr && isNoise(line))
      ensures shown == Rendered(line)
    {
      shown := [];
      if !suppressHeader {
        shown := shown + host;
        shown := shown + SEPARATOR;
      }
      shown := shown + line;
      if !EndsLine(line) {
        shown := shown + [LF];
      }
    }

    method FlushLocked(hadNewline: bool)
      modifies `buf, `events
      ensures buf == []
      ensures var data := if !hadNewline && EndsLine(old(buf)) then old(buf)[..|old(buf)| - 1] else old(buf);
        events == old(events) + if data == [] then [] else [Output(SplitAfter(data))]
    {
      if |buf| == 0 {
        return;
      }
      var data := buf;
      buf := [];
      if !hadNewline && EndsLine(data) {
        data := data[..|data| - 1];
      }
      if data == [] {
        return;
      }
      var out := Assemble(SplitAfter(data));
      events := events + [out];
    }

    method Assemble(lines: seq<seq<Byte>>) returns (out: seq<Byte>)
      ensures out == Output(lines)
    {
      out := [];
      for k := 0 to |lines|
        invariant out == Output(lines[..k])
      {
        assert lines[..k + 1][..k] == lines[..k];
        var line := lines[k];
        if line == [] || (isStderr && isNoise(line)) {
          continue;
        }
        var shown := Show(line);
        out := out + shown;
      }
      assert lines[..|lines|] == lines;
    }

    /** Ends the stream: an unfinished line is sent as if it had its newline. */
    method Flush()
      requires Valid()
      modifies this
      ensures Valid()
      ensures raw ==> text == old(text) && events == old(events)
      ensures !raw ==> text == [] && events == flushed == old(flushed) + RenderedLines(AllLines(old(text)))
    {
      if raw {
        return;
      }
      ghost var line := buf;
      SplitShape(text);
      FlushLocked(false);
      if line != [] {
        OutputOneLine(line);
        RenderedAppend(Whole(text), line);
      } else {
        assert AllLines(text) == Whole(text);
      }
      flushed, text := events, [];
    }

    lemma OutputOneLine(line: seq<Byte>)
      requires IsLine(line) || (line != [] && LF !in line)
      ensures Output(SplitAfter(line)) == Rendered(line)
    {
      assert Output([line]) == Rendered(line) by {
        assert [line][..0] == [];
      }
      if IsLine(line) {
        OneLine(line);
        assert [line, []][..1] == [line];
      } else {
        NoNewline(line);
      }
    }

    lemma RenderedAppend(lines: seq<seq<Byte>>, line: seq<Byte>)
      ensures RenderedLines(lines + [line]) == RenderedLines(lines) + [Rendered(line)]
    {
    }
  }

  /** A finished line joins the unfinished one; anything else just lengthens it. */
  lemma PieceJoins(text: seq<Byte>, chunk: seq<Byte>)
    requires IsLine(chunk) || LF !in chunk
    ensures Whole(text + chunk) == if IsLine(chunk) then Whole(text) + [Tail(text) + chunk] else Whole(text)
    ensures Tail(text + chunk) == if IsLine(chunk) then [] else Tail(text) + chunk
    ensures IsLine(chunk) ==> IsLine(Tail(text) + chunk)
  {
    SplitResumes(text, chunk);
    SplitShape(text);
    if IsLine(chunk) {
      assert (Tail(text) + chunk)[..|Tail(text) + chunk| - 1] == Tail(text) + chunk[..|chunk| - 1];
      OneLine(Tail(text) + chunk);
    } else {
      NoNewline(Tail(text) + chunk);
    }
  }

  /** Every event, and so the whole output, is independent of how the input was cut into Writes. */
  method EventSession(chunks: seq<seq<Byte>>, writer: EventWriter)
    requires writer.Valid() && !writer.raw && writer.events == writer.flushed == [] && writer.text == []
    modifies writer
    ensures exists lines :: AreLines(lines, Flatten(chunks)) && EventsShow(writer, lines)
  {
    for k := 0 to |chunks|
      invariant writer.Valid() && writer.flushed == [] && writer.text == Flatten(chunks[..k])
    {
      assert chunks[..k + 1][..k] == chunks[..k];
      writer.Write(chunks[k]);
    }
    assert chunks[..|chunks|] == chunks;
    writer.Flush();
    AllLinesAreLines(Flatten(chunks));
    assert EventsShow(writer, AllLines(Flatten(chunks)));
  }

  /** An event per line: host, ` :: ` and the line with its newline, which is added to an unfinished one; nothing for
      noise. */
  ghost predicate EventsShow(writer: EventWriter, lines: seq<seq<Byte>>)
    reads writer
  {
    && |writer.events| == |lines|
    && forall k :: 0 <= k < |lines| ==>
         var line, data := lines[k], writer.events[k];
         if writer.isStderr && writer.isNoise(line) then data == []
         else data == (if writer.suppressHeader then [] else writer.host + [32, 58, 58, 32]) + line
                      + if line != [] && line[|line| - 1] == 10 then [] else [10]
  }
}
