/**
 The kernel log scanner: it feeds buffers to the oops parser, and joins and splits again each message it is
 handed.
 */
module KlogScanner {
  import opened CStrings
  import opened Oops
  import opened OopsMessages

  // ---- Joining and splitting a message ----

  /** The lines of a buffer, as C strings. */
  function CLines(buf: string): seq<string> {
    var lines := Lines(buf);
    seq(|lines|, i requires 0 <= i < |lines| => CStr(lines[i]))
  }

  /** handle_entire_oops: a buffer with at least one whole line, the first of which matches a pattern. */
  function Entire(t: Table, buf: string): Option<Message> {
    if '\n' !in buf then None
    else
      var lines := CLines(buf);
      if lines == [] then None
      else
        match Starts(t, lines[0])
        case None => None
        case Some(p) => Some(Message(p, lines))
  }

  /** A buffer is a message exactly when it holds a whole line, and its first one starts a message. */
  lemma EntireIff(t: Table, first: string, rest: string)
    requires '\n' !in first && NUL !in first
    ensures Entire(t, first) == None
    ensures Entire(t, first + "\n" + rest).Some? <==> Starts(t, first).Some?
  {
    hide Starts;
    var buf := first + "\n" + rest;
    assert buf == first + ['\n'] + rest;
    assert '\n' in buf;
    IndexOfAfter(first, '\n', rest);
    assert Lines(buf)[0] == first;
    CStrOfLine(first);
  }

  /** The buffer may hold no more lines than a message. */
  method HandleEntireOops(t: Table, buffer: string) returns (msg: Option<Message>)
    requires |Lines(buffer)| <= MAX_LINES
    ensures msg == Entire(t, buffer)
  {
    hide CLines, Lines, Starts;
    var lineEnd := IndexOf(buffer, '\n');
    if lineEnd == |buffer| {
      return None;
    }
    CLinesFrom(buffer);
    var first := CStr(buffer[..lineEnd]);
    var pattern := FindPattern(t, first);
    if pattern.None? {
      return None;
    }
    var lines := new string[MAX_LINES](_ => "");
    lines[0] := first;
    var length := SplitLines(lines, buffer[lineEnd + 1..]);
    return Some(Message(pattern.value, lines[..length]));
  }

  /** The lines after the first. */
  method SplitLines(lines: array<string>, buffer: string) returns (length: nat)
    requires lines.Length == MAX_LINES && 1 + |CLines(buffer)| <= MAX_LINES
    modifies lines
    ensures length <= MAX_LINES && lines[..length] == [old(lines[0])] + CLines(buffer)
  {
    hide CLines, Lines;
    var buf := buffer;
    length := 1;
    ghost var all := [lines[0]] + CLines(buffer);
    while buf != ""
      invariant 1 <= length <= MAX_LINES
      invariant lines[..length] + CLines(buf) == all
      decreases |buf|
    {
      CLinesFrom(buf);
      var lineEnd := IndexOf(buf, '\n');
      assert length < |all|;
      lines[length] := CStr(buf[..lineEnd]);
      length := length + 1;
      buf := if lineEnd < |buf| then buf[lineEnd + 1..] else "";
    }
    NoCLines();
  }

  lemma NoCLines()
    ensures CLines("") == []
  {
  }

  lemma CLinesFrom(buf: string)
    requires buf != ""
    ensures var i := IndexOf(buf, '\n');
      CLines(buf) == [CStr(buf[..i])] + CLines(if i < |buf| then buf[i + 1..] else "")
    ensures |CLines(buf)| == |Lines(buf)|
  {
    assert buf[..|buf|] == buf;
  }

  /** The sizes that the buffer for the lines is made of. */
  function Size(lines: seq<string>): nat {
    if lines == [] then 0 else Size(lines[..|lines| - 1]) + |lines[|lines| - 1]| + 1
  }

  lemma {:induction false} SizeOfJoin(lines: seq<string>)
    ensures Size(lines) == |JoinLines(lines)|
  {
    if lines == [] {
    } else {
      var rest := lines[..|lines| - 1];
      SizeOfJoin(rest);
      JoinLinesLast(rest, lines[|lines| - 1]);
      assert rest + [lines[|lines| - 1]] == lines;
    }
  }

  /** The two passes of klog_process_oops_msgs: the size of the buffer, then the lines, each with a newline. */
  method JoinMessage(lines: seq<string>) returns (contents: array<char>)
    ensures fresh(contents) && contents[..] == JoinLines(lines)
  {
    hide JoinLines, Size;
    var size, i := 0, 0;
    SizeOfNone(lines);
    while i < |lines|
      invariant i <= |lines| && size == Size(lines[..i])
    {
      SizeOfOneMore(lines, i);
      size, i := size + |lines[i]| + 1, i + 1;
    }
    assert lines[..|lines|] == lines;
    SizeOfJoin(lines);
    contents := new char[size];
    var done: nat := 0;
    i := 0;
    while i < |lines|
      invariant i <= |lines| && done == Size(lines[..i]) == |JoinLines(lines[..i])| <= size
      invariant contents[..done] == JoinLines(lines[..i])
    {
      SizeOfOneMore(lines, i);
      SizeGrows(lines, i + 1);
      JoinOneMore(lines, i);
      var line := lines[i];
      forall j | 0 <= j < |line| {
        contents[done + j] := line[j];
      }
      contents[done + |line|] := '\n';
      assert contents[..done + |line| + 1] == JoinLines(lines[..i]) + line + "\n";
      done, i := done + |line| + 1, i + 1;
    }
    assert contents[..done] == contents[..];
  }

  lemma SizeOfNone(lines: seq<string>)
    ensures Size(lines[..0]) == 0 && JoinLines(lines[..0]) == ""
  {
  }

  lemma SizeOfOneMore(lines: seq<string>, i: nat)
    requires i < |lines|
    ensures Size(lines[..i + 1]) == Size(lines[..i]) + |lines[i]| + 1
  {
    assert lines[..i + 1][..i] == lines[..i];
  }

  lemma {:induction false} SizeGrows(lines: seq<string>, i: nat)
    requires i <= |lines|
    ensures Size(lines[..i]) <= Size(lines)
    decreases |lines| - i
  {
    if i < |lines| {
      SizeOfOneMore(lines, i);
      SizeGrows(lines, i + 1);
    } else {
      assert lines[..i] == lines;
    }
  }

  lemma JoinOneMore(lines: seq<string>, i: nat)
    requires i < |lines|
    ensures JoinLines(lines[..i + 1]) == JoinLines(lines[..i]) + lines[i] + "\n"
    ensures |JoinLines(lines[..i + 1])| == |JoinLines(lines[..i])| + |lines[i]| + 1
  {
    assert lines[..i + 1] == lines[..i] + [lines[i]];
    JoinLinesLast(lines[..i], lines[i]);
  }

  /** A message of lines comes back as it was. */
  lemma JoinedIsEntire(t: Table, m: Message)
    requires m.lines != [] && Starts(t, m.lines[0]) == Some(m.pattern)
    requires forall l :: l in m.lines ==> OneLine(l)
    ensures Entire(t, JoinLines(m.lines)) == Some(m)
    ensures |Lines(JoinLines(m.lines))| == |m.lines|
  {
    hide Starts, Lines;
    var buf := JoinLines(m.lines);
    LinesOfJoin(m.lines);
    assert buf[|m.lines[0]|] == '\n';
    forall i | 0 <= i < |m.lines|
      ensures CLines(buf)[i] == m.lines[i]
    {
      assert m.lines[i] in m.lines;
      IndexOfAbsent(m.lines[i], NUL);
    }
    assert CLines(buf) == m.lines;
  }

  // ---- Buffers ----

  /** The lines of a buffer that end in it. */
  function FullLines(buf: string): seq<string>
    decreases |buf|
  {
    var i := IndexOf(buf, '\n');
    if i == |buf| then [] else [buf[..i]] + FullLines(buf[i + 1..])
  }

  function Texts(lines: seq<string>): seq<string> {
    seq(|lines|, i requires 0 <= i < |lines| => Stripped(lines[i]))
  }

  function Handed(m: Option<Message>): seq<Message> {
    if m.Some? then [m.value] else []
  }

  /**
   The parser is fed lines until it hands over a message: the parser after that, the message, and how many
   lines it took.
   */
  function Feed(t: Table, st: Buffer, lines: seq<string>): (r: (Buffer, Option<Message>, nat))
    requires Bounded(st)
    ensures Bounded(r.0) && r.2 <= |lines|
    decreases |lines|
  {
    if lines == [] then (st, None, 0)
    else
      var (st', m) := Step(t, st, Stripped(lines[0]));
      if m.Some? then (st', m, 1)
      else
        var (st'', m', n) := Feed(t, st', lines[1..]);
        (st'', m', n + 1)
  }

  /** split_buf_by_line: a line that does not end in the buffer is not parsed, nor is what follows a message. */
  method SplitBufByLine(parser: OopsParser, buffer: string) returns (processed: bool)
    requires parser.Valid()
    modifies parser, parser.lines
    ensures parser.Valid()
    ensures var (st, m, n) := Feed(parser.table, old(parser.State()), FullLines(buffer));
      parser.State() == st && processed == m.Some? && parser.handled == old(parser.handled) + Handed(m)
  {
    hide Step, Stripped;
    processed := false;
    var buf, bytes := buffer, |buffer|;
    ghost var st, t := parser.State(), parser.table;
    while bytes > 0
      invariant parser.Valid() && !processed
      invariant bytes == |buf| || (bytes == -1 && buf == "")
      invariant parser.handled == old(parser.handled)
      invariant var all := Feed(t, st, FullLines(buffer)); var rest := Feed(t, parser.State(), FullLines(buf));
        all.0 == rest.0 && all.1 == rest.1
      decreases bytes
    {
      var eol := IndexOf(buf, '\n');
      var line := buf[..eol];
      bytes := bytes - (eol + 1);
      if bytes >= 0 {
        buf := buf[eol + 1..];
        processed := parser.ParseSingleLine(line);
        if processed {
          return;
        }
      } else {
        NoFullLines(buf);
        NoFullLines("");
        buf := "";
      }
    }
    NoFullLines(buf);
  }

  lemma NoFullLines(buf: string)
    requires '\n' !in buf
    ensures FullLines(buf) == []
  {
  }

  lemma {:induction false} FullLinesAreLines(buf: string, l: string)
    requires l in FullLines(buf)
    ensures '\n' !in l
    decreases |buf|
  {
    var i := IndexOf(buf, '\n');
    if l != buf[..i] {
      FullLinesAreLines(buf[i + 1..], l);
    }
  }

  // ---- Runs of the scanner ----

  /** The messages handed over while the buffers are read, one after the other. */
  function Scanned(t: Table, st: Buffer, bufs: seq<string>): seq<Message>
    requires Bounded(st)
    decreases |bufs|
  {
    if bufs == [] then []
    else
      var (st', m, _) := Feed(t, st, FullLines(bufs[0]));
      Handed(m) + Scanned(t, st', bufs[1..])
  }

  /** The lines that are parsed while the buffers are read, stripped. */
  function Parsed(t: Table, st: Buffer, bufs: seq<string>): seq<string>
    requires Bounded(st)
    decreases |bufs|
  {
    if bufs == [] then []
    else
      var lines := FullLines(bufs[0]);
      var (st', _, n) := Feed(t, st, lines);
      Texts(lines[..n]) + Parsed(t, st', bufs[1..])
  }

  lemma {:induction false} EmittedShift(t: Table, st: Buffer, a: seq<string>, b: seq<string>, j: nat)
    requires Bounded(st) && j <= |b|
    ensures Emitted(t, st, a + b, |a| + j) == Emitted(t, st, b, j)
    decreases |b| - j
  {
    hide Step;
    if j < |b| {
      EmittedShift(t, Step(t, st, b[j]).0, a, b, j + 1);
    }
  }

  lemma TextsOfMore(lines: seq<string>, n: nat)
    requires 0 < n <= |lines|
    ensures Texts(lines[..n]) == [Stripped(lines[0])] + Texts(lines[1..][..n - 1])
  {
  }

  /** What is fed from one buffer, with anything after it. */
  lemma {:induction false} FeedEmits(t: Table, st: Buffer, lines: seq<string>, more: seq<string>)
    requires Bounded(st)
    ensures var (st', m, n) := Feed(t, st, lines);
      Emitted(t, st, Texts(lines[..n]) + more, 0) == Handed(m) + Emitted(t, st', more, 0)
    decreases |lines|
  {
    hide Step, Stripped;
    var (st', m, n) := Feed(t, st, lines);
    if lines == [] {
      assert Texts(lines[..0]) + more == more;
    } else {
      var x := Stripped(lines[0]);
      var rest := Texts(lines[1..][..n - 1]) + more;
      TextsOfMore(lines, n);
      assert Texts(lines[..n]) + more == [x] + rest;
      EmittedShift(t, Step(t, st, x).0, [x], rest, 0);
      if Step(t, st, x).1.None? {
        FeedEmits(t, Step(t, st, x).0, lines[1..], more);
      } else {
        assert rest == more;
      }
    }
  }

  /** The messages of a run are those of the lines that are parsed. */
  lemma {:induction false} ScannedIsEmitted(t: Table, st: Buffer, bufs: seq<string>)
    requires Bounded(st)
    ensures Scanned(t, st, bufs) == Emitted(t, st, Parsed(t, st, bufs), 0)
    decreases |bufs|
  {
    hide Feed, Texts, FullLines, Step;
    if bufs == [] {
    } else {
      var lines := FullLines(bufs[0]);
      var (st', m, n) := Feed(t, st, lines);
      ScannedIsEmitted(t, st', bufs[1..]);
      FeedEmits(t, st, lines, Parsed(t, st', bufs[1..]));
    }
  }

  lemma StrippedIsLine(line: string)
    requires '\n' !in line
    ensures OneLine(Stripped(line))
  {
    hide OneLine, SkipBracket, SkipSpace, CStr;
    var s := CStr(line);
    CStrIsLine(line);
    SkipIsLine(s, '<', '>');
    SkipIsLine(SkipBracket(s, '<', '>'), '[', ']');
    SkipSpaceIsLine(SkipBracket(SkipBracket(s, '<', '>'), '[', ']'));
  }

  lemma CStrIsLine(line: string)
    requires '\n' !in line
    ensures OneLine(CStr(line))
  {
  }

  lemma SkipIsLine(s: string, open: char, close: char)
    requires OneLine(s)
    ensures OneLine(SkipBracket(s, open, close))
  {
  }

  lemma SkipSpaceIsLine(s: string)
    requires OneLine(s)
    ensures OneLine(SkipSpace(s))
  {
  }

  lemma {:induction false} ParsedAreLines(t: Table, st: Buffer, bufs: seq<string>, l: string)
    requires Bounded(st) && l in Parsed(t, st, bufs)
    ensures OneLine(l)
    decreases |bufs|
  {
    hide Feed, FullLines, OneLine, Stripped;
    var lines := FullLines(bufs[0]);
    var (st', _, n) := Feed(t, st, lines);
    if l in Texts(lines[..n]) {
      var i :| 0 <= i < n && l == Stripped(lines[i]);
      FullLinesAreLines(bufs[0], lines[i]);
      StrippedIsLine(lines[i]);
    } else {
      ParsedAreLines(t, st', bufs[1..], l);
    }
  }

  /**
   Every message of a run of the scanner is a run of at most 100 of the lines that are parsed, in order and apart,
   and it is what the scanner makes of it when it joins its lines and splits them again.
   */
  lemma ScanIsFaithful(t: Table, bufs: seq<string>)
    ensures var init := Buffer([], None, false); var texts := Parsed(t, init, bufs); var spans := Spans(t, texts, 0);
      && AreMessages(t, texts, spans) && InOrder(t, texts, spans, 0)
      && Scanned(t, init, bufs) == MessagesAt(t, texts, spans)
      && forall m :: m in Scanned(t, init, bufs) ==> Entire(t, JoinLines(m.lines)) == Some(m)
  {
    hide Entire, JoinLines, Spans, Emitted, Parsed, Scanned, InOrder, Starts;
    var init := Buffer([], None, false);
    var texts := Parsed(t, init, bufs);
    var spans := Spans(t, texts, 0);
    ScannedIsEmitted(t, init, bufs);
    MessagesOfLog(t, texts);
    forall m | m in Scanned(t, init, bufs)
      ensures Entire(t, JoinLines(m.lines)) == Some(m)
    {
      var k :| 0 <= k < |spans| && m == MessageAt(t, texts, spans[k]);
      MessageIsEntire(t, init, bufs, spans[k]);
    }
  }

  lemma MessageIsEntire(t: Table, st: Buffer, bufs: seq<string>, span: (nat, nat))
    requires Bounded(st) && IsMessage(t, Parsed(t, st, bufs), span.0, span.1)
    ensures var m := MessageAt(t, Parsed(t, st, bufs), span); Entire(t, JoinLines(m.lines)) == Some(m)
  {
    hide Entire, JoinLines, Parsed, Starts, EndsAt, OneLine;
    var texts := Parsed(t, st, bufs);
    var m := MessageAt(t, texts, span);
    forall l | l in m.lines
      ensures OneLine(l)
    {
      ParsedAreLines(t, st, bufs, l);
    }
    JoinedIsEntire(t, m);
  }

  lemma NoLinesJoin()
    ensures JoinLines([]) == ""
  {
  }

  lemma JoinFirst(line: string, lines: seq<string>, rest: string)
    ensures JoinLines([line] + lines) + rest == line + "\n" + (JoinLines(lines) + rest)
  {
    assert ([line] + lines)[1..] == lines;
  }

  /** The whole lines of a buffer and the unfinished one behind them are the buffer. */
  lemma {:induction false} FullLinesAre(buf: string) returns (rest: string)
    ensures buf == JoinLines(FullLines(buf)) + rest && '\n' !in rest
    decreases |buf|
  {
    hide JoinLines;
    NoLinesJoin();
    var i := IndexOf(buf, '\n');
    if i == |buf| {
      rest := buf;
    } else {
      var line, more := buf[..i], buf[i + 1..];
      rest := FullLinesAre(more);
      assert buf == line + "\n" + more;
      JoinFirst(line, FullLines(more), rest);
    }
  }
}
