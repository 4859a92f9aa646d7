/** From tm_send_record to read_record: what goes in comes out. */
module RecordRoundTrip {
  import opened CStrings
  import opened Headers
  import opened Sender
  import opened Receiver
  import opened RecordFile

  /** Header lines (without their newlines) that carry the given names. */
  ghost predicate HeaderLines(lines: seq<string>, names: seq<string>) {
    && |lines| == |names|
    && forall i :: 0 <= i < |names| ==> IsWord(names[i]) && names[i] <= lines[i] && OneLine(lines[i])
  }

  function Terminated(lines: seq<string>): seq<string> {
    seq(|lines|, i requires 0 <= i < |lines| => lines[i] + "\n")
  }

  lemma {:induction false} ConcatTerminated(lines: seq<string>)
    ensures Concat(Terminated(lines)) == JoinLines(lines)
  {
    if lines == [] {
    } else {
      assert Terminated(lines)[1..] == Terminated(lines[1..]);
      ConcatTerminated(lines[1..]);
    }
  }

  // ---- The frame and its parsing ----

  lemma TokenOfLine(line: string, rest: string)
    requires line != "" && OneLine(line)
    ensures StrTok(line + "\n" + rest) == (Some(line), rest)
  {
    IndexOfAfter(line, '\n', rest);
    var s := line + "\n" + rest;
    assert s[0] == line[0];
    assert s[|line| + 1..] == rest;
  }

  /** The headers as they are staged: only the one named machine_id differs. */
  function Kept(lines: seq<string>, names: seq<string>, machineId: string): seq<string>
    requires |lines| == |names|
  {
    seq(|lines|, i requires 0 <= i < |lines| =>
      if names[i] == "machine_id" then "machine_id: " + machineId else lines[i])
  }

  /** Only header number 3 is named so. */
  lemma MachineIdIsThird(i: nat)
    requires i < |NAMES|
    ensures |NAMES| == NUM_HEADERS
    ensures NAMES[i] == "machine_id" <==> i == 3
  {
    var id := "machine_id";
    assert |id| == 10 && id[0] == 'm' && id[1] == 'a' && id[8] == 'i' && id[9] == 'd';
    if i == 10 {
      assert NAMES[10] == "system_name" && |NAMES[10]| == 11;
    } else if i == 11 {
      assert NAMES[11][0] == 'b';
    }
  }

  /** So the fifteen headers of a record come back as they were, but for that one. */
  lemma KeptIs(lines: seq<string>, machineId: string)
    requires |lines| == |NAMES|
    ensures |NAMES| == NUM_HEADERS
    ensures Kept(lines, NAMES, machineId) == lines[3 := "machine_id: " + machineId]
  {
    forall i: nat | i < |NAMES|
      ensures NAMES[i] == "machine_id" <==> i == 3
    {
      MachineIdIsThird(i);
    }
  }

  lemma KeepIs(name: string, tok: string, machineId: string)
    ensures Keep(name, tok, machineId) == if name == "machine_id" then "machine_id: " + machineId else tok
  {
    assert "machine_id" + ": " == "machine_id: ";
    assert "machine_id" + ": " + machineId == "machine_id: " + machineId;
  }

  lemma KeptFirst(lines: seq<string>, names: seq<string>, machineId: string)
    requires |lines| == |names| && lines != []
    ensures Kept(lines, names, machineId) ==
      [Keep(names[0], lines[0], machineId)] + Kept(lines[1..], names[1..], machineId)
  {
    hide Keep;
    KeepIs(names[0], lines[0], machineId);
  }

  lemma {:induction false} ParseJoined(lines: seq<string>, names: seq<string>, machineId: string)
    requires HeaderLines(lines, names)
    ensures ParseHeaders(JoinLines(lines), names, machineId) == Some(Kept(lines, names, machineId))
  {
    hide Keep, StrTok;
    if lines == [] {
      assert Kept(lines, names, machineId) == [];
    } else {
      TokenOfLine(lines[0], JoinLines(lines[1..]));
      ParseJoined(lines[1..], names[1..], machineId);
      KeptFirst(lines, names, machineId);
    }
  }

  /** An accepted header size is never taken for the "CFG:" marker. */
  lemma SizeIsNotCfg(headerSize: nat, rest: string)
    requires headerSize <= MAX_RECORD_SIZE
    ensures !(CFG_PREFIX <= Le32(headerSize) + rest)
  {
    assert (Le32(headerSize) + rest)[3] == Le32(headerSize)[3] == NUL;
    assert CFG_PREFIX[3] == ':';
  }

  lemma CfgFieldParses(cfg: Option<string>, headerSize: nat, rest: string)
    requires headerSize <= MAX_RECORD_SIZE
    requires cfg.Some? ==> OneLine(cfg.value)
    ensures ParseCfg(CfgField(cfg) + (Le32(headerSize) + rest)) == (cfg, |CfgField(cfg)|)
  {
    var buf := CfgField(cfg) + (Le32(headerSize) + rest);
    match cfg
    case None =>
      assert buf == Le32(headerSize) + rest;
      SizeIsNotCfg(headerSize, rest);
    case Some(path) =>
      assert buf[..4] == CFG_PREFIX;
      assert buf[4..] == path + [NUL] + (Le32(headerSize) + rest);
      IndexOfAfter(path, NUL, Le32(headerSize) + rest);
  }

  lemma SplitIs(buf: string, c: string, h: string, msg: string, cfg: Option<string>)
    requires buf == c + (h + msg) && |h| == 4
    requires ParseCfg(buf) == (cfg, |c|)
    requires FromLe32(h) < |msg| && NUL in msg[FromLe32(h)..]
    ensures Split(buf) == Some((cfg, CStr(msg[..FromLe32(h)]), CStr(msg[FromLe32(h)..])))
  {
    Middle(c, h, msg);
  }

  lemma Middle(c: string, h: string, msg: string)
    ensures (c + (h + msg))[|c|..|c| + |h|] == h
    ensures (c + (h + msg))[|c| + |h|..] == msg
  {
  }

  lemma SixParts(a: string, b: string, c: string, d: string, e: string, f: string)
    requires |a| == 4
    ensures (a + b + c + d + e + f)[..4] == a
    ensures (a + b + c + d + e + f)[4..] == b + (c + (d + e + f))
  {
  }

  /** The parts of a frame behind its record size. */
  lemma FrameSplits(cfg: Option<string>, text: string, payload: string)
    requires |text| <= MAX_RECORD_SIZE && NUL !in text && NUL !in payload
    requires cfg.Some? ==> OneLine(cfg.value)
    ensures Split(CfgField(cfg) + (Le32(|text|) + (text + payload + [NUL]))) == Some((cfg, text, payload))
  {
    var msg := text + payload + [NUL];
    assert msg[..|text|] == text && msg[|text|..] == payload + [NUL];
    CStrOf(text, payload);
    Le32RoundTrip(|text|);
    CfgFieldParses(cfg, |text|, msg);
    SplitIs(CfgField(cfg) + (Le32(|text|) + msg), CfgField(cfg), Le32(|text|), msg, cfg);
  }

  lemma CStrOf(text: string, payload: string)
    requires NUL !in text && NUL !in payload
    ensures CStr(text) == text && CStr(payload + [NUL]) == payload && NUL in payload + [NUL]
  {
    IndexOfAbsent(text, NUL);
    IndexOfAfter(payload, NUL, []);
    assert payload + [NUL] + [] == payload + [NUL];
    assert (payload + [NUL])[|payload|] == NUL;
  }

  /** The frame of a record whose header_size is what its headers take. */
  function FrameOf(cfg: Option<string>, lines: seq<string>, payload: string): string {
    Frame(cfg, Terminated(lines), |JoinLines(lines)|, payload)
  }

  lemma FrameParts(cfg: Option<string>, lines: seq<string>, payload: string)
    ensures FrameOf(cfg, lines, payload)[..4] == Le32(FrameSize(cfg, |JoinLines(lines)|, payload))
    ensures FrameOf(cfg, lines, payload)[4..] ==
      CfgField(cfg) + (Le32(|JoinLines(lines)|) + (JoinLines(lines) + payload + [NUL]))
  {
    ConcatTerminated(lines);
    SixParts(Le32(FrameSize(cfg, |JoinLines(lines)|, payload)), CfgField(cfg), Le32(|JoinLines(lines)|),
             JoinLines(lines), payload, [NUL]);
  }

  lemma FrameStartsWithItsSize(cfg: Option<string>, lines: seq<string>, payload: string)
    requires FrameSize(cfg, |JoinLines(lines)|, payload) < TWO32
    ensures |FrameOf(cfg, lines, payload)| == FrameSize(cfg, |JoinLines(lines)|, payload)
    ensures FromLe32(FrameOf(cfg, lines, payload)[..4]) == |FrameOf(cfg, lines, payload)|
  {
    ConcatTerminated(lines);
    FieldsFill(cfg, Terminated(lines), |JoinLines(lines)|, payload);
    FrameParts(cfg, lines, payload);
    Le32RoundTrip(FrameSize(cfg, |JoinLines(lines)|, payload));
  }

  /** A frame that fits is received whole, however it is cut into reads and whatever follows it. */
  lemma FrameIsReceived(frame: string, more: string)
    requires 4 < |frame| <= MAX_RECORD_SIZE && FromLe32(frame[..4]) == |frame|
    ensures Received(frame + more) == Some(frame[4..])
  {
  }

  // ---- The staged file and its reading ----

  lemma {:induction false} NulFreeCut(line: string)
    requires OneLine(line)
    ensures ByStrchr(line) == line && ByStrchr(line + "\n") == line
  {
    IndexOfAbsent(line, NUL);
    IndexOfAbsent(line, '\n');
    IndexOfAbsent(line + "\n", NUL);
    IndexOfAfter(line, '\n', "");
    assert line + "\n" + "" == line + "\n";
  }

  lemma ShortLineIsRead(line: string, rest: string)
    requires OneLine(line) && |line| < LINE_CHARS
    ensures var text := line + "\n" + rest;
      var n := FgetsLen(text);
      ByStrchr(text[..n]) == line && text[n..] == rest
  {
    var text := line + "\n" + rest;
    IndexOfAfter(line, '\n', rest);
    assert text[..|line| + 1] == line + "\n" && text[|line| + 1..] == rest;
    NulFreeCut(line);
  }

  lemma LongLineIsCut(line: string, rest: string)
    requires OneLine(line) && LINE_CHARS <= |line|
    ensures var text := line + "\n" + rest;
      && FgetsLen(text) == LINE_CHARS
      && ByStrchr(text[..LINE_CHARS]) == line[..LINE_CHARS]
      && text[LINE_CHARS..] == line[LINE_CHARS..] + "\n" + rest
  {
  }

  /** An empty line is no header, so reading stops there. */
  lemma EmptyLineIsNoHeader(rest: string, names: seq<string>)
    requires names != [] && IsWord(names[0])
    ensures ReadHeaders(ByStrchr, "\n" + rest, names) == None
  {
  }

  /** The headers come back, with the cursor behind them, exactly when every line fits the line buffer. */
  lemma {:induction false} ReadJoinedIff(lines: seq<string>, names: seq<string>, tail: string)
    requires HeaderLines(lines, names)
    ensures ReadHeaders(ByStrchr, JoinLines(lines) + tail, names) == Some((lines, tail))
      <==> forall i :: 0 <= i < |lines| ==> |lines[i]| < LINE_CHARS
    decreases |lines|
  {
    hide FgetsLen, ByStrchr, Behind;
    if lines == [] {
      assert JoinLines(lines) + tail == tail;
    } else {
      var rest := JoinLines(lines[1..]) + tail;
      var text := lines[0] + "\n" + rest;
      assert JoinLines(lines) + tail == text;
      HeaderStep(ByStrchr, text, names, []);
      BehindNothing(ReadHeaders(ByStrchr, text, names));
      if |lines[0]| < LINE_CHARS {
        ShortLineIsRead(lines[0], rest);
        ReadJoinedIff(lines[1..], names[1..], tail);
        ConsIff(lines, ReadHeaders(ByStrchr, rest, names[1..]), tail);
      } else {
        LongLineIsNotRead(lines, names, tail);
      }
    }
  }

  lemma ConsIff(lines: seq<string>, r: Option<(seq<string>, string)>, tail: string)
    requires lines != []
    ensures Behind([] + [lines[0]], r) == Some((lines, tail)) <==> r == Some((lines[1..], tail))
  {
    assert [] + [lines[0]] == [lines[0]];
    assert [lines[0]] + lines[1..] == lines;
    if r.Some? {
      assert ([lines[0]] + r.value.0)[1..] == r.value.0;
    }
  }

  lemma LongLineIsNotRead(lines: seq<string>, names: seq<string>, tail: string)
    requires HeaderLines(lines, names) && lines != []
    requires LINE_CHARS <= |lines[0]|
    ensures ReadHeaders(ByStrchr, JoinLines(lines) + tail, names) != Some((lines, tail))
  {
  }

  /** The file as a whole: the config line, the headers, and the body with its newline. */
  lemma FileIsReadIff(cfg: Option<string>, headers: seq<string>, names: seq<string>, body: string)
    requires cfg.Some? ==> OneLine(cfg.value)
    requires HeaderLines(headers, names) && names != [] && |names[0]| >= 4 && names[0][0] != 'C'
    ensures Read(ByStrchr, names, StagedText(Staged(cfg, headers, body))) == Some(Loaded(cfg, headers, body + "\n"))
      <==> LinesFit(cfg, headers)
  {
    var text := JoinLines(headers) + (body + "\n");
    var file := StagedText(Staged(cfg, headers, body));
    assert file == CfgLine(cfg) + text;
    assert text[0] == headers[0][0] == names[0][0];
    match cfg
    case None =>
      assert file == text;
      TextIsReadIff(file, cfg, headers, names, body);
    case Some(path) =>
      assert file == CFG_PREFIX + (path + "\n" + text);
      CfgLineIsReadIff(path, text, names);
      if |path| < LINE_CHARS {
        TextIsReadIff(file, cfg, headers, names, body);
      }
  }

  lemma TextIsReadIff(file: string, cfg: Option<string>, headers: seq<string>, names: seq<string>, body: string)
    requires HeaderLines(headers, names)
    requires ReadCfg(file) == Some((cfg, JoinLines(headers) + (body + "\n")))
    ensures Read(ByStrchr, names, file) == Some(Loaded(cfg, headers, body + "\n"))
      <==> forall i :: 0 <= i < |headers| ==> |headers[i]| < LINE_CHARS
  {
    ReadJoinedIff(headers, names, body + "\n");
  }

  /** A file that ends with its headers is read by neither reader. */
  lemma NoBodyIsNotRead(lines: seq<string>)
    requires HeaderLines(lines, NAMES) && forall i :: 0 <= i < |lines| ==> |lines[i]| < LINE_CHARS
    ensures ReadStaged(JoinLines(lines)) == None && ReadSpooled(JoinLines(lines)) == None
  {
    hide ReadHeaders, FgetsLen;
    ReadersAgree(JoinLines(lines));
    assert JoinLines(lines) + "" == JoinLines(lines);
    ReadJoinedIff(lines, NAMES, "");
    assert NAMES[0] == "record_format_version" && JoinLines(lines)[0] == lines[0][0] == 'r';
  }

  lemma CfgLineIsReadIff(path: string, text: string, names: seq<string>)
    requires OneLine(path) && names != [] && IsWord(names[0])
    ensures var file := CFG_PREFIX + (path + "\n" + text);
      if |path| < LINE_CHARS then ReadCfg(file) == Some((Some(path), text))
      else Read(ByStrchr, names, file).Some? ==> Read(ByStrchr, names, file).value.cfg != Some(path)
  {
    var file := CFG_PREFIX + (path + "\n" + text);
    assert file[4..] == path + "\n" + text;
    if |path| < LINE_CHARS {
      ShortLineIsRead(path, text);
    } else {
      LongLineIsCut(path, text);
      if |path| == LINE_CHARS {
        assert path[LINE_CHARS..] + "\n" + text == "\n" + text;
        EmptyLineIsNoHeader(text, names);
      }
    }
  }

  ghost predicate LinesFit(cfg: Option<string>, headers: seq<string>) {
    && (cfg.Some? ==> |cfg.value| < LINE_CHARS)
    && forall i :: 0 <= i < |headers| ==> |headers[i]| < LINE_CHARS
  }

  lemma KeptAreHeaderLines(lines: seq<string>, names: seq<string>, machineId: string)
    requires HeaderLines(lines, names) && OneLine(machineId)
    ensures HeaderLines(Kept(lines, names, machineId), names)
  {
  }

  /**
   The whole way. A record is framed, received in any pieces, parsed, staged and read back:
   the probe daemon accepts it with only its header number 3, the machine id, replaced, and
   both readers return that config path, those headers and the payload with one newline
   exactly when no line is too long for their line buffer.
   */
  lemma EndToEnd(cfg: Option<string>, lines: seq<string>, payload: string, machineId: string, more: string)
    requires HeaderLines(lines, NAMES)
    requires cfg.Some? ==> OneLine(cfg.value)
    requires NUL !in payload && OneLine(machineId)
    requires FrameSize(cfg, |JoinLines(lines)|, payload) <= MAX_RECORD_SIZE
    ensures |lines| == 15
    ensures var kept := lines[3 := "machine_id: " + machineId];
      var buf := Received(FrameOf(cfg, lines, payload) + more);
      && buf.Some?
      && ParseRecord(buf.value, machineId) == Accepted(Staged(cfg, kept, payload))
      && ReadStaged(StagedText(Staged(cfg, kept, payload))) == ReadSpooled(StagedText(Staged(cfg, kept, payload)))
      && (ReadStaged(StagedText(Staged(cfg, kept, payload))) == Some(Loaded(cfg, kept, payload + "\n"))
          <==> LinesFit(cfg, kept))
  {
    var text := JoinLines(lines);
    var kept := Kept(lines, NAMES, machineId);
    FrameStartsWithItsSize(cfg, lines, payload);
    FrameIsReceived(FrameOf(cfg, lines, payload), more);
    FrameParts(cfg, lines, payload);
    JoinHasNoNul(lines);
    FrameSplits(cfg, text, payload);
    ParseJoined(lines, NAMES, machineId);
    KeptIs(lines, machineId);
    KeptAreHeaderLines(lines, NAMES, machineId);
    assert NAMES[0] == "record_format_version";
    FileIsReadIff(cfg, kept, NAMES, payload);
    ReadersAgree(StagedText(Staged(cfg, kept, payload)));
  }

  /** The lines of a record whose headers have the given values. */
  function LinesOf(names: seq<string>, values: seq<string>): (lines: seq<string>)
    requires |names| == |values|
    ensures |lines| == |names|
  {
    seq(|names|, i requires 0 <= i < |names| => names[i] + ": " + values[i])
  }

  /** The headers that tm_create_record makes of one-line values are such lines. */
  lemma RecordHasHeaderLines(values: seq<string>)
    requires |values| == NUM_HEADERS && forall v :: v in values ==> OneLine(v)
    ensures |NAMES| == NUM_HEADERS && HeaderLines(LinesOf(NAMES, values), NAMES)
    ensures Terminated(LinesOf(NAMES, values)) ==
      seq(NUM_HEADERS, i requires 0 <= i < NUM_HEADERS => HeaderLine(NAMES[i], values[i]))
  {
    NamesAreWords();
    LinesOfWords(NAMES, values);
  }

  lemma LinesOfWords(names: seq<string>, values: seq<string>)
    requires |values| == |names| && forall v :: v in values ==> OneLine(v)
    requires forall i :: 0 <= i < |names| ==> IsWord(names[i])
    ensures HeaderLines(LinesOf(names, values), names)
    ensures Terminated(LinesOf(names, values)) ==
      seq(|names|, i requires 0 <= i < |names| => HeaderLine(names[i], values[i]))
  {
    forall i | 0 <= i < |names|
      ensures names[i] <= LinesOf(names, values)[i] && OneLine(LinesOf(names, values)[i])
    {
      assert values[i] in values;
    }
  }

  lemma {:induction false} WordsJoin(lines: seq<string>)
    requires forall i :: 0 <= i < |lines| ==> IsWord(lines[i])
    ensures |JoinLines(lines)| <= 23 * |lines|
  {
    if lines == [] {
    } else {
      WordsJoin(lines[1..]);
    }
  }

  lemma NamesAreHeaderLines(names: seq<string>)
    requires forall i :: 0 <= i < |names| ==> IsWord(names[i])
    ensures HeaderLines(names, names)
  {
  }

  function LongPath(): (path: string)
    ensures |path| == LINE_CHARS && OneLine(path)
  {
    seq(LINE_CHARS, _ => 'x')
  }

  lemma LongPathFits()
    ensures HeaderLines(NAMES, NAMES)
    ensures FrameSize(Some(LongPath()), |JoinLines(NAMES)|, "") <= MAX_RECORD_SIZE
  {
    hide LongPath;
    NamesAreWords();
    NamesAreHeaderLines(NAMES);
    WordsJoin(NAMES);
  }

  /**
   A record with a config path of 4096 characters is received, accepted and staged, but neither reader returns it.
   The library does not send such a path, because stat refuses it; another client of the socket can.
   */
  lemma LongPathIsLost(machineId: string)
    requires OneLine(machineId)
    ensures |NAMES| == NUM_HEADERS
    ensures var record := Staged(Some(LongPath()), NAMES[3 := "machine_id: " + machineId], "");
      var buf := Received(FrameOf(Some(LongPath()), NAMES, ""));
      var loaded := Some(Loaded(record.cfg, record.headers, "\n"));
      && buf.Some? && ParseRecord(buf.value, machineId) == Accepted(record)
      && ReadStaged(StagedText(record)) != loaded && ReadSpooled(StagedText(record)) != loaded
  {
    hide LongPath, HeaderLines, Kept, JoinLines, FrameOf, StagedText, ReadStaged, ReadSpooled, Received;
    hide ParseRecord, OneLine;
    LongPathFits();
    NamesAreWords();
    EndToEnd(Some(LongPath()), NAMES, "", machineId, "");
    assert FrameOf(Some(LongPath()), NAMES, "") + "" == FrameOf(Some(LongPath()), NAMES, "");
    assert "" + "\n" == "\n";
  }

  lemma PayloadHasNoNul(text: string)
    ensures NUL !in CStr(text)
  {
  }

  lemma FrameOfRecord(cfg: Option<string>, values: seq<string>, headers: seq<string>, headerSize: nat, payload: string)
    requires |values| == NUM_HEADERS && forall v :: v in values ==> OneLine(v)
    requires |headers| == NUM_HEADERS && headerSize == |Concat(headers)|
    requires forall i :: 0 <= i < NUM_HEADERS ==> headers[i] == HeaderLine(NAMES[i], values[i])
    ensures |NAMES| == NUM_HEADERS && HeaderLines(LinesOf(NAMES, values), NAMES)
    ensures headerSize == |JoinLines(LinesOf(NAMES, values))|
    ensures Frame(cfg, headers, headerSize, payload) == FrameOf(cfg, LinesOf(NAMES, values), payload)
  {
    hide HeaderLine, Concat, JoinLines, HeaderLines, Frame;
    RecordHasHeaderLines(values);
    assert headers == Terminated(LinesOf(NAMES, values));
    ConcatTerminated(LinesOf(NAMES, values));
  }

  /** The library's part: the record, its payload and the frame; none if the payload is rejected. */
  method MakeFrame(values: seq<string>, cfg: Option<string>, text: string) returns (frame: Option<string>)
    requires |values| == NUM_HEADERS == |NAMES| && |values[EVENT_ID]| == EVENT_ID_LEN
    requires forall v :: v in values ==> OneLine(v)
    ensures HeaderLines(LinesOf(NAMES, values), NAMES)
    ensures frame == if IsPayload(text) then Some(FrameOf(cfg, LinesOf(NAMES, values), CStr(text))) else None
  {
    hide HeaderLines, IsPayload, CStr;
    RecordHasHeaderLines(values);
    var record := new TelemRecord(values);
    var ok := record.SetPayload(text);
    if !ok {
      return None;
    }
    var data := record.FillFrame(cfg);
    hide Frame, FrameOf, LinesOf;
    FrameOfRecord(cfg, values, record.headers[..], record.headerSize, CStr(text));
    frame := Some(data[..]);
  }

  /**
   Each component does its part: the library makes the record and fills the frame, the probe daemon receives it in the
   pieces that `read` decides, parses it and writes the file, and both readers read it.
   */
  method SendStageAndRead(values: seq<string>, cfg: Option<string>, text: string, machineId: string, read: nat -> nat)
    returns (staged: Option<Loaded>, spooled: Option<Loaded>)
    requires |values| == NUM_HEADERS == |NAMES| && |values[EVENT_ID]| == EVENT_ID_LEN
    requires forall v :: v in values ==> OneLine(v)
    requires (cfg.Some? ==> OneLine(cfg.value)) && OneLine(machineId)
    requires FrameSize(cfg, |JoinLines(LinesOf(NAMES, values))|, CStr(text)) <= MAX_RECORD_SIZE
    ensures staged == spooled
    ensures !IsPayload(text) ==> staged == None
    ensures |LinesOf(NAMES, values)| == 15
    ensures var kept := LinesOf(NAMES, values)[3 := "machine_id: " + machineId];
      IsPayload(text) ==> (staged == Some(Loaded(cfg, kept, CStr(text) + "\n")) <==> LinesFit(cfg, kept))
  {
    hide FrameOf, LinesOf, JoinLines, HeaderLines, IsPayload, CStr, Received, ParseRecord, StagedText, Kept, OneLine;
    hide ReadStaged, ReadSpooled, LinesFit, FrameSize;
    var frame := MakeFrame(values, cfg, text);
    if frame.None? {
      return None, None;
    }
    PayloadHasNoNul(text);
    EndToEnd(cfg, LinesOf(NAMES, values), CStr(text), machineId, "");
    FrameIsNotShort(cfg, LinesOf(NAMES, values), CStr(text));
    assert frame.value + "" == frame.value;
    var buf := HandleClient(frame.value, read);
    var parsed := ProcessRecord(buf.value, machineId);
    var file := StageRecord(parsed.record);
    staged := ReadRecord(file);
    spooled := ReadForTransmit(file);
  }

  lemma FrameIsNotShort(cfg: Option<string>, lines: seq<string>, payload: string)
    ensures |FrameOf(cfg, lines, payload)| >= 4
  {
  }

  // ---- Which records are accepted ----

  /** The lines of a text that are not empty. */
  function Tokens(lines: seq<string>): seq<string> {
    if lines == [] then [] else (if lines[0] == "" then [] else [lines[0]]) + Tokens(lines[1..])
  }

  /** What is left behind the first line. */
  function Rest(text: string): string {
    var i := IndexOf(text, '\n');
    if i < |text| then text[i + 1..] else ""
  }

  lemma TokensFirst(line: string, lines: seq<string>)
    ensures line == "" ==> Tokens([line] + lines) == Tokens(lines)
    ensures line != "" ==> Tokens([line] + lines) == [line] + Tokens(lines)
  {
    assert ([line] + lines)[1..] == lines;
    assert [] + Tokens(lines) == Tokens(lines);
  }

  lemma LinesFirst(text: string)
    requires text != ""
    ensures Lines(text) == [text[..IndexOf(text, '\n')]] + Lines(Rest(text))
  {
    if IndexOf(text, '\n') == |text| {
      assert text[..|text|] == text;
    }
  }

  lemma NewlineFirst(text: string)
    requires text != "" && text[0] == '\n'
    ensures IndexOf(text, '\n') == 0 && Rest(text) == text[1..]
  {
    IndexOfIs(text, '\n', 0);
  }

  lemma TailIs(first: string, rest: seq<string>)
    ensures [first] + rest != [] && ([first] + rest)[0] == first && ([first] + rest)[1..] == rest
  {
  }

  lemma {:induction false} StrTokIs(text: string)
    ensures var toks := Tokens(Lines(text));
      if toks == [] then StrTok(text).0 == None
      else StrTok(text).0 == Some(toks[0]) && Tokens(Lines(StrTok(text).1)) == toks[1..]
    decreases |text|
  {
    if text == "" {
    } else {
      hide Lines, Tokens, IndexOf;
      var line := text[..IndexOf(text, '\n')];
      LinesFirst(text);
      TokensFirst(line, Lines(Rest(text)));
      if text[0] == '\n' {
        NewlineFirst(text);
        StrTokIs(text[1..]);
      } else {
        TokenFirst(text);
        TailIs(line, Tokens(Lines(Rest(text))));
      }
    }
  }

  lemma TokenFirst(text: string)
    requires text != "" && text[0] != '\n'
    ensures StrTok(text) == (Some(text[..IndexOf(text, '\n')]), Rest(text)) && IndexOf(text, '\n') > 0
  {
  }

  /** The first tokens carry the names. */
  predicate CarryNames(toks: seq<string>, names: seq<string>) {
    |names| <= |toks| && forall i :: 0 <= i < |names| ==> names[i] <= toks[i]
  }

  lemma CarryNamesFirst(toks: seq<string>, names: seq<string>)
    requires toks != [] && names != []
    ensures CarryNames(toks, names) <==> names[0] <= toks[0] && CarryNames(toks[1..], names[1..])
  {
    if names[0] <= toks[0] && CarryNames(toks[1..], names[1..]) {
      forall i | 0 <= i < |names|
        ensures names[i] <= toks[i]
      {
        assert i > 0 ==> names[1..][i - 1] <= toks[1..][i - 1];
      }
    }
  }

  /** Headers are accepted exactly when the lines that are not empty carry the names in order; the rest is ignored. */
  lemma {:induction false} HeadersParseIff(text: string, names: seq<string>, machineId: string)
    ensures var toks := Tokens(Lines(text));
      ParseHeaders(text, names, machineId) ==
        if CarryNames(toks, names) then Some(Kept(toks[..|names|], names, machineId)) else None
    decreases |names|
  {
    hide StrTok, Tokens, Lines, Keep;
    var toks := Tokens(Lines(text));
    StrTokIs(text);
    if names == [] {
      assert toks[..0] == [] && Kept(toks[..0], names, machineId) == [];
    } else if toks == [] {
    } else {
      CarryNamesFirst(toks, names);
      HeadersParseIff(StrTok(text).1, names[1..], machineId);
      if CarryNames(toks, names) {
        assert toks[..|names|][1..] == toks[1..][..|names| - 1];
        KeptFirst(toks[..|names|], names, machineId);
      }
    }
  }

  /** A record with a header missing, misnamed or out of order is rejected, and no other whose fields are within it. */
  lemma RejectedIff(buf: string, machineId: string)
    ensures ParseRecord(buf, machineId) == Rejected <==>
      Split(buf).Some? && !CarryNames(Tokens(Lines(Split(buf).value.1)), NAMES)
  {
    hide Split, Tokens, Lines, CarryNames;
    if Split(buf).Some? {
      HeadersParseIff(Split(buf).value.1, NAMES, machineId);
    }
  }

  /** A body is received exactly when the stream starts with its size, which is within bounds, and the body. */
  lemma ReceivedIff(stream: string, body: string)
    ensures Received(stream) == Some(body) <==>
      && 0 < |body| <= 13496 && |body| + 4 <= |stream|
      && FromLe32(stream[..4]) == |body| + 4 && stream[4..|body| + 4] == body
  {
  }
}
