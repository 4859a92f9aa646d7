/** The probe daemon: reassembling a record from a socket, parsing it and writing it to the spool. */
module Receiver {
  import opened CStrings
  import opened Headers

  const RECORD_SIZE_LEN := 4
  const PATH_MAX := 4096
  const MAX_RECORD_SIZE := 8 + 4 + PATH_MAX + MAX_PAYLOAD_LENGTH + NUM_HEADERS * 80

  predicate SizeAccepted(recordSize: nat) {
    RECORD_SIZE_LEN < recordSize <= MAX_RECORD_SIZE
  }

  /** What a connection that delivers `stream` hands to process_record, if anything. */
  function Received(stream: string): Option<string> {
    if |stream| < 4 then None
    else
      var recordSize := FromLe32(stream[..4]);
      if SizeAccepted(recordSize) && recordSize <= |stream| then Some(stream[4..recordSize]) else None
  }

  /**
   One call of handle_client. The k-th read of the body returns between one byte and
   all that is asked for and available, as `read` decides; an exhausted stream ends it.
   */
  method HandleClient(stream: string, read: nat -> nat) returns (buf: Option<string>)
    requires stream == "" || RECORD_SIZE_LEN <= |stream|
    ensures buf == Received(stream)
  {
    if |stream| == 0 {
      return None;
    }
    var recordSize := FromLe32(stream[..RECORD_SIZE_LEN]);
    if recordSize <= RECORD_SIZE_LEN || recordSize > MAX_RECORD_SIZE {
      return None;
    }
    var size := recordSize - RECORD_SIZE_LEN;
    var data := new char[size](_ => NUL);
    var offset, k := 0, 0;
    while true
      invariant offset < size && RECORD_SIZE_LEN + offset <= |stream|
      invariant data[..offset] == stream[RECORD_SIZE_LEN..RECORD_SIZE_LEN + offset]
      decreases size - offset
    {
      var available := |stream| - RECORD_SIZE_LEN - offset;
      if available == 0 {
        return None;
      }
      var want := if available < size - offset then available else size - offset;
      var len := if read(k) == 0 then 1 else if read(k) > want then want else read(k);
      k := k + 1;
      Recv(data, offset, stream[RECORD_SIZE_LEN + offset..RECORD_SIZE_LEN + offset + len]);
      offset := offset + len;
      if offset == size {
        assert data[..] == data[..offset] == stream[4..recordSize];
        return Some(data[..]);
      }
    }
  }

  method Recv(data: array<char>, offset: nat, bytes: string)
    requires offset + |bytes| <= data.Length
    modifies data
    ensures data[..offset + |bytes|] == old(data[..offset]) + bytes
  {
    for k := 0 to |bytes|
      invariant data[..offset + k] == old(data[..offset]) + bytes[..k]
    {
      data[offset + k] := bytes[k];
    }
    assert bytes[..|bytes|] == bytes;
  }

  // ---- Parsing ----

  /** strtok(s, "\n"): the next token and what is left behind it. */
  function StrTok(s: string): (r: (Option<string>, string))
    ensures r.0.Some? ==> |r.1| < |s|
  {
    if s == [] then (None, [])
    else if s[0] == '\n' then StrTok(s[1..])
    else
      var n := IndexOf(s, '\n');
      (Some(s[..n]), if n < |s| then s[n + 1..] else [])
  }

  const MACHINE_ID_NAME := "machine_id"

  /** The header kept for a token; the sender's machine id is replaced. */
  function Keep(name: string, tok: string, machineId: string): string {
    if name == MACHINE_ID_NAME then name + ": " + machineId else tok
  }

  /** The headers with the given names, taken one after the other from the header text. */
  function ParseHeaders(text: string, names: seq<string>, machineId: string): (hs: Option<seq<string>>)
    ensures hs.Some? ==> |hs.value| == |names|
    decreases |names|
  {
    if names == [] then Some([])
    else
      var (tok, rest) := StrTok(text);
      if tok.None? || !(names[0] <= tok.value) then None
      else
        match ParseHeaders(rest, names[1..], machineId)
        case None => None
        case Some(more) => Some([Keep(names[0], tok.value, machineId)] + more)
  }

  datatype Staged = Staged(cfg: Option<string>, headers: seq<string>, body: string)

  /** Rejected: a wrong header. OutOfBounds: a frame whose fields reach past its end, which the source reads anyway. */
  datatype Parsed = Accepted(record: Staged) | Rejected | OutOfBounds

  /** The optional config path at the start of a record, and the number of bytes it takes. */
  function ParseCfg(buf: string): (r: (Option<string>, nat)) {
    if CFG_PREFIX <= buf then
      var path := CStr(buf[4..]);
      (Some(path), 4 + |path| + 1)
    else (None, 0)
  }

  /** The fields of a frame, or None when one of them reaches past its end. */
  function Split(buf: string): Option<(Option<string>, string, string)> {
    var (cfg, skip) := ParseCfg(buf);
    if |buf| < skip + 4 then None
    else
      var headerSize := FromLe32(buf[skip..skip + 4]);
      var msg := buf[skip + 4..];
      if |msg| <= headerSize || NUL !in msg[headerSize..] then None
      else Some((cfg, CStr(msg[..headerSize]), CStr(msg[headerSize..])))
  }

  function ParseRecord(buf: string, machineId: string): Parsed {
    match Split(buf)
    case None => OutOfBounds
    case Some((cfg, text, body)) =>
      match ParseHeaders(text, NAMES, machineId)
      case None => Rejected
      case Some(headers) => Accepted(Staged(cfg, headers, body))
  }

  method ProcessRecord(buf: string, machineId: string) returns (parsed: Parsed)
    ensures parsed == ParseRecord(buf, machineId)
  {
    var fields := Split(buf);
    if fields.None? {
      return OutOfBounds;
    }
    var (cfg, text, body) := fields.value;
    var headers := TokenizeHeaders(text, NAMES, machineId);
    if headers.None? {
      return Rejected;
    }
    return Accepted(Staged(cfg, headers.value, body));
  }

  /** The strtok loop of process_record. */
  method TokenizeHeaders(text: string, names: seq<string>, machineId: string) returns (result: Option<seq<string>>)
    ensures result == ParseHeaders(text, names, machineId)
  {
    var next := StrTok(text);
    var headers := [];
    ghost var todo := text;
    AfterNothing(ParseHeaders(text, names, machineId));
    for i := 0 to |names|
      invariant |headers| == i
      invariant next == StrTok(todo)
      invariant ParseHeaders(text, names, machineId) == After(headers, ParseHeaders(todo, names[i..], machineId))
    {
      assert names[i..][0] == names[i] && names[i..][1..] == names[i + 1..];
      if next.0.None? || !(names[i] <= next.0.value) {
        return None;
      }
      AfterStep(headers, Keep(names[i], next.0.value, machineId), ParseHeaders(next.1, names[i + 1..], machineId));
      headers := headers + [Keep(names[i], next.0.value, machineId)];
      todo := next.1;
      next := StrTok(next.1);
    }
    assert headers + [] == headers;
    return Some(headers);
  }

  ghost function After(done: seq<string>, more: Option<seq<string>>): Option<seq<string>> {
    match more case None => None case Some(hs) => Some(done + hs)
  }

  lemma AfterNothing(more: Option<seq<string>>)
    ensures After([], more) == more
  {
    if more.Some? {
      assert [] + more.value == more.value;
    }
  }

  lemma AfterStep(done: seq<string>, h: string, more: Option<seq<string>>)
    ensures After(done + [h], more) == After(done, After([h], more))
  {
    if more.Some? {
      assert done + [h] + more.value == done + ([h] + more.value);
    }
  }

  // ---- Staging ----

  function CfgLine(cfg: Option<string>): string {
    match cfg
    case None => ""
    case Some(path) => CFG_PREFIX + path + "\n"
  }

  /** The text of a spool file. */
  function StagedText(r: Staged): string {
    CfgLine(r.cfg) + JoinLines(r.headers) + r.body + "\n"
  }

  method StageRecord(r: Staged) returns (file: string)
    requires |r.headers| == NUM_HEADERS
    ensures file == StagedText(r)
  {
    file := "";
    if r.cfg.Some? {
      file := file + CFG_PREFIX + r.cfg.value + "\n";
    }
    assert file == CfgLine(r.cfg);
    for i := 0 to NUM_HEADERS
      invariant file == CfgLine(r.cfg) + JoinLines(r.headers[..i])
    {
      JoinLinesLast(r.headers[..i], r.headers[i]);
      assert r.headers[..i + 1] == r.headers[..i] + [r.headers[i]];
      file := file + r.headers[i] + "\n";
    }
    assert r.headers[..NUM_HEADERS] == r.headers;
    file := file + r.body + "\n";
  }
}
