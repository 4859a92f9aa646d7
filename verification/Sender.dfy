/** The fifteen record headers, in the order in which every component sends and expects them. */
module Headers {
  const NUM_HEADERS := 15
  const CLASSIFICATION := 1
  const EVENT_ID := 14

  const NAMES: seq<string> := [
    "record_format_version", "classification", "severity", "machine_id", "creation_timestamp",
    "arch", "host_type", "build", "kernel_version", "payload_format_version",
    "system_name", "board_name", "cpu_model", "bios_version", "event_id"
  ]

  /** A non-empty word on one line, much shorter than a line buffer. */
  ghost predicate IsWord(s: string) {
    0 < |s| <= 22 && '\n' !in s && '\0' !in s
  }

  lemma NamesAreWords()
    ensures |NAMES| == NUM_HEADERS
    ensures forall i :: 0 <= i < NUM_HEADERS ==> IsWord(NAMES[i])
  {
    LowNamesAreWords();
    HighNamesAreWords();
  }

  lemma LowNamesAreWords()
    ensures forall i :: 0 <= i < 8 ==> IsWord(NAMES[i])
  {
  }

  lemma HighNamesAreWords()
    ensures forall i :: 8 <= i < NUM_HEADERS ==> IsWord(NAMES[i])
  {
  }

  const CFG_PREFIX := "CFG:"
  const MAX_PAYLOAD_LENGTH := 8192

  function Concat(parts: seq<string>): string {
    if parts == [] then "" else parts[0] + Concat(parts[1..])
  }

  lemma {:induction false} ConcatLast(parts: seq<string>)
    requires parts != []
    ensures Concat(parts) == Concat(parts[..|parts| - 1]) + parts[|parts| - 1]
  {
    if |parts| > 1 {
      ConcatLast(parts[1..]);
      assert parts[1..][..|parts| - 2] == parts[..|parts| - 1][1..];
    }
  }
}

/** libtelemetry: building a record and framing it for the probe daemon. */
module Sender {
  import opened CStrings
  import opened Headers

  const EVENT_ID_LEN := 32
  const EVENT_ID_LINE_LEN := 8 + 2 + EVENT_ID_LEN + 1
  const EVENT_ID_ALPHABET := "0123456789abcdef"

  predicate IsEventId(id: string) {
    |id| == EVENT_ID_LEN && forall c :: c in id ==> c in EVENT_ID_ALPHABET
  }

  lemma IsHexDigitIff(c: char)
    ensures c in EVENT_ID_ALPHABET <==> '0' <= c <= '9' || 'a' <= c <= 'f'
  {
    if '0' <= c <= '9' {
      assert EVENT_ID_ALPHABET[c as int - '0' as int] == c;
    } else if 'a' <= c <= 'f' {
      assert EVENT_ID_ALPHABET[c as int - 'a' as int + 10] == c;
    }
  }

  /** An event id is 32 hexadecimal digits in lower case. */
  lemma EventIdIff(id: string)
    ensures IsEventId(id) <==>
      |id| == 32 && forall i :: 0 <= i < |id| ==> '0' <= id[i] <= '9' || 'a' <= id[i] <= 'f'
  {
    forall i | 0 <= i < |id|
      ensures id[i] in EVENT_ID_ALPHABET <==> '0' <= id[i] <= '9' || 'a' <= id[i] <= 'f'
    {
      IsHexDigitIff(id[i]);
    }
    assert (forall c :: c in id ==> c in EVENT_ID_ALPHABET) <==>
      (forall i :: 0 <= i < |id| ==> id[i] in EVENT_ID_ALPHABET);
  }

  /** What isprint or isspace accepts in the C locale. */
  predicate IsText(c: char) {
    ' ' <= c <= '~' || '\t' <= c <= '\r'
  }

  function HeaderLine(name: string, value: string): string {
    name + ": " + value + "\n"
  }

  function CfgField(cfg: Option<string>): string {
    match cfg
    case None => ""
    case Some(path) => CFG_PREFIX + path + [NUL]
  }

  /** Two 32-bit sizes, the fields and a terminator. */
  function FrameSize(cfg: Option<string>, headerSize: nat, payload: string): nat {
    8 + headerSize + |payload| + |CfgField(cfg)| + 1
  }

  /** record size, optional config path, header size, headers, payload, terminator */
  function Frame(cfg: Option<string>, headers: seq<string>, headerSize: nat, payload: string): string {
    Le32(FrameSize(cfg, headerSize, payload)) + CfgField(cfg) + Le32(headerSize) + Concat(headers) + payload + [NUL]
  }

  /** A text of bounded length; payload_is_ascii looks at all of it. */
  predicate IsPayload(text: string) {
    |CStr(text)| <= MAX_PAYLOAD_LENGTH && forall c :: c in CStr(text) ==> IsText(c)
  }

  /** A payload is of at most 8192 characters, printable or from tab to carriage return, up to a NUL. */
  lemma PayloadIff(text: string, more: string)
    requires NUL !in text
    ensures IsPayload(text + [NUL] + more) <==> IsPayload(text)
    ensures IsPayload(text) <==>
      |text| <= 8192 && forall i :: 0 <= i < |text| ==> 32 <= text[i] as int <= 126 || 9 <= text[i] as int <= 13
  {
    IndexOfAfter(text, NUL, more);
    IndexOfAbsent(text, NUL);
    assert CStr(text + [NUL] + more) == text == CStr(text);
    assert (forall c :: c in text ==> IsText(c)) <==> (forall i :: 0 <= i < |text| ==> IsText(text[i]));
    assert forall c: char :: IsText(c) <==> 32 <= c as int <= 126 || 9 <= c as int <= 13;
  }

  class TelemRecord {
    const headers: array<string>
    var headerSize: nat
    /** Neither the payload nor its size has a value before it is set. */
    var payload: Option<string>

    /** header_size is kept as a running total; it must be the length of all headers together. */
    ghost predicate Valid()
      reads this, headers
    {
      && headers.Length == NUM_HEADERS
      && headerSize == |Concat(headers[..])|
      && |headers[EVENT_ID]| == EVENT_ID_LINE_LEN
    }

    constructor (values: seq<string>)
      requires |values| == NUM_HEADERS && |values[EVENT_ID]| == EVENT_ID_LEN
      ensures Valid() && fresh(headers) && payload == None
      ensures forall i :: 0 <= i < NUM_HEADERS ==> headers[i] == HeaderLine(NAMES[i], values[i])
    {
      headers := new string[NUM_HEADERS](_ => "");
      headerSize, payload := 0, None;
      new;
      for i := 0 to NUM_HEADERS
        invariant payload == None
        invariant headerSize == |Concat(headers[..i])|
        invariant forall k :: 0 <= k < i ==> headers[k] == HeaderLine(NAMES[k], values[k])
      {
        ghost var before := headers[..i];
        SetHeader(i, values[i]);
        assert headers[..i + 1][..i] == before;
        ConcatLast(headers[..i + 1]);
      }
      assert headers[..NUM_HEADERS] == headers[..];
    }

    method SetHeader(i: nat, value: string)
      requires i < NUM_HEADERS == headers.Length
      modifies `headerSize, headers
      ensures headers[i] == HeaderLine(NAMES[i], value)
      ensures forall k :: 0 <= k < NUM_HEADERS && k != i ==> headers[k] == old(headers[k])
      ensures headerSize == old(headerSize) + |headers[i]|
    {
      headers[i] := HeaderLine(NAMES[i], value);
      headerSize := headerSize + |headers[i]|;
    }

    /** Replaces the generated event id; header_size is left alone, and is still right. */
    method SetEventId(id: string) returns (ok: bool)
      requires Valid()
      modifies headers
      ensures Valid()
      ensures ok == IsEventId(id)
      ensures ok ==> headers[EVENT_ID] == HeaderLine(NAMES[EVENT_ID], id)
      ensures forall k :: 0 <= k < NUM_HEADERS && (k != EVENT_ID || !ok) ==> headers[k] == old(headers[k])
    {
      ok := IsEventId(id);
      if ok {
        ghost var before := headers[..];
        headers[EVENT_ID] := HeaderLine(NAMES[EVENT_ID], id);
        ConcatLast(before);
        ConcatLast(headers[..]);
        assert headers[..][..EVENT_ID] == before[..EVENT_ID];
      }
    }

    method SetPayload(text: string) returns (ok: bool)
      requires Valid()
      modifies `payload
      ensures Valid()
      ensures ok == IsPayload(text)
      ensures payload == if ok then Some(CStr(text)) else old(payload)
    {
      var s := CStr(text);
      if |s| > MAX_PAYLOAD_LENGTH {
        return false;
      }
      for i := 0 to |s|
        invariant forall k :: 0 <= k < i ==> IsText(s[k])
      {
        if !IsText(s[i]) {
          return false;
        }
      }
      payload := Some(s);
      return true;
    }

    /** Fills the send buffer field by field; what it holds in the end is the frame. */
    method FillFrame(cfg: Option<string>) returns (data: array<char>)
      requires Valid() && payload.Some?
      ensures data[..] == Frame(cfg, headers[..], headerSize, payload.value)
    {
      var recordSize := FrameSize(cfg, headerSize, payload.value);
      data := new char[recordSize](_ => NUL);
      var fields := Fields(cfg, headers[..], headerSize, payload.value);
      var offset := 0;
      FieldsFill(cfg, headers[..], headerSize, payload.value);
      for i := 0 to |fields|
        invariant offset == |Concat(fields[..i])|
        invariant Filled(data, Concat(fields[..i]))
      {
        assert fields[..i + 1][..i] == fields[..i];
        ConcatLast(fields[..i + 1]);
        ConcatPrefix(fields, i + 1);
        Copy(data, offset, Concat(fields[..i]), fields[i]);
        offset := offset + |fields[i]|;
      }
      assert fields[..|fields|] == fields;
      FilledToTheEnd(data, Concat(fields));
    }
  }

  /** What is copied into the buffer, in order. */
  function Fields(cfg: Option<string>, headers: seq<string>, headerSize: nat, payload: string): seq<string> {
    [Le32(FrameSize(cfg, headerSize, payload)), CfgField(cfg), Le32(headerSize)] + headers + [payload]
  }

  lemma FieldsFill(cfg: Option<string>, headers: seq<string>, headerSize: nat, payload: string)
    ensures Concat(Fields(cfg, headers, headerSize, payload)) + [NUL] == Frame(cfg, headers, headerSize, payload)
    ensures headerSize == |Concat(headers)| ==>
      |Frame(cfg, headers, headerSize, payload)| == FrameSize(cfg, headerSize, payload)
  {
    var a, b, c := Le32(FrameSize(cfg, headerSize, payload)), CfgField(cfg), Le32(headerSize);
    ConcatAppend([a, b, c] + headers, [payload]);
    ConcatAppend([a, b, c], headers);
    ConcatOfThree(a, b, c);
    assert Concat([payload]) == payload + Concat([]);
  }

  lemma ConcatOfThree(a: string, b: string, c: string)
    ensures Concat([a, b, c]) == a + b + c
  {
    assert [a, b, c][1..] == [b, c] && [b, c][1..] == [c] && [c][1..] == [];
    assert Concat([b, c]) == b + Concat([c]);
    assert Concat([c]) == c;
  }

  lemma {:induction false} ConcatAppend(x: seq<string>, y: seq<string>)
    ensures Concat(x + y) == Concat(x) + Concat(y)
  {
    if x == [] {
      assert x + y == y;
    } else {
      assert (x + y)[1..] == x[1..] + y;
      ConcatAppend(x[1..], y);
    }
  }

  /** The buffer holds `done`, and is untouched (zero) after it. */
  ghost predicate Filled(data: array<char>, done: string)
    reads data
  {
    && |done| <= data.Length
    && data[..|done|] == done
    && forall k :: |done| <= k < data.Length ==> data[k] == NUL
  }

  lemma FilledToTheEnd(data: array<char>, done: string)
    requires Filled(data, done) && |done| + 1 == data.Length
    ensures data[..] == done + [NUL]
  {
  }

  /** memcpy to data + offset */
  method Copy(data: array<char>, offset: nat, ghost done: string, text: string)
    requires offset == |done| && offset + |text| <= data.Length
    requires Filled(data, done)
    modifies data
    ensures Filled(data, done + text)
  {
    for k := 0 to |text|
      invariant Filled(data, done + text[..k])
    {
      data[offset + k] := text[k];
    }
    assert text[..|text|] == text;
  }

  lemma {:induction false} ConcatPrefix(parts: seq<string>, i: nat)
    requires i <= |parts|
    ensures |Concat(parts[..i])| <= |Concat(parts)|
    decreases |parts| - i
  {
    if i < |parts| {
      ConcatLast(parts[..i + 1]);
      assert parts[..i + 1][..i] == parts[..i];
      ConcatPrefix(parts, i + 1);
    } else {
      assert parts[..i] == parts;
    }
  }

  /** One return of write(2): bytes accepted, "try again", or another error. */
  datatype WriteResult = Wrote(n: nat) | Again | Failed(errno: nat)

  const MAX_AGAIN := 100

  /**
   Writes all of buf, whatever pieces the socket takes it in: what has gone out is
   always a prefix, and it is the whole buffer exactly when 0 is returned.
   */
  method WriteSocket(buf: string, write: nat -> WriteResult) returns (ret: int, out: string)
    requires forall i :: write(i).Wrote? ==> 0 < write(i).n
    requires forall i :: write(i).Failed? ==> 0 < write(i).errno
    ensures out <= buf
    ensures ret == 0 <==> out == buf
  {
    var nbytesOut, k, i := 0, 0, 0;
    ret := 0;
    while nbytesOut != |buf|
      invariant nbytesOut <= |buf| && k <= MAX_AGAIN
      decreases |buf| - nbytesOut, MAX_AGAIN - k
    {
      var b := write(i);
      i := i + 1;
      match b
      case Failed(errno) =>
        return 0 - errno, buf[..nbytesOut];
      case Again =>
        k := k + 1;
        if k > MAX_AGAIN {
          return -11, buf[..nbytesOut];
        }
      case Wrote(n) =>
        // the kernel never takes more than it was offered
        nbytesOut := nbytesOut + if n <= |buf| - nbytesOut then n else |buf| - nbytesOut;
        k := 0;
    }
    out := buf;
  }
}
