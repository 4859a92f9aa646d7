/**
 The two readers of spool files: read_record, for records that have just been staged,
 and the reading half of transmit_spooled_record, for records that were kept.
 */
module RecordFile {
  import opened CStrings
  import opened Headers

  /** sizeof(line) - 1: PATH_MAX is larger than LINE_MAX. */
  const LINE_CHARS := 4096

  datatype Loaded = Loaded(cfg: Option<string>, headers: seq<string>, body: string)

  /** How much of a non-empty rest of a file one fgets takes. */
  function FgetsLen(text: string): (n: nat)
    requires text != []
    ensures 0 < n <= |text| && n <= LINE_CHARS
  {
    var n := if IndexOf(text, '\n') < |text| then IndexOf(text, '\n') + 1 else |text|;
    if n < LINE_CHARS then n else LINE_CHARS
  }

  /** The line buffer after strchr has cut it, as read_record leaves it. */
  function ByStrchr(raw: string): string {
    Cut(CStr(raw), '\n')
  }

  /** The line buffer after strtok has been run on it: leading newlines stay, the next one ends it. */
  function ByStrtok(raw: string): string {
    var s := CStr(raw);
    var k := LeadingNewlines(s);
    if k == |s| then s else s[..k] + Cut(s[k..], '\n')
  }

  function LeadingNewlines(s: string): (k: nat)
    ensures k <= |s|
  {
    if s != [] && s[0] == '\n' then 1 + LeadingNewlines(s[1..]) else 0
  }

  /** Headers with the given names read from `text`, each cut by `cut`, and the rest of the file behind them. */
  function ReadHeaders(cut: string -> string, text: string, names: seq<string>): (r: Option<(seq<string>, string)>)
    ensures r.Some? ==> |r.value.0| == |names|
    decreases |names|
  {
    if names == [] then Some(([], text))
    else if text == [] then None
    else
      var n := FgetsLen(text);
      var line := cut(text[..n]);
      if !(names[0] <= line) then None
      else
        match ReadHeaders(cut, text[n..], names[1..])
        case None => None
        case Some((more, rest)) => Some(([line] + more, rest))
  }

  /** The optional first line, and the rest of the file. */
  function ReadCfg(file: string): Option<(Option<string>, string)> {
    if |file| < 4 then None
    else if CFG_PREFIX <= file then
      if |file| == 4 then None
      else
        var n := FgetsLen(file[4..]);
        Some((Some(ByStrchr(file[4..][..n])), file[4..][n..]))
    else Some((None, file))
  }

  function Read(cut: string -> string, names: seq<string>, file: string): Option<Loaded> {
    match ReadCfg(file)
    case None => None
    case Some((cfg, text)) =>
      match ReadHeaders(cut, text, names)
      case None => None
      case Some((headers, body)) =>
        if body == [] then None else Some(Loaded(cfg, headers, body))
  }

  /** read_record */
  function ReadStaged(file: string): Option<Loaded> {
    Read(ByStrchr, NAMES, file)
  }

  /** transmit_spooled_record, up to the post */
  function ReadSpooled(file: string): Option<Loaded> {
    Read(ByStrtok, NAMES, file)
  }

  method ReadRecord(file: string) returns (result: Option<Loaded>)
    ensures result == ReadStaged(file)
  {
    result := Load(ByStrchr, NAMES, file);
  }

  method ReadForTransmit(file: string) returns (result: Option<Loaded>)
    ensures result == ReadSpooled(file)
  {
    result := Load(ByStrtok, NAMES, file);
  }

  /** The stream is the part of the file that has not been read yet. */
  method Load(cut: string -> string, names: seq<string>, file: string) returns (result: Option<Loaded>)
    ensures result == Read(cut, names, file)
  {
    var start := ReadCfg(file);
    if start.None? {
      return None;
    }
    var (cfg, stream) := start.value;
    var headers, body := ReadHeaderLines(cut, stream, names);
    if headers.None? || body == [] {
      return None;
    }
    return Some(Loaded(cfg, headers.value, body));
  }

  /** The header loop of either reader. */
  method ReadHeaderLines(cut: string -> string, text: string, names: seq<string>)
    returns (headers: Option<seq<string>>, rest: string)
    ensures ReadHeaders(cut, text, names) == if headers.None? then None else Some((headers.value, rest))
  {
    rest := text;
    var done := [];
    BehindNothing(ReadHeaders(cut, text, names));
    for i := 0 to |names|
      invariant |done| == i
      invariant ReadHeaders(cut, text, names) == Behind(done, ReadHeaders(cut, rest, names[i..]))
    {
      if rest == [] {
        return None, rest;
      }
      var n := FgetsLen(rest);
      var line := cut(rest[..n]);
      HeaderStep(cut, rest, names[i..], done);
      assert names[i..][0] == names[i] && names[i..][1..] == names[i + 1..];
      if !(names[i] <= line) {
        return None, rest;
      }
      done, rest := done + [line], rest[n..];
    }
    assert done + [] == done;
    return Some(done), rest;
  }

  lemma HeaderStep(cut: string -> string, text: string, names: seq<string>, done: seq<string>)
    requires names != [] && text != []
    ensures var n := FgetsLen(text);
      var line := cut(text[..n]);
      Behind(done, ReadHeaders(cut, text, names)) ==
        if names[0] <= line then Behind(done + [line], ReadHeaders(cut, text[n..], names[1..])) else None
  {
    var n := FgetsLen(text);
    BehindStep(done, cut(text[..n]), ReadHeaders(cut, text[n..], names[1..]));
  }

  ghost function Behind(done: seq<string>, r: Option<(seq<string>, string)>): Option<(seq<string>, string)> {
    match r case None => None case Some((more, rest)) => Some((done + more, rest))
  }

  lemma BehindNothing(r: Option<(seq<string>, string)>)
    ensures Behind([], r) == r
  {
    if r.Some? {
      assert [] + r.value.0 == r.value.0;
    }
  }

  lemma BehindStep(done: seq<string>, line: string, r: Option<(seq<string>, string)>)
    ensures Behind(done + [line], r) == Behind(done, Behind([line], r))
  {
    if r.Some? {
      assert done + [line] + r.value.0 == done + ([line] + r.value.0);
    }
  }

  // ---- The two readers agree ----

  /** The two ways of cutting a line agree on every line that either takes for the named header. */
  ghost predicate SameHeader(cut: string -> string, cut': string -> string, text: string, name: string) {
    text != [] && IsWord(name) ==>
      var raw := text[..FgetsLen(text)];
      name <= cut(raw) || name <= cut'(raw) ==> cut(raw) == cut'(raw)
  }

  lemma StrchrLikeStrtok(text: string, name: string)
    ensures SameHeader(ByStrchr, ByStrtok, text, name)
  {
  }

  lemma {:induction false} HeadersAgree(cut: string -> string, cut': string -> string, text: string, names: seq<string>)
    requires forall i :: 0 <= i < |names| ==> IsWord(names[i])
    requires forall t, name :: SameHeader(cut, cut', t, name)
    ensures ReadHeaders(cut, text, names) == ReadHeaders(cut', text, names)
    decreases |names|
  {
    if names != [] && text != [] {
      assert SameHeader(cut, cut', text, names[0]);
      HeadersAgree(cut, cut', text[FgetsLen(text)..], names[1..]);
    }
  }

  /** Every file is rejected by both readers, or read by both as the same record. */
  lemma ReadersAgree(file: string)
    ensures ReadStaged(file) == ReadSpooled(file)
  {
    forall t, name ensures SameHeader(ByStrchr, ByStrtok, t, name) {
      StrchrLikeStrtok(t, name);
    }
    NamesAreWords();
    if ReadCfg(file).Some? {
      HeadersAgree(ByStrchr, ByStrtok, ReadCfg(file).value.1, NAMES);
    }
  }
}
