/**
 The INI reader of libnica. A file without NUL bytes is a sequence of lines; a line is a section
 header, an assignment, a comment, or an error. Sections and keys are kept in maps.
 */
module IniFile {
  import opened CStrings

  // ---- Blanks at the ends of a string ----

  predicate IsBlank(c: char) {
    c == ' ' || c == '\t'
  }

  /** The number of blanks s starts with. */
  function Skip(s: string): (n: nat)
    ensures n <= |s|
    ensures forall i :: 0 <= i < n ==> IsBlank(s[i])
    ensures n < |s| ==> !IsBlank(s[n])
  {
    if s != "" && IsBlank(s[0]) then 1 + Skip(s[1..]) else 0
  }

  /** The end of s[lo..hi] without the blanks it ends with. */
  function End(s: string, lo: nat, hi: nat): (n: nat)
    requires lo <= hi <= |s|
    ensures lo <= n <= hi
    ensures forall i :: n <= i < hi ==> IsBlank(s[i])
    ensures lo < n ==> !IsBlank(s[n - 1])
    decreases hi
  {
    if lo < hi && IsBlank(s[hi - 1]) then End(s, lo, hi - 1) else hi
  }

  /** s without the blanks at its ends. */
  function Trim(s: string): string {
    s[Skip(s)..End(s, Skip(s), |s|)]
  }

  method LStrip(str: string) returns (out: string)
    ensures out == str[Skip(str)..]
  {
    var skip := 0;
    while skip < |str| && IsBlank(str[skip])
      invariant skip <= |str|
      invariant forall i :: 0 <= i < skip ==> IsBlank(str[i])
    {
      skip := skip + 1;
    }
    out := str[skip..];
  }

  /** The loop does not look at the first character. */
  method RStrip(str: string) returns (out: string)
    ensures out == if str == "" then "" else str[..End(str, 1, |str|)]
  {
    var skip, i := 0, |str|;
    while i > 0
      invariant 0 <= i <= |str|
      invariant skip == if i == |str| then 0 else |str| - 1 - i
      invariant forall j :: i < j < |str| ==> IsBlank(str[j])
    {
      if i < |str| {
        if !IsBlank(str[i]) {
          break;
        }
        skip := skip + 1;
      }
      i := i - 1;
    }
    out := str[..|str| - skip];
  }

  lemma EndOfDrop(s: string, lo: nat, hi: nat)
    requires lo < hi <= |s| && !IsBlank(s[lo])
    ensures End(s, lo, hi) == lo + End(s[lo..], 1, hi - lo)
  {
  }

  /** string_strip */
  method Strip(str: string) returns (out: string)
    ensures out == Trim(str)
  {
    var skip := Skip(str);
    out := LStrip(str);
    if out != "" {
      EndOfDrop(str, skip, |str|);
    }
    out := RStrip(out);
  }

  /**
   string_chew_terminated. The loop that looks for blanks at the end starts |skip| characters before the end,
   where a string with blanks at its start does not end.
   */
  function Chew(v: string): string {
    var skip := Skip(v);
    var len := |v| - skip;
    var top := if skip == 0 then |v| else len + 1;
    var ends := if skip < len then top - End(v, skip + 1, top) else 0;
    if ends > 0 then v[skip..len - ends] else v[skip..]
  }

  method CountLeading(inp: string) returns (skip: nat, len: nat)
    ensures skip == Skip(inp) && len == |inp| - skip
  {
    skip, len := 0, 0;
    var count, c := true, 0;
    while c < |inp|
      invariant c <= |inp| && c == skip + len && count == (len == 0)
      invariant forall i :: 0 <= i < skip ==> IsBlank(inp[i])
      invariant !count ==> skip < |inp| && !IsBlank(inp[skip])
    {
      if count && IsBlank(inp[c]) {
        skip := skip + 1;
      } else {
        count := false;
        len := len + 1;
      }
      c := c + 1;
    }
  }

  /** The blanks that end at inp[len], or at the end of inp, but are after inp[skip]. */
  method CountEnds(inp: string, skip: nat, len: nat) returns (ends: nat)
    requires skip + len == |inp|
    ensures len <= skip ==> ends == 0
    ensures skip < len ==> var top := if skip == 0 then |inp| else len + 1; ends == top - End(inp, skip + 1, top)
  {
    ends := 0;
    ghost var top := if skip == 0 then |inp| else len + 1;
    var i := len;
    while i > skip
      invariant i == len || skip <= i < len
      invariant ends == if i == len then 0 else top - 1 - i
      invariant forall j :: i < j < top ==> IsBlank(inp[j])
      decreases i
    {
      if i < |inp| {
        if !IsBlank(inp[i]) {
          break;
        }
        ends := ends + 1;
      }
      i := i - 1;
    }
  }

  method ChewTerminated(inp: string) returns (out: string)
    ensures out == Chew(inp)
  {
    var skip, len := CountLeading(inp);
    var ends := CountEnds(inp, skip, len);
    out := inp;
    if ends > 0 {
      out := out[..len - ends];
    }
    if skip > 0 {
      out := out[skip..];
    }
  }

  /** What string_chew_terminated gets right. */
  predicate ChewsWell(v: string) {
    var skip := Skip(v);
    var len := |v| - skip;
    skip == 0 || skip == |v| || (!IsBlank(v[|v| - 1]) && (len <= skip || !IsBlank(v[len])))
  }

  /** Blanks are removed from both ends, and nothing else, exactly in these cases. */
  lemma ChewIsTrimIff(v: string)
    ensures Chew(v) == Trim(v) <==> ChewsWell(v)
  {
    var skip := Skip(v);
    if skip == 0 {
      if v != "" {
        EndOfDrop(v, 0, |v|);
        assert v[0..] == v;
      }
    }
  }

  lemma ChewEatsAWord()
    ensures Trim("  a b") == "a b" && Chew("  a b") == ""
  {
    var v := "  a b";
    assert Skip(v) == 2;
    assert End(v, 2, 5) == 5;
    assert End(v, 3, 4) == 3;
  }

  // ---- Escapes ----

  /** string_unescape: a blank is written as a backslash and an s; any other backslash is dropped. */
  function Unescape(s: string): string
    decreases |s|
  {
    if s == "" then ""
    else if s[0] != '\\' then [s[0]] + Unescape(s[1..])
    else if |s| > 1 && s[1] == 's' then " " + Unescape(s[2..])
    else Unescape(s[1..])
  }

  method StringUnescape(str: string) returns (out: string)
    ensures out == Unescape(str)
  {
    out := "";
    var c := 0;
    while c < |str|
      invariant c <= |str|
      invariant Unescape(str) == out + Unescape(str[c..])
    {
      if str[c] == '\\' {
        if c + 1 < |str| && str[c + 1] == 's' {
          assert str[c..][2..] == str[c + 2..];
          out, c := out + " ", c + 2;
        } else {
          assert str[c..][1..] == str[c + 1..];
          c := c + 1;
        }
      } else {
        assert str[c..][1..] == str[c + 1..];
        out, c := out + [str[c]], c + 1;
      }
    }
  }

  // ---- Lines ----

  datatype Line =
    | Skipped
    | Header(name: string)
    | Pair(key: string, value: string)
    | Unclosed
    | NoEquals

  /** A line, once it is stripped. */
  function Classify(buf: string): Line {
    if buf == "" then Skipped
    else if buf[0] == '[' then
      if buf[|buf| - 1] != ']' then Unclosed else Header(buf[1..|buf| - 1])
    else if buf[0] == '#' || buf[0] == ';' then Skipped
    else
      var eq := IndexOf(buf, '=');
      if eq == |buf| then NoEquals else Pair(Chew(buf[..eq]), Unescape(Chew(buf[eq + 1..])))
  }

  function ReadLine(line: string): Line {
    Classify(Trim(line))
  }

  datatype Error = NotClosed | InvalidLine | NoSection | EmptyKey

  /** The error at a line, given whether a section is open. */
  function ErrorIn(line: Line, open: bool): Option<Error> {
    match line
    case Unclosed => Some(NotClosed)
    case NoEquals => Some(InvalidLine)
    case Pair(key, _) => if !open then Some(NoSection) else if key == "" then Some(EmptyKey) else None
    case _ => None
  }

  type Table = map<string, map<string, string>>

  datatype Result = Done(table: Table) | Failed(error: Error, line: nat)

  // ---- The parser ----

  /** The section, if any, whose entries are being read is in the table. */
  predicate Open(table: Table, current: Option<string>) {
    current.Some? ==> current.value in table
  }

  /** The table and the open section after a line that is not an error. */
  function Effect(line: Line, table: Table, current: Option<string>): (next: (Table, Option<string>))
    requires Open(table, current) && ErrorIn(line, current.Some?).None?
    ensures Open(next.0, next.1)
  {
    match line
    case Header(name) => (if name in table then table else table[name := map[]], Some(name))
    case Pair(key, value) => (table[current.value := table[current.value][key := value]], current)
    case Skipped => (table, current)
  }

  /** The rest of the file, from line n on. */
  function Parse(lines: seq<string>, n: nat, table: Table, current: Option<string>): Result
    requires n <= |lines| && Open(table, current)
    decreases |lines| - n
  {
    if n == |lines| then Done(table)
    else
      var line := ReadLine(lines[n]);
      match ErrorIn(line, current.Some?)
      case Some(e) => Failed(e, n + 1)
      case None =>
        var (table', current') := Effect(line, table, current);
        Parse(lines, n + 1, table', current')
  }

  function ParseText(text: string): Result {
    Parse(Lines(text), 0, map[], None)
  }

  /** getline, without the newline: the next line of a text that is not exhausted, and what follows it. */
  method GetLine(text: string) returns (line: string, rest: string)
    requires text != ""
    ensures Lines(text) == [line] + Lines(rest) && |rest| < |text|
  {
    var i := 0;
    while i < |text| && text[i] != '\n'
      invariant i <= |text|
      invariant forall j :: 0 <= j < i ==> text[j] != '\n'
    {
      i := i + 1;
    }
    assert i == IndexOf(text, '\n');
    line := text[..i];
    rest := if i < |text| then text[i + 1..] else "";
    assert text[..|text|] == text;
  }

  /** The body of the parsing loop, for one line. */
  method HandleLine(line: string, table: Table, current: Option<string>)
    returns (error: Option<Error>, table': Table, current': Option<string>)
    requires Open(table, current)
    ensures error == ErrorIn(ReadLine(line), current.Some?)
    ensures error.None? ==> (table', current') == Effect(ReadLine(line), table, current)
  {
    error, table', current' := None, table, current;
    var buf := Strip(line);
    if buf == "" {
      return;
    }
    if buf[0] == '[' {
      if buf[|buf| - 1] != ']' {
        error := Some(NotClosed);
        return;
      }
      var name := buf[1..|buf| - 1];
      current' := Some(name);
      if name !in table {
        table' := table[name := map[]];
      }
      return;
    } else if buf[0] == '#' || buf[0] == ';' {
      return;
    }
    var eq := IndexOf(buf, '=');
    if eq == |buf| {
      error := Some(InvalidLine);
      return;
    }
    if current.None? {
      error := Some(NoSection);
      return;
    }
    var key := ChewTerminated(buf[..eq]);
    var value := ChewTerminated(buf[eq + 1..]);
    value := StringUnescape(value);
    if key == "" {
      error := Some(EmptyKey);
      return;
    }
    table' := table[current.value := table[current.value][key := value]];
  }

  /** nc_ini_file_parse_full, on the text of the file. */
  method ParseFull(text: string) returns (r: Result)
    requires NUL !in text
    ensures r == ParseText(text)
  {
    hide Effect, ReadLine, ErrorIn;
    var rest, count := text, 1;
    var table: Table, current := map[], None;
    ghost var lines := Lines(text);
    while rest != ""
      invariant 1 <= count <= |lines| + 1 && lines[count - 1..] == Lines(rest)
      invariant Open(table, current)
      invariant Parse(lines, count - 1, table, current) == ParseText(text)
      decreases |rest|
    {
      var line;
      line, rest := GetLine(rest);
      assert lines[count - 1] == lines[count - 1..][0] == line;
      assert lines[count..] == lines[count - 1..][1..] == Lines(rest);
      var error, table', current' := HandleLine(line, table, current);
      if error.Some? {
        return Failed(error.value, count);
      }
      table, current, count := table', current', count + 1;
    }
    return Done(table);
  }
}
