/** What an INI file means, said without the parser, and which tables a file can hold. */
module IniMeaning {
  import opened CStrings
  import opened IniFile

  // ---- The meaning of a file ----

  /** The section open at line n: the name of the last header before it. */
  function SectionAt(lines: seq<string>, n: nat): Option<string>
    requires n <= |lines|
  {
    if n == 0 then None
    else if ReadLine(lines[n - 1]).Header? then Some(ReadLine(lines[n - 1]).name)
    else SectionAt(lines, n - 1)
  }

  function ErrorAt(lines: seq<string>, i: nat): Option<Error>
    requires i < |lines|
  {
    ErrorIn(ReadLine(lines[i]), SectionAt(lines, i).Some?)
  }

  /** A header among the first n lines names the section. */
  ghost predicate Named(lines: seq<string>, n: nat, section: string)
    requires n <= |lines|
  {
    exists i :: 0 <= i < n && ReadLine(lines[i]) == Header(section)
  }

  /** Line i assigns to the key in the section. */
  predicate Assigns(lines: seq<string>, i: nat, section: string, key: string)
    requires i < |lines|
  {
    SectionAt(lines, i) == Some(section) && ReadLine(lines[i]).Pair? && ReadLine(lines[i]).key == key
  }

  /** The value given by the last of the first n lines to assign to the key. */
  function LastValue(lines: seq<string>, n: nat, section: string, key: string): Option<string>
    requires n <= |lines|
  {
    if n == 0 then None
    else if Assigns(lines, n - 1, section, key) then Some(ReadLine(lines[n - 1]).value)
    else LastValue(lines, n - 1, section, key)
  }

  function Find(table: Table, section: string, key: string): Option<string> {
    if section in table && key in table[section] then Some(table[section][key]) else None
  }

  /** The table and the open section say what the first n lines mean. */
  ghost predicate Shows(lines: seq<string>, n: nat, table: Table, current: Option<string>)
    requires n <= |lines|
  {
    && current == SectionAt(lines, n)
    && (forall s :: s in table <==> Named(lines, n, s))
    && (forall s, k :: Find(table, s, k) == LastValue(lines, n, s, k))
  }

  /** What the parser promises, line by line and key by key. */
  ghost predicate Means(lines: seq<string>, r: Result) {
    match r
    case Failed(e, n) =>
      && 1 <= n <= |lines| && ErrorAt(lines, n - 1) == Some(e)
      && forall i :: 0 <= i < n - 1 ==> ErrorAt(lines, i).None?
    case Done(table) =>
      && (forall i :: 0 <= i < |lines| ==> ErrorAt(lines, i).None?)
      && (forall s :: s in table <==> Named(lines, |lines|, s))
      && (forall s, k :: Find(table, s, k) == LastValue(lines, |lines|, s, k))
  }

  lemma NamedNext(lines: seq<string>, n: nat, s: string)
    requires n < |lines|
    ensures Named(lines, n + 1, s) <==> Named(lines, n, s) || ReadLine(lines[n]) == Header(s)
  {
  }

  lemma ShowsNext(lines: seq<string>, n: nat, table: Table, current: Option<string>)
    requires n < |lines| && Open(table, current) && Shows(lines, n, table, current)
    requires ErrorAt(lines, n).None?
    ensures var (table', current') := Effect(ReadLine(lines[n]), table, current); Shows(lines, n + 1, table', current')
  {
    hide ReadLine, Named;
    var (table', current') := Effect(ReadLine(lines[n]), table, current);
    forall s
      ensures s in table' <==> Named(lines, n + 1, s)
    {
      NamedNext(lines, n, s);
    }
    forall s, k
      ensures Find(table', s, k) == LastValue(lines, n + 1, s, k)
    {
      assert Find(table, s, k) == LastValue(lines, n, s, k);
    }
  }

  lemma {:induction false} ParseMeansFrom(lines: seq<string>, n: nat, table: Table, current: Option<string>)
    requires n <= |lines| && Open(table, current) && Shows(lines, n, table, current)
    requires forall i :: 0 <= i < n ==> ErrorAt(lines, i).None?
    ensures Means(lines, Parse(lines, n, table, current))
    decreases |lines| - n
  {
    hide ReadLine, Effect, ErrorIn;
    if n < |lines| && ErrorAt(lines, n).None? {
      var (table', current') := Effect(ReadLine(lines[n]), table, current);
      ShowsNext(lines, n, table, current);
      ParseMeansFrom(lines, n + 1, table', current');
    }
  }

  /**
   A parse fails at the first line that is in error and with the error of that line;
   otherwise the sections are those with a header and every key has the value last given to it.
   */
  lemma ParseMeans(text: string)
    ensures Means(Lines(text), ParseText(text))
  {
    ParseMeansFrom(Lines(text), 0, map[], None);
  }

  lemma TablesAgree(t: Table, t': Table)
    requires forall s :: s in t <==> s in t'
    requires forall s, k :: Find(t, s, k) == Find(t', s, k)
    ensures t == t'
  {
    forall s | s in t
      ensures t[s] == t'[s]
    {
      assert forall k :: k in t[s] <==> Find(t, s, k).Some?;
      assert forall k :: k in t'[s] <==> Find(t', s, k).Some?;
      assert forall k :: k in t[s] ==> Find(t, s, k) == Some(t[s][k]) && Find(t', s, k) == Some(t'[s][k]);
    }
  }

  /** A file has one meaning only. */
  lemma MeaningIsOne(lines: seq<string>, r: Result, r': Result)
    requires Means(lines, r) && Means(lines, r')
    ensures r == r'
  {
    hide ErrorAt, Named, LastValue, Find;
    if r.Failed? && r'.Failed? {
      assert ErrorAt(lines, r.line - 1).Some? && ErrorAt(lines, r'.line - 1).Some?;
    } else if r.Done? && r'.Done? {
      assert forall s :: s in r.table <==> s in r'.table;
      TablesAgree(r.table, r'.table);
    }
  }

  // ---- Which tables a file can hold ----

  predicate KeyOk(k: string) {
    && k != "" && OneLine(k) && '=' !in k
    && k[0] != '[' && k[0] != '#' && k[0] != ';'
    && !IsBlank(k[0]) && !IsBlank(k[|k| - 1])
  }

  predicate ValueOk(v: string) {
    OneLine(v) && '\\' !in v
  }

  ghost predicate SectionOk(m: map<string, string>) {
    forall k :: k in m ==> KeyOk(k) && ValueOk(m[k])
  }

  ghost predicate TableOk(t: Table) {
    forall s :: s in t ==> OneLine(s) && SectionOk(t[s])
  }

  /** Blanks are written as escapes; a backslash at the end is dropped and keeps blanks from being stripped. */
  function Escape(v: string): (s: string)
    ensures s != ""
  {
    if v == "" then "\\"
    else (if v[0] == ' ' then "\\s" else if v[0] == '\t' then "\\\t" else [v[0]]) + Escape(v[1..])
  }

  lemma {:induction false} EscapeShape(v: string)
    requires ValueOk(v)
    ensures OneLine(Escape(v)) && !IsBlank(Escape(v)[0]) && !IsBlank(Escape(v)[|Escape(v)| - 1])
  {
    if v == "" {
    } else {
      EscapeShape(v[1..]);
    }
  }

  lemma {:induction false} UnescapeEscape(v: string)
    requires ValueOk(v)
    ensures Unescape(Escape(v)) == v
  {
    if v == "" {
      assert Unescape("\\") == Unescape("\\"[1..]) == "";
    } else {
      var more := Escape(v[1..]);
      UnescapeEscape(v[1..]);
      if v[0] == ' ' {
        assert ("\\s" + more)[2..] == more;
      } else if v[0] == '\t' {
        var s := "\\\t" + more;
        assert s[1..] == "\t" + more && ("\t" + more)[1..] == more;
      } else {
        assert ([v[0]] + more)[1..] == more;
      }
    }
  }

  lemma SolidIsKept(s: string)
    requires s != "" && !IsBlank(s[0]) && !IsBlank(s[|s| - 1])
    ensures Trim(s) == s && Chew(s) == s
  {
  }

  function WriteHeader(name: string): string {
    "[" + name + "]"
  }

  function WritePair(key: string, value: string): string {
    key + "=" + Escape(value)
  }

  lemma HeaderIsRead(name: string)
    requires OneLine(name)
    ensures ReadLine(WriteHeader(name)) == Header(name) && OneLine(WriteHeader(name))
  {
    hide Trim, Chew;
    var s := WriteHeader(name);
    SolidIsKept(s);
    assert s[1..|s| - 1] == name;
  }

  lemma PairIsRead(key: string, value: string)
    requires KeyOk(key) && ValueOk(value)
    ensures ReadLine(WritePair(key, value)) == Pair(key, value) && OneLine(WritePair(key, value))
  {
    hide Trim, Chew, Unescape, Escape;
    var v := Escape(value);
    var s := WritePair(key, value);
    EscapeShape(value);
    UnescapeEscape(value);
    SolidIsKept(key);
    SolidIsKept(v);
    SolidIsKept(s);
    IndexOfAfter(key, '=', v);
    assert s[..|key|] == key && s[|key| + 1..] == v;
  }

  ghost function SectionLines(m: map<string, string>): seq<string> {
    if m == map[] then []
    else
      var k :| k in m;
      [WritePair(k, m[k])] + SectionLines(m - {k})
  }

  ghost function TableLines(t: Table): seq<string> {
    if t == map[] then []
    else
      var s :| s in t;
      [WriteHeader(s)] + SectionLines(t[s]) + TableLines(t - {s})
  }

  lemma PutAll(m: map<string, string>, more: map<string, string>, k: string)
    requires k in more
    ensures m[k := more[k]] + (more - {k}) == m + more
  {
  }

  lemma PutTwice(table: Table, s: string, m: map<string, string>, m': map<string, string>)
    ensures table[s := m][s := m'] == table[s := m']
  {
  }

  lemma PutSection(table: Table, t: Table, s: string)
    requires s in t
    ensures table[s := t[s]] + (t - {s}) == table + t
    ensures map[] + t[s] == t[s]
  {
  }

  /** The lines from n to m are the given ones. */
  ghost predicate Between(lines: seq<string>, n: nat, m: nat, part: seq<string>) {
    m == n + |part| && m <= |lines| && lines[n..m] == part
  }

  lemma BetweenSplits(lines: seq<string>, n: nat, m: nat, a: seq<string>, b: seq<string>)
    requires Between(lines, n, m, a + b)
    ensures Between(lines, n, n + |a|, a) && Between(lines, n + |a|, m, b)
    ensures |a| == 1 ==> n < |lines| && lines[n] == a[0]
  {
    assert lines[n..n + |a|] == lines[n..m][..|a|] == a;
    assert lines[n + |a|..m] == lines[n..m][|a|..] == b;
    assert a != [] ==> lines[n] == lines[n..m][0];
  }

  lemma {:induction false} SectionIsParsed(lines: seq<string>, n: nat, end: nat, m: map<string, string>, table: Table,
      s: string)
    requires SectionOk(m) && s in table && Between(lines, n, end, SectionLines(m))
    ensures Parse(lines, n, table, Some(s)) == Parse(lines, end, table[s := table[s] + m], Some(s))
    decreases |m|
  {
    hide ReadLine, WritePair, Parse, ValueOk;
    if m == map[] {
      assert table[s] + m == table[s] && table[s := table[s]] == table;
    } else {
      var k :| k in m && SectionLines(m) == [WritePair(k, m[k])] + SectionLines(m - {k});
      SectionStep(lines, n, end, m, k, table, s);
      SectionIsParsed(lines, n + 1, end, m - {k}, table[s := table[s][k := m[k]]], s);
      PutAll(table[s], m, k);
      PutTwice(table, s, table[s][k := m[k]], table[s] + m);
    }
  }

  lemma SectionStep(lines: seq<string>, n: nat, end: nat, m: map<string, string>, k: string, table: Table, s: string)
    requires SectionOk(m) && s in table && k in m
    requires Between(lines, n, end, [WritePair(k, m[k])] + SectionLines(m - {k}))
    ensures Between(lines, n + 1, end, SectionLines(m - {k}))
    ensures Parse(lines, n, table, Some(s)) == Parse(lines, n + 1, table[s := table[s][k := m[k]]], Some(s))
  {
    hide ReadLine, WritePair, Parse, ValueOk, SectionLines, Between;
    BetweenSplits(lines, n, end, [WritePair(k, m[k])], SectionLines(m - {k}));
    PairIsRead(k, m[k]);
    ParsePair(lines, n, table, s, k, m[k]);
  }

  lemma ParsePair(lines: seq<string>, n: nat, table: Table, s: string, k: string, v: string)
    requires n < |lines| && s in table && k != "" && ReadLine(lines[n]) == Pair(k, v)
    ensures Parse(lines, n, table, Some(s)) == Parse(lines, n + 1, table[s := table[s][k := v]], Some(s))
  {
  }

  lemma ParseHeader(lines: seq<string>, n: nat, table: Table, current: Option<string>, s: string)
    requires n < |lines| && Open(table, current) && s !in table && ReadLine(lines[n]) == Header(s)
    ensures Parse(lines, n, table, current) == Parse(lines, n + 1, table[s := map[]], Some(s))
  {
  }

  lemma {:induction false} TableIsParsed(lines: seq<string>, n: nat, t: Table, table: Table, current: Option<string>)
    requires TableOk(t) && Open(table, current) && t.Keys !! table.Keys
    requires Between(lines, n, |lines|, TableLines(t))
    ensures Parse(lines, n, table, current) == Done(table + t)
    decreases |t|
  {
    hide ReadLine, WriteHeader, SectionLines, SectionOk;
    if t == map[] {
      assert table + t == table;
    } else {
      var s :| s in t && TableLines(t) == [WriteHeader(s)] + SectionLines(t[s]) + TableLines(t - {s});
      var m := TableStep(lines, n, t, s, table, current);
      TableIsParsed(lines, m, t - {s}, table[s := t[s]], Some(s));
      PutSection(table, t, s);
    }
  }

  lemma TableStep(lines: seq<string>, n: nat, t: Table, s: string, table: Table, current: Option<string>)
    returns (m: nat)
    requires TableOk(t) && Open(table, current) && s !in table && s in t
    requires Between(lines, n, |lines|, [WriteHeader(s)] + SectionLines(t[s]) + TableLines(t - {s}))
    ensures Between(lines, m, |lines|, TableLines(t - {s}))
    ensures Parse(lines, n, table, current) == Parse(lines, m, table[s := t[s]], Some(s))
  {
    hide ReadLine, WriteHeader, SectionLines, SectionOk, Parse, TableLines, Between;
    m := n + 1 + |SectionLines(t[s])|;
    BetweenSplits(lines, n, |lines|, [WriteHeader(s)] + SectionLines(t[s]), TableLines(t - {s}));
    BetweenSplits(lines, n, m, [WriteHeader(s)], SectionLines(t[s]));
    HeaderIsRead(s);
    ParseHeader(lines, n, table, current, s);
    SectionIsParsed(lines, n + 1, m, t[s], table[s := map[]], s);
    PutSection(table, t, s);
    PutTwice(table, s, map[], t[s]);
  }

  lemma {:induction false} SectionLinesAreLines(m: map<string, string>, l: string)
    requires SectionOk(m) && l in SectionLines(m)
    ensures OneLine(l)
    decreases |m|
  {
    hide KeyOk, ValueOk, WritePair;
    if m != map[] {
      var k :| k in m && SectionLines(m) == [WritePair(k, m[k])] + SectionLines(m - {k});
      PairIsRead(k, m[k]);
      if l != WritePair(k, m[k]) {
        SectionLinesAreLines(m - {k}, l);
      }
    }
  }

  lemma {:induction false} TableLinesAreLines(t: Table, l: string)
    requires TableOk(t) && l in TableLines(t)
    ensures OneLine(l)
    decreases |t|
  {
    hide SectionOk, WriteHeader, SectionLines;
    if t != map[] {
      var s :| s in t && TableLines(t) == [WriteHeader(s)] + SectionLines(t[s]) + TableLines(t - {s});
      HeaderIsRead(s);
      if l in SectionLines(t[s]) {
        SectionLinesAreLines(t[s], l);
      } else if l != WriteHeader(s) {
        TableLinesAreLines(t - {s}, l);
      }
    }
  }

  /** Every such table is what the parser makes of a file. */
  lemma TableHasAFile(t: Table) returns (text: string)
    requires TableOk(t)
    ensures NUL !in text && ParseText(text) == Done(t)
  {
    hide TableOk, TableLines, Parse, OneLine;
    var lines := TableLines(t);
    forall l | l in lines
      ensures '\n' !in l && NUL !in l
    {
      TableLinesAreLines(t, l);
      OneLineIs(l);
    }
    text := JoinLines(lines);
    LinesOfJoin(lines);
    JoinHasNoNul(lines);
    assert lines[0..] == lines;
    TableIsParsed(lines, 0, t, map[], None);
    assert map[] + t == t;
  }

  lemma OneLineIs(l: string)
    requires OneLine(l)
    ensures '\n' !in l && NUL !in l
  {
  }

  lemma {:induction false} UnescapeChars(s: string, c: char)
    requires c in Unescape(s)
    ensures c != '\\' && (c in s || c == ' ')
    decreases |s|
  {
    if s[0] != '\\' {
      if c != s[0] {
        UnescapeChars(s[1..], c);
      }
    } else if |s| > 1 && s[1] == 's' {
      if c != ' ' {
        UnescapeChars(s[2..], c);
      }
    } else {
      UnescapeChars(s[1..], c);
    }
  }

  lemma ValueIsOk(s: string)
    requires OneLine(s)
    ensures ValueOk(Unescape(Chew(s)))
  {
    hide Unescape;
    var v := Unescape(Chew(s));
    forall c | c in v
      ensures c != '\\' && c != '\n' && c != NUL
    {
      UnescapeChars(Chew(s), c);
    }
  }

  /**
   The key of a line is what precedes its first '=', without the blanks around it.
   What follows the '=' loses its blanks and nothing else exactly when it is chewed well.
   */
  lemma PairParts(line: string)
    requires ReadLine(line).Pair?
    ensures var buf := Trim(line); var eq := IndexOf(buf, '=');
      && eq < |buf| && ReadLine(line).key == Trim(buf[..eq])
      && (Chew(buf[eq + 1..]) == Trim(buf[eq + 1..]) <==> ChewsWell(buf[eq + 1..]))
  {
    var buf := Trim(line);
    var eq := IndexOf(buf, '=');
    TrimIsSolid(line);
    assert Skip(buf[..eq]) == 0;
    ChewIsTrimIff(buf[..eq]);
    ChewIsTrimIff(buf[eq + 1..]);
  }

  lemma TrimIsSolid(s: string)
    ensures Trim(s) != "" ==> !IsBlank(Trim(s)[0]) && !IsBlank(Trim(s)[|Trim(s)| - 1])
    ensures forall c :: c in Trim(s) ==> c in s
  {
  }

  lemma KeyIsOk(line: string)
    requires OneLine(line) && ReadLine(line).Pair? && ReadLine(line).key != ""
    ensures KeyOk(ReadLine(line).key)
  {
    var buf := Trim(line);
    var eq := IndexOf(buf, '=');
    PairParts(line);
    TrimIsSolid(line);
    TrimIsSolid(buf[..eq]);
    StartOfTrim(buf[..eq]);
  }

  lemma StartOfTrim(s: string)
    requires s != "" && !IsBlank(s[0])
    ensures Trim(s) != "" && Trim(s)[0] == s[0]
  {
  }

  /** What a line of a file can say. */
  ghost predicate LineOk(l: Line) {
    match l
    case Header(name) => OneLine(name)
    case Pair(key, value) => (key != "" ==> KeyOk(key)) && ValueOk(value)
    case _ => true
  }

  lemma ReadLineIsOk(line: string)
    requires OneLine(line)
    ensures LineOk(ReadLine(line))
  {
    hide KeyOk, ValueOk, Chew, Unescape, Trim;
    var buf := Trim(line);
    TrimIsSolid(line);
    if ReadLine(line).Pair? {
      var eq := IndexOf(buf, '=');
      if ReadLine(line).key != "" {
        KeyIsOk(line);
      }
      ValueIsOk(buf[eq + 1..]);
    }
  }

  lemma {:induction false} ParsedIsOk(lines: seq<string>, n: nat, table: Table, current: Option<string>)
    requires n <= |lines| && Open(table, current) && TableOk(table)
    requires forall l :: l in lines ==> OneLine(l)
    ensures Parse(lines, n, table, current).Done? ==> TableOk(Parse(lines, n, table, current).table)
    decreases |lines| - n
  {
    hide ReadLine, OneLine, KeyOk, ValueOk;
    if n < |lines| && ErrorIn(ReadLine(lines[n]), current.Some?).None? {
      ReadLineIsOk(lines[n]);
      var (table', current') := Effect(ReadLine(lines[n]), table, current);
      ParsedIsOk(lines, n + 1, table', current');
    }
  }

  /** Exactly these tables are what the parser makes of some file. */
  lemma TableHasAFileIff(t: Table)
    ensures (exists text :: NUL !in text && ParseText(text) == Done(t)) <==> TableOk(t)
  {
    hide TableOk, ParseText;
    if TableOk(t) {
      var text := TableHasAFile(t);
    }
    if text :| NUL !in text && ParseText(text) == Done(t) {
      FileTableIsOk(text, t);
    }
  }

  lemma FileTableIsOk(text: string, t: Table)
    requires NUL !in text && ParseText(text) == Done(t)
    ensures TableOk(t)
  {
    hide Parse, Lines;
    forall l | l in Lines(text)
      ensures OneLine(l)
    {
      LinesAreOneLine(text, l);
    }
    ParsedIsOk(Lines(text), 0, map[], None);
  }

  // ---- Lines by their characters ----

  /** A stripped line that is a comment, or empty. */
  predicate IsIgnored(buf: string) {
    buf == "" || buf[0] == '#' || buf[0] == ';'
  }

  predicate IsBracketed(buf: string) {
    buf != "" && buf[0] == '['
  }

  /** The error of a line, by its characters alone, in the order in which the checks come. */
  lemma LineErrors(line: string, open: bool)
    ensures var buf := Trim(line);
      ErrorIn(ReadLine(line), open) ==
        if IsIgnored(buf) then None
        else if IsBracketed(buf) then if buf[|buf| - 1] == ']' then None else Some(NotClosed)
        else if '=' !in buf then Some(InvalidLine)
        else if !open then Some(NoSection)
        else if buf[0] == '=' then Some(EmptyKey)
        else None
  {
    var buf := Trim(line);
    TrimIsSolid(line);
    if ReadLine(line).Pair? {
      PairParts(line);
      var eq := IndexOf(buf, '=');
      if eq > 0 {
        StartOfTrim(buf[..eq]);
      } else {
        assert buf[..eq] == "" && Trim("") == "";
      }
    }
  }

  /** Comments and blank lines mean nothing, wherever they stand. */
  lemma IgnoredMeansNothing(line: string, table: Table, current: Option<string>)
    requires Open(table, current) && IsIgnored(Trim(line))
    ensures ReadLine(line) == Skipped && ErrorIn(ReadLine(line), current.Some?).None?
    ensures Effect(ReadLine(line), table, current) == (table, current)
  {
  }
}
