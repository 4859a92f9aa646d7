/** Decimal numbers, as printf writes them and atoll reads them. */
module Decimal {
  predicate IsDigit(c: char) {
    '0' <= c <= '9'
  }

  function DigitOf(d: nat): char
    requires d < 10
  {
    (48 + d) as char
  }

  function ValueOf(c: char): nat
    requires IsDigit(c)
  {
    c as int - 48
  }

  function Digits(n: nat): (s: string)
    ensures s != "" && forall c :: c in s ==> IsDigit(c)
  {
    if n < 10 then [DigitOf(n)] else Digits(n / 10) + [DigitOf(n % 10)]
  }

  /** %lld */
  function Format(i: int): (s: string)
    ensures s != "" && forall c :: c in s ==> IsDigit(c) || c == '-'
  {
    if i < 0 then "-" + Digits(-i) else Digits(i)
  }

  predicate IsSpace(c: char) {
    c == ' ' || '\t' <= c <= '\r'
  }

  /** The number that the digits of s up to the first other character continue. */
  function Scan(s: string, n: nat): nat {
    if s == "" || !IsDigit(s[0]) then n else Scan(s[1..], 10 * n + ValueOf(s[0]))
  }

  /** atoll, for numbers that fit. */
  function Atoll(s: string): int {
    if s == "" then 0
    else if IsSpace(s[0]) then Atoll(s[1..])
    else if s[0] == '-' then 0 - Scan(s[1..], 0)
    else if s[0] == '+' then Scan(s[1..], 0)
    else Scan(s, 0)
  }

  lemma {:induction false} ScanAppend(s: string, t: string, n: nat)
    requires forall c :: c in s ==> IsDigit(c)
    ensures Scan(s + t, n) == Scan(t, Scan(s, n))
  {
    if s == "" {
      assert s + t == t;
    } else {
      assert (s + t)[1..] == s[1..] + t;
      ScanAppend(s[1..], t, 10 * n + ValueOf(s[0]));
    }
  }

  lemma {:induction false} ScanDigits(n: nat)
    ensures Scan(Digits(n), 0) == n
  {
    if n < 10 {
      assert [DigitOf(n)][1..] == "";
    } else {
      ScanDigits(n / 10);
      ScanAppend(Digits(n / 10), [DigitOf(n % 10)], 0);
      assert [DigitOf(n % 10)][1..] == "";
    }
  }

  lemma AtollFormat(i: int)
    ensures Atoll(Format(i)) == i
  {
    if i < 0 {
      ScanDigits(-i);
      assert Format(i)[1..] == Digits(-i);
    } else {
      ScanDigits(i);
      assert Digits(i)[0] in Digits(i);
    }
  }
}

/** A line of the record journal. */
module JournalEntry {
  import opened CStrings
  import opened Decimal

  const RS := '\U{1E}'

  datatype Entry = Entry(recordId: string, timestamp: int, classification: string, eventId: string, bootId: string)

  function Serialize(e: Entry): string {
    e.recordId + [RS] + Format(e.timestamp) + [RS] + e.classification + [RS] + e.eventId + [RS] + e.bootId
  }

  predicate IsSeparator(c: char) {
    c == RS || c == '\n'
  }

  /** strcspn: the position of the first separator, or the end. */
  function Span(s: string): (i: nat)
    ensures i <= |s|
    ensures forall j :: 0 <= j < i ==> !IsSeparator(s[j])
    ensures i < |s| ==> IsSeparator(s[i])
  {
    if s == "" || IsSeparator(s[0]) then 0 else 1 + Span(s[1..])
  }

  function Separators(s: string): nat {
    if s == "" then 0 else (if IsSeparator(s[0]) then 1 else 0) + Separators(s[1..])
  }

  /** The first n fields of s. */
  function Fields(s: string, n: nat): (fields: Option<seq<string>>)
    ensures fields.Some? ==> |fields.value| == n
  {
    if n == 0 then Some([])
    else
      var i := Span(s);
      if n == 1 then Some([s[..i]])
      else if i == |s| then None
      else
        match Fields(s[i + 1..], n - 1)
        case None => None
        case Some(more) => Some([s[..i]] + more)
  }

  /** A line as getline gives it; what follows a NUL byte in it is not looked at. */
  function Deserialize(line: string): Option<Entry> {
    if CStr(line) == "" then None
    else
      match Fields(CStr(line), 5)
      case None => None
      case Some(f) => Some(Entry(f[0], Atoll(f[1]), f[2], f[3], f[4]))
  }

  /** The loop of deserialize_journal_entry: each field is after the separator that ended the last one. */
  method SplitFields(line: string, n: nat) returns (r: Option<seq<string>>)
    requires n > 0
    ensures r == Fields(line, n)
  {
    hide Fields;
    var offset, i: nat, fields := 0, 0, [];
    assert line[0..] == line;
    PrefixedByNone(Fields(line, n));
    while i < n
      invariant i <= n && |fields| == i
      invariant i < n ==> offset <= |line| + 1
      invariant i < n && offset == |line| + 1 ==> Fields(line, n).None?
      invariant i < n && offset <= |line| ==> Fields(line, n) == Prefixed(fields, Fields(line[offset..], n - i))
      invariant i == n ==> Fields(line, n) == Some(fields)
    {
      if offset > |line| {
        return None;
      }
      var rest := line[offset..];
      var len := Span(rest);
      assert len < |rest| ==> rest[len + 1..] == line[offset + len + 1..];
      FieldsStep(fields, rest, n - i);
      fields, offset, i := fields + [rest[..len]], offset + len + 1, i + 1;
    }
    return Some(fields);
  }

  lemma PrefixedByNone(more: Option<seq<string>>)
    ensures Prefixed([], more) == more
  {
    assert more.Some? ==> [] + more.value == more.value;
  }

  lemma FieldsStep(fields: seq<string>, rest: string, n: nat)
    requires n > 0
    ensures n == 1 ==> Prefixed(fields, Fields(rest, n)) == Some(fields + [rest[..Span(rest)]])
    ensures n > 1 && Span(rest) == |rest| ==> Prefixed(fields, Fields(rest, n)) == None
    ensures n > 1 && Span(rest) < |rest| ==>
      Prefixed(fields, Fields(rest, n)) ==
        Prefixed(fields + [rest[..Span(rest)]], Fields(rest[Span(rest) + 1..], n - 1))
  {
    if n > 1 && Span(rest) < |rest| {
      var more := Fields(rest[Span(rest) + 1..], n - 1);
      assert more.Some? ==> fields + ([rest[..Span(rest)]] + more.value) == fields + [rest[..Span(rest)]] + more.value;
    }
  }

  method DeserializeJournalEntry(line: string) returns (entry: Option<Entry>)
    ensures entry == Deserialize(line)
  {
    var text := CStr(line);
    if text == "" {
      return None;
    }
    var fields := SplitFields(text, 5);
    match fields {
      case None => return None;
      case Some(f) => return Some(Entry(f[0], Atoll(f[1]), f[2], f[3], f[4]));
    }
  }

  function Prefixed(fields: seq<string>, more: Option<seq<string>>): Option<seq<string>> {
    match more
    case None => None
    case Some(m) => Some(fields + m)
  }

  // ---- Which lines are entries ----

  lemma {:induction false} SeparatorsFrom(s: string)
    ensures Span(s) == |s| ==> Separators(s) == 0
    ensures Span(s) < |s| ==> Separators(s) == 1 + Separators(s[Span(s) + 1..])
  {
    if s != "" && !IsSeparator(s[0]) {
      SeparatorsFrom(s[1..]);
      assert Span(s) == 1 + Span(s[1..]);
      assert Span(s) < |s| ==> s[1..][Span(s)..] == s[Span(s) + 1..];
    }
  }

  lemma {:induction false} FieldsIff(s: string, n: nat)
    requires n > 0
    ensures Fields(s, n).Some? <==> Separators(s) >= n - 1
    decreases n
  {
    SeparatorsFrom(s);
    if n > 1 && Span(s) < |s| {
      FieldsIff(s[Span(s) + 1..], n - 1);
    }
  }

  /** A line is an entry exactly when it has four separators before its first NUL byte. */
  lemma DeserializesIff(line: string)
    ensures Deserialize(line).Some? <==> Separators(CStr(line)) >= 4
  {
    FieldsIff(CStr(line), 5);
  }

  // ---- Round trip ----

  /** A field that can be told apart. */
  predicate Clean(s: string) {
    RS !in s && '\n' !in s && NUL !in s
  }

  lemma SpanIs(s: string, i: nat)
    requires i < |s| && Clean(s[..i]) && IsSeparator(s[i])
    ensures Span(s) == i
  {
  }

  lemma FieldAfter(field: string, c: char, rest: string, n: nat)
    requires Clean(field) && IsSeparator(c) && n > 1
    ensures Fields(field + [c] + rest, n) == Prefixed([field], Fields(rest, n - 1))
  {
    var s := field + [c] + rest;
    assert s[..|field|] == field && s[|field| + 1..] == rest;
    SpanIs(s, |field|);
  }

  lemma LastField(field: string)
    requires Clean(field)
    ensures Fields(field + "\n", 1) == Some([field])
  {
    var s := field + "\n";
    assert s[..|field|] == field;
    SpanIs(s, |field|);
  }

  lemma FormatIsClean(i: int)
    ensures Clean(Format(i))
  {
  }

  /** A line of fields. */
  function Joined(fields: seq<string>): string
    requires fields != []
  {
    if |fields| == 1 then fields[0] + "\n" else fields[0] + [RS] + Joined(fields[1..])
  }

  lemma {:induction false} FieldsOfJoined(fields: seq<string>)
    requires fields != [] && forall f :: f in fields ==> Clean(f)
    ensures Fields(Joined(fields), |fields|) == Some(fields)
  {
    hide Fields, Clean;
    if |fields| == 1 {
      LastField(fields[0]);
      assert [fields[0]] == fields;
    } else {
      FieldsOfJoined(fields[1..]);
      FieldAfter(fields[0], RS, Joined(fields[1..]), |fields|);
      assert [fields[0]] + fields[1..] == fields;
    }
  }

  function FieldsOf(e: Entry): seq<string> {
    [e.recordId, Format(e.timestamp), e.classification, e.eventId, e.bootId]
  }

  lemma SerializeIsJoined(e: Entry)
    ensures Serialize(e) + "\n" == Joined(FieldsOf(e))
  {
    hide Format;
    var f := FieldsOf(e);
    assert f[1..][1..] == f[2..] && f[2..][1..] == f[3..] && f[3..][1..] == f[4..];
    assert Joined(f[4..]) == f[4] + "\n";
    assert Joined(f[3..]) == f[3] + [RS] + Joined(f[4..]);
    assert Joined(f[2..]) == f[2] + [RS] + Joined(f[3..]);
    assert Joined(f[1..]) == f[1] + [RS] + Joined(f[2..]);
    assert Joined(f) == f[0] + [RS] + Joined(f[1..]);
    FromTheStart(f[0], f[1], f[2], f[3], f[4]);
  }

  lemma FromTheStart(a: string, b: string, c: string, d: string, e: string)
    ensures a + [RS] + b + [RS] + c + [RS] + d + [RS] + e + "\n" ==
      a + [RS] + (b + [RS] + (c + [RS] + (d + [RS] + (e + "\n"))))
  {
  }

  lemma CleanIsReadBack(e: Entry)
    requires Clean(e.recordId) && Clean(e.classification) && Clean(e.eventId) && Clean(e.bootId)
    ensures Deserialize(Serialize(e) + "\n") == Some(e)
  {
    CleanHasNoNul(e);
    hide Fields, Clean, Format, CStr, Joined, Serialize;
    FormatIsClean(e.timestamp);
    AtollFormat(e.timestamp);
    SerializeIsJoined(e);
    FieldsOfJoined(FieldsOf(e));
  }

  /** A line of clean fields is a C string. */
  lemma CleanHasNoNul(e: Entry)
    requires Clean(e.recordId) && NUL !in e.classification && Clean(e.eventId) && Clean(e.bootId)
    ensures NUL !in Serialize(e) && CStr(Serialize(e) + "\n") == Serialize(e) + "\n"
  {
    FormatIsClean(e.timestamp);
    var head := e.recordId + [RS] + Format(e.timestamp) + [RS];
    var tail := [RS] + e.eventId + [RS] + e.bootId;
    assert NUL !in head && NUL !in tail;
    assert Serialize(e) == head + e.classification + tail;
    IndexOfAbsent(Serialize(e) + "\n", NUL);
  }

  lemma CStrHasNoNul(s: string)
    ensures NUL !in CStr(s)
  {
  }

  lemma {:induction false} FieldsAreClean(s: string, n: nat, i: nat)
    requires Fields(s, n).Some? && i < n && NUL !in s
    ensures Clean(Fields(s, n).value[i])
    decreases n
  {
    if i == 0 {
    } else {
      FieldsAreClean(s[Span(s) + 1..], n - 1, i - 1);
    }
  }

  /**
   An entry is read back from its line, whatever its timestamp, exactly when its fields hold no separator and
   no NUL.
   */
  lemma DeserializeSerializeIff(e: Entry)
    ensures Deserialize(Serialize(e) + "\n") == Some(e) <==>
      Clean(e.recordId) && Clean(e.classification) && Clean(e.eventId) && Clean(e.bootId)
  {
    hide Clean, Fields;
    var line := CStr(Serialize(e) + "\n");
    CStrHasNoNul(Serialize(e) + "\n");
    if Deserialize(Serialize(e) + "\n") == Some(e) {
      FieldsAreClean(line, 5, 0);
      FieldsAreClean(line, 5, 2);
      FieldsAreClean(line, 5, 3);
      FieldsAreClean(line, 5, 4);
    } else if Clean(e.recordId) && Clean(e.classification) && Clean(e.eventId) && Clean(e.bootId) {
      CleanIsReadBack(e);
    }
  }
}
