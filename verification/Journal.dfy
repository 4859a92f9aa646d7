/**
 The record journal: an append-only file with a cached count of its records, which is pruned
 to its last records now and then, and the retained copies that pruning deletes.
 */
module Journal {
  import opened CStrings
  import opened JournalEntry
  import Sender

  const RECORD_LIMIT := 100
  const DEVIATION := 50
  const MAX_CLASS_LENGTH := 122
  const MAX_SUBCAT_LENGTH := 40

  // ---- Lines of the file ----

  /** The end of the first line, with its newline if it has one. */
  function LineEnd(text: string): (i: nat)
    requires text != ""
    ensures 0 < i <= |text|
  {
    var i := IndexOf(text, '\n');
    if i < |text| then i + 1 else i
  }

  /** The lines as getline gives them. */
  function RawLines(text: string): seq<string> {
    if text == "" then [] else [text[..LineEnd(text)]] + RawLines(text[LineEnd(text)..])
  }

  /** What is left of the file after n lines. */
  function Rest(text: string, n: nat): string {
    if n == 0 || text == "" then text else Rest(text[LineEnd(text)..], n - 1)
  }

  lemma {:induction false} RawLinesOfRest(text: string, n: nat)
    requires n <= |RawLines(text)|
    ensures RawLines(Rest(text, n)) == RawLines(text)[n..]
  {
    hide LineEnd;
    if n == 0 {
    } else {
      RawLinesOfRest(text[LineEnd(text)..], n - 1);
    }
  }

  lemma {:induction false} RestOfRest(text: string, n: nat)
    ensures Rest(text, n + 1) == if Rest(text, n) == "" then "" else Rest(text, n)[LineEnd(Rest(text, n))..]
  {
    hide LineEnd;
    if n > 0 && text != "" {
      RestOfRest(text[LineEnd(text)..], n - 1);
    }
  }

  // ---- Copying ----

  /** The lines of a text as fprintf writes them: each ends at its first NUL byte, newline and all. */
  function Copied(text: string): string {
    if text == "" then "" else CStr(text[..LineEnd(text)]) + Copied(text[LineEnd(text)..])
  }

  lemma {:induction false} CopyIsShorter(text: string)
    ensures |Copied(text)| <= |text|
    ensures NUL in text ==> |Copied(text)| < |text|
    ensures NUL !in text ==> Copied(text) == text
  {
    if text == "" {
    } else {
      var line, rest := text[..LineEnd(text)], text[LineEnd(text)..];
      assert text == line + rest;
      CopyIsShorter(rest);
      if NUL !in line {
        IndexOfAbsent(line, NUL);
      }
    }
  }

  /** A copy is exact if and only if there is no NUL byte. */
  lemma CopyIsExactIff(text: string)
    ensures Copied(text) == text <==> NUL !in text
  {
    CopyIsShorter(text);
  }

  lemma NulEndsACopy()
    ensures Copied("a\0b\n") == "a"
  {
    var text := "a\0b\n";
    IndexOfIs(text, '\n', 3);
    IndexOfIs(text, NUL, 1);
    assert text[..LineEnd(text)] == text && text[LineEnd(text)..] == "";
    assert CStr(text) == "a";
  }

  lemma {:induction false} NoNulInLines(text: string)
    ensures NUL !in text <==> forall l :: l in RawLines(text) ==> NUL !in l
  {
    if text == "" {
    } else {
      var line, rest := text[..LineEnd(text)], text[LineEnd(text)..];
      assert text == line + rest;
      NoNulInLines(rest);
    }
  }

  lemma {:induction false} LinesAreText(text: string, text': string)
    requires RawLines(text) == RawLines(text')
    ensures text == text'
  {
    hide LineEnd;
    if text != "" && text' != "" {
      var rest, rest' := text[LineEnd(text)..], text'[LineEnd(text')..];
      assert RawLines(text)[1..] == RawLines(rest) && RawLines(text')[1..] == RawLines(rest');
      LinesAreText(rest, rest');
      assert text == RawLines(text)[0] + rest && text' == RawLines(text')[0] + rest';
    }
  }

  predicate Ended(text: string) {
    text != "" ==> text[|text| - 1] == '\n'
  }

  /** The newlines of s. */
  function Newlines(s: string): nat {
    if s == "" then 0 else (if s[0] == '\n' then 1 else 0) + Newlines(s[1..])
  }

  lemma {:induction false} NewlinesFrom(text: string)
    requires text != ""
    ensures Newlines(text) == Newlines(text[LineEnd(text)..]) + if IndexOf(text, '\n') < |text| then 1 else 0
  {
    if text[0] != '\n' {
      var t := text[1..];
      if t == "" {
        assert text[LineEnd(text)..] == "";
      } else {
        NewlinesFrom(t);
        assert LineEnd(text) == LineEnd(t) + 1;
        assert t[LineEnd(t)..] == text[LineEnd(text)..];
      }
    }
  }

  /** getline counts the newlines, and the last line if it has none. */
  lemma {:induction false} CountLines(text: string)
    ensures |RawLines(text)| == Newlines(text) + if Ended(text) then 0 else 1
  {
    if text == "" {
    } else {
      var rest := text[LineEnd(text)..];
      NewlinesFrom(text);
      CountLines(rest);
      assert rest != "" ==> rest[|rest| - 1] == text[|text| - 1];
    }
  }

  lemma {:induction false} NewlinesAppend(s: string, t: string)
    ensures Newlines(s + t) == Newlines(s) + Newlines(t)
  {
    if s == "" {
      assert s + t == t;
    } else {
      assert (s + t)[1..] == s[1..] + t;
      NewlinesAppend(s[1..], t);
    }
  }

  /** Appending a line adds one to the count of lines exactly when the file ends a line and the line is one. */
  lemma AppendCountsIff(text: string, line: string)
    ensures |RawLines(text + line + "\n")| == |RawLines(text)| + 1 <==> Newlines(line) == if Ended(text) then 0 else 1
  {
    CountLines(text);
    CountLines(text + line + "\n");
    NewlinesAppend(text + line, "\n");
    NewlinesAppend(text, line);
    assert Newlines("\n") == 1 + Newlines("\n"[1..]);
  }

  lemma FirstLine(text: string, more: string)
    requires text != "" && Ended(text)
    ensures LineEnd(text + more) == LineEnd(text)
    ensures (text + more)[..LineEnd(text)] == text[..LineEnd(text)]
    ensures (text + more)[LineEnd(text)..] == text[LineEnd(text)..] + more
    ensures Ended(text[LineEnd(text)..])
  {
  }

  lemma {:induction false} RawLinesConcat(text: string, more: string)
    requires Ended(text)
    ensures RawLines(text + more) == RawLines(text) + RawLines(more)
  {
    hide LineEnd, Ended;
    if text == "" {
      assert text + more == more;
    } else {
      FirstLine(text, more);
      RawLinesConcat(text[LineEnd(text)..], more);
    }
  }

  lemma RawLinesOfLine(line: string)
    requires '\n' !in line
    ensures RawLines(line + "\n") == [line + "\n"]
  {
    var all := line + "\n";
    assert all[..|line|] == line;
    IndexOfIs(all, '\n', |line|);
    assert all[..LineEnd(all)] == all && all[LineEnd(all)..] == "";
  }

  // ---- Classifications ----

  /** Three parts between two slashes; the first may have one character more than the others. */
  predicate ValidClassification(s: string) {
    var a := IndexOf(s, '/');
    |s| <= MAX_CLASS_LENGTH && a < |s| && a <= MAX_SUBCAT_LENGTH + 1 &&
    var rest := s[a + 1..];
    var b := IndexOf(rest, '/');
    b < |rest| && b <= MAX_SUBCAT_LENGTH && '/' !in rest[b + 1..] && |rest| - b - 1 <= MAX_SUBCAT_LENGTH
  }

  lemma ValidHasThreeParts(s: string) returns (a: string, b: string, c: string)
    requires ValidClassification(s)
    ensures IsThreeParts(s, a, b, c)
  {
    var i := IndexOf(s, '/');
    var rest := s[i + 1..];
    var j := IndexOf(rest, '/');
    a, b, c := s[..i], rest[..j], rest[j + 1..];
    CutAt(s, i);
    CutAt(rest, j);
    hide ValidClassification;
    ThreeJoined(a, b, c);
  }

  lemma CutAt(s: string, i: nat)
    requires i < |s|
    ensures s == s[..i] + [s[i]] + s[i + 1..]
  {
  }

  lemma ThreeJoined(a: string, b: string, c: string)
    ensures a + ['/'] + (b + ['/'] + c) == a + "/" + b + "/" + c
  {
  }

  lemma ThreePartsAreValid(s: string, a: string, b: string, c: string)
    requires IsThreeParts(s, a, b, c) && |s| <= 122
    ensures ValidClassification(s)
  {
    var rest := b + ['/'] + c;
    assert s == a + ['/'] + rest;
    IndexOfAfter(a, '/', rest);
    assert s[|a| + 1..] == rest;
    IndexOfAfter(b, '/', c);
    assert rest[|b| + 1..] == c;
  }

  /** A classification is valid exactly when it is three parts without slashes, of at most 41, 40 and 40 characters. */
  lemma ValidIffThreeParts(s: string)
    ensures ValidClassification(s) <==>
      exists a: string, b: string, c: string :: IsThreeParts(s, a, b, c) && |s| <= 122
  {
    if ValidClassification(s) {
      var a, b, c := ValidHasThreeParts(s);
    }
    hide ValidClassification, IsThreeParts;
    if a: string, b: string, c: string :| IsThreeParts(s, a, b, c) && |s| <= 122 {
      ThreePartsAreValid(s, a, b, c);
    }
  }

  predicate IsThreeParts(s: string, a: string, b: string, c: string) {
    && s == a + "/" + b + "/" + c
    && '/' !in a && '/' !in b && '/' !in c
    && |a| <= 41 && |b| <= 40 && |c| <= 40
  }

  /** The parts of a valid classification have at most 40 characters, as documented, exactly when the first has. */
  lemma PartsWithinLimitIff(s: string)
    requires ValidClassification(s)
    ensures var a := IndexOf(s, '/'); var rest := s[a + 1..]; var b := IndexOf(rest, '/');
      (a <= MAX_SUBCAT_LENGTH && b <= MAX_SUBCAT_LENGTH && |rest| - b - 1 <= MAX_SUBCAT_LENGTH) <==>
        a <= MAX_SUBCAT_LENGTH
  {
  }

  /** A first part of 41 characters is valid, a second one is not. */
  lemma FirstPartMayBeLonger(part: string)
    requires |part| == MAX_SUBCAT_LENGTH + 1 && '/' !in part
    ensures ValidClassification(part + "/b/c") && !ValidClassification("a/" + part + "/c")
  {
    var s, t := part + "/b/c", "a/" + part + "/c";
    assert s == part + ['/'] + "b/c" && s[|part| + 1..] == "b/c";
    IndexOfAfter(part, '/', "b/c");
    IndexOfIs("b/c", '/', 1);
    assert "b/c"[2..] == "c";
    assert t[..1] == "a";
    IndexOfIs(t, '/', 1);
    assert t[2..] == part + ['/'] + "c";
    IndexOfAfter(part, '/', "c");
  }

  /** The places of the first slashes of s[..i], as far as there are any. */
  ghost predicate SlashesAt(s: string, i: nat, slashes: nat, a: nat, b: nat) {
    && i <= |s|
    && (slashes == 0 ==> forall j :: 0 <= j < i ==> s[j] != '/')
    && (slashes >= 1 ==> a < i && s[a] == '/' && forall j :: 0 <= j < a ==> s[j] != '/')
    && (slashes == 1 ==> forall j :: a < j < i ==> s[j] != '/')
    && (slashes >= 2 ==> a < b < i && s[b] == '/' && forall j :: a < j < b ==> s[j] != '/')
    && (slashes == 2 ==> forall j :: b < j < i ==> s[j] != '/')
    && (slashes >= 3 ==> exists j :: b < j < i && s[j] == '/')
  }

  /** The characters of s[..i] after its last slash. */
  function Since(i: nat, slashes: nat, a: nat, b: nat): int {
    if slashes == 0 then i else if slashes == 1 then i - a else i - b
  }

  lemma ValidIff(s: string, i: nat, slashes: nat, a: nat, b: nat)
    requires SlashesAt(s, i, slashes, a, b)
    ensures i == |s| && slashes == 2 ==>
      (ValidClassification(s) <==> |s| <= MAX_CLASS_LENGTH && a <= 41 && b - a <= 41 && |s| - b <= 41)
    ensures i == |s| && slashes < 2 ==> !ValidClassification(s)
    ensures slashes >= 3 ==> !ValidClassification(s)
    ensures slashes < 3 && Since(i, slashes, a, b) > 41 ==> !ValidClassification(s)
  {
  }

  method ValidateClassification(classification: string) returns (ok: bool)
    requires classification != ""
    ensures ok == ValidClassification(classification)
  {
    hide ValidClassification, SlashesAt;
    var s := classification;
    if |s| > MAX_CLASS_LENGTH {
      TooLong(s);
      return false;
    }
    var i: nat, x: int, slashes: nat := 0, 0, 0;
    ghost var a: nat, b: nat := 0, 0;
    NoSlashes(s);
    while i < |s|
      invariant i <= |s| && SlashesAt(s, i, slashes, a, b)
      invariant slashes < 3 ==> x == Since(i, slashes, a, b) <= 41
      invariant slashes >= 1 ==> a <= 41
      invariant slashes >= 2 ==> b - a <= 41
    {
      NextSlash(s, i, slashes, a, b);
      if s[i] == '/' {
        if slashes == 0 {
          a := i;
        } else if slashes == 1 {
          b := i;
        }
        slashes, x := slashes + 1, 0;
      } else if x > MAX_SUBCAT_LENGTH {
        ValidIff(s, i + 1, slashes, a, b);
        return false;
      }
      i, x := i + 1, x + 1;
    }
    ValidIff(s, i, slashes, a, b);
    return slashes == 2;
  }

  lemma TooLong(s: string)
    requires |s| > MAX_CLASS_LENGTH
    ensures !ValidClassification(s)
  {
  }

  lemma NoSlashes(s: string)
    ensures SlashesAt(s, 0, 0, 0, 0)
  {
  }

  lemma NextSlash(s: string, i: nat, slashes: nat, a: nat, b: nat)
    requires i < |s| && SlashesAt(s, i, slashes, a, b)
    ensures s[i] == '/' ==>
      SlashesAt(s, i + 1, slashes + 1, if slashes == 0 then i else a, if slashes == 1 then i else b)
    ensures s[i] != '/' ==> SlashesAt(s, i + 1, slashes, a, b)
  {
  }

  // ---- The journal ----

  /** The record ids of the lines that are entries. */
  function Ids(lines: seq<string>): seq<string> {
    if lines == [] then [] else Ids(lines[..|lines| - 1]) + IdOf(lines[|lines| - 1])
  }

  function IdOf(line: string): seq<string> {
    match Deserialize(line)
    case None => []
    case Some(e) => [e.recordId]
  }

  /** The copies that are left once those with the given ids are deleted. */
  function Without(copies: map<string, string>, ids: seq<string>): map<string, string> {
    map k | k in copies && k !in ids :: copies[k]
  }

  /**
   The journal file, its count of records, the last record id, and the retained copies with the callback that
   deletes them.
   */
  datatype State = State(file: string, count: int, latest: Option<string>, copies: map<string, string>, retention: bool)

  function Opened(file: string, copies: map<string, string>, retention: bool): State {
    State(file, |RawLines(file)|, None, copies, retention)
  }

  function NewEntry(st: State, recordId: Option<string>, timestamp: int, classification: string, eventId: string,
      bootId: string): State
  {
    if !ValidClassification(classification) || !Sender.IsEventId(eventId) || recordId.None? then st
    else
      var e := Entry(recordId.value, timestamp, classification, eventId, bootId);
      st.(file := st.file + (Serialize(e) + "\n"), count := st.count + 1, latest := recordId)
  }

  /** An accepted entry adds one line, from which all that was given is read back, and is counted and remembered. */
  lemma EntryIsAppended(st: State, recordId: string, timestamp: int, classification: string, eventId: string,
      bootId: string)
    requires ValidClassification(classification) && Sender.IsEventId(eventId) && Ended(st.file)
    requires Clean(recordId) && Clean(classification) && Clean(bootId)
    ensures var st' := NewEntry(st, Some(recordId), timestamp, classification, eventId, bootId);
      var lines, lines' := RawLines(st.file), RawLines(st'.file);
      && |lines'| == |lines| + 1 && lines'[..|lines|] == lines
      && Deserialize(lines'[|lines|]) == Some(Entry(recordId, timestamp, classification, eventId, bootId))
      && st'.count == st.count + 1 && st'.latest == Some(recordId) && st'.copies == st.copies && Ended(st'.file)
  {
    hide ValidClassification, Sender.IsEventId, RawLines, Deserialize, Serialize, Clean;
    var e := Entry(recordId, timestamp, classification, eventId, bootId);
    EventIdIsClean(eventId);
    CleanIsReadBack(e);
    LineIsOne(e);
    RawLinesOfLine(Serialize(e));
    RawLinesConcat(st.file, Serialize(e) + "\n");
  }

  /** The journal is left alone when the classification, the event id or the random id is not there or not valid. */
  lemma RejectedEntry(st: State, recordId: Option<string>, timestamp: int, classification: string, eventId: string,
      bootId: string)
    requires !ValidClassification(classification) || !Sender.IsEventId(eventId) || recordId.None?
    ensures NewEntry(st, recordId, timestamp, classification, eventId, bootId) == st
  {
    hide ValidClassification, Sender.IsEventId;
  }

  lemma EventIdIsClean(id: string)
    requires Sender.IsEventId(id)
    ensures Clean(id)
  {
  }

  lemma LineIsOne(e: Entry)
    requires Clean(e.recordId) && Clean(e.eventId) && Clean(e.bootId)
    ensures '\n' in Serialize(e) <==> '\n' in e.classification
    ensures Clean(e.classification) ==> '\n' !in Serialize(e)
  {
    FormatIsClean(e.timestamp);
    var head := e.recordId + [RS] + Decimal.Format(e.timestamp) + [RS];
    var tail := [RS] + e.eventId + [RS] + e.bootId;
    assert '\n' !in head && '\n' !in tail;
    assert Serialize(e) == head + e.classification + tail;
  }

  /** The copy goes to the file of the last record id, whichever record that was. */
  function LocalCopy(st: State, body: string): State {
    if st.latest.None? then st else st.(copies := st.copies[st.latest.value := body + "\n"])
  }

  /** The ids that pruning passes to the callback. */
  function Dropped(st: State): seq<string> {
    var lines := RawLines(st.file);
    var n := st.count - RECORD_LIMIT;
    if st.count <= DEVIATION + RECORD_LIMIT || !st.retention then []
    else Ids(lines[..if n <= |lines| then n else |lines|])
  }

  function Pruned(st: State): State {
    var n := st.count - RECORD_LIMIT;
    var copies := Without(st.copies, Dropped(st));
    if st.count <= DEVIATION + RECORD_LIMIT then st
    else if n > |RawLines(st.file)| then st.(copies := copies)
    else st.(file := Copied(Rest(st.file, n)), count := RECORD_LIMIT, copies := copies)
  }
}
