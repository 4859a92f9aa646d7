/** What the journal and the retained copies keep over every run of the post daemon. */
module JournalRuns {
  import opened CStrings
  import opened Headers
  import opened JournalEntry
  import opened Journal
  import opened RecordFile
  import Receiver
  import RecordRoundTrip

  /** get_header_value */
  function HeaderValue(header: string): Option<string> {
    var i := IndexOf(header, ':');
    if i == |header| then None
    else if i + 1 < |header| && header[i + 1] == ' ' then Some(header[i + 2..])
    else Some(header[i + 1..])
  }

  /** What follows the first colon, without one space after it. */
  lemma HeaderValueIs(name: string, value: string)
    requires ':' !in name
    ensures HeaderValue(name + ": " + value) == Some(value)
    ensures value == "" || value[0] != ' ' ==> HeaderValue(name + ":" + value) == Some(value)
    ensures HeaderValue(name) == None
  {
    assert name + ": " + value == name + [':'] + (" " + value);
    IndexOfAfter(name, ':', " " + value);
    assert (name + ": " + value)[|name| + 2..] == value;
    IndexOfAfter(name, ':', value);
    assert (name + ":" + value)[|name| + 1..] == value;
    IndexOfAbsent(name, ':');
  }

  /** save_entry_to_journal, then apply_retention_policies, for a record of the staging directory. */
  function Journaled(st: State, record: Loaded, recordId: Option<string>, timestamp: int, bootId: string): State
    requires |record.headers| == NUM_HEADERS
  {
    var classification, eventId := HeaderValue(record.headers[CLASSIFICATION]), HeaderValue(record.headers[EVENT_ID]);
    var st' :=
      if classification.None? || eventId.None? then st
      else NewEntry(st, recordId, timestamp, classification.value, eventId.value, bootId);
    if st.retention then LocalCopy(st', CStr(record.body)) else st'
  }

  lemma LiteralHasNoColon()
    ensures ':' !in "classification" && ':' !in "event_id"
  {
    var a, b := "classification", "event_id";
    assert forall i :: 0 <= i < |a| ==> a[i] >= 'a';
    assert forall i :: 0 <= i < |b| ==> b[i] >= '_';
  }

  /** Header 1 gives the classification of the entry, and header 14 its event id. */
  lemma JournaledFields(st: State, record: Loaded, recordId: string, timestamp: int, classification: string,
      eventId: string, bootId: string)
    requires |record.headers| == NUM_HEADERS
    requires record.headers[1] == "classification: " + classification && record.headers[14] == "event_id: " + eventId
    requires ValidClassification(classification) && Sender.IsEventId(eventId) && Ended(st.file)
    requires Clean(recordId) && Clean(classification) && Clean(bootId)
    ensures var st' := Journaled(st, record, Some(recordId), timestamp, bootId);
      var lines, lines' := RawLines(st.file), RawLines(st'.file);
      && |lines'| == |lines| + 1 && lines'[..|lines|] == lines
      && Deserialize(lines'[|lines|]) == Some(Entry(recordId, timestamp, classification, eventId, bootId))
      && st'.count == st.count + 1 && st'.latest == Some(recordId)
  {
    hide ValidClassification, Sender.IsEventId, CStr, Serialize, Deserialize, RawLines, Clean;
    hide HeaderValue, NewEntry, Ended;
    LiteralHasNoColon();
    HeaderValueIs("classification", classification);
    HeaderValueIs("event_id", eventId);
    assert "classification" + ": " + classification == "classification: " + classification;
    assert "event_id" + ": " + eventId == "event_id: " + eventId;
    EntryIsAppended(st, recordId, timestamp, classification, eventId, bootId);
  }

  /** The headers make a journal entry. */
  predicate Enters(record: Loaded)
    requires |record.headers| == NUM_HEADERS
  {
    var classification, eventId := HeaderValue(record.headers[CLASSIFICATION]), HeaderValue(record.headers[EVENT_ID]);
    classification.Some? && eventId.Some? && ValidClassification(classification.value) &&
      Sender.IsEventId(eventId.value)
  }

  /**
   A record is retained under the id it is given exactly when it enters the journal; otherwise it takes the
   place of another.
   */
  lemma RetainedUnderItsIdIff(st: State, record: Loaded, recordId: string, timestamp: int, bootId: string)
    requires |record.headers| == NUM_HEADERS && st.retention && recordId !in st.copies && st.latest != Some(recordId)
    ensures var body := CStr(record.body) + "\n";
      var copies := Journaled(st, record, Some(recordId), timestamp, bootId).copies;
      && (recordId in copies && copies[recordId] == body <==> Enters(record))
      && (Enters(record) ==> copies == st.copies[recordId := body])
      && (!Enters(record) ==> copies == if st.latest.Some? then st.copies[st.latest.value := body] else st.copies)
  {
    hide ValidClassification, Sender.IsEventId, CStr, Serialize;
  }

  /** A record file that is processed for the first time, with the random id and the boot id it is given; or a prune. */
  datatype Action =
    | Stage(file: string, recordId: Option<string>, timestamp: int, bootId: string)
    | Prune

  /** Record ids are hexadecimal and boot ids are what one line of a file holds. */
  predicate Proper(a: Action) {
    a.Stage? ==> (a.recordId.Some? ==> Clean(a.recordId.value)) && Clean(a.bootId)
  }

  function Act(st: State, a: Action): State {
    match a
    case Prune => Pruned(st)
    case Stage(file, recordId, timestamp, bootId) =>
      match ReadStaged(file)
      case None => st
      case Some(record) => Journaled(st, record, recordId, timestamp, bootId)
  }

  function Acts(st: State, actions: seq<Action>): State
    decreases |actions|
  {
    if actions == [] then st else Acts(Act(st, actions[0]), actions[1..])
  }

  /** A record whose headers have no values. */
  function Valueless(body: string): string {
    Receiver.StagedText(Receiver.Staged(None, NAMES, body))
  }

  lemma ValuelessIsRead(body: string)
    ensures |NAMES| == NUM_HEADERS
    ensures ReadStaged(Valueless(body)) == Some(Loaded(None, NAMES, body + "\n"))
  {
    hide Receiver.StagedText, Read;
    NamesAreWords();
    RecordRoundTrip.NamesAreHeaderLines(NAMES);
    assert NAMES[0] == "record_format_version";
    RecordRoundTrip.FileIsReadIff(None, NAMES, NAMES, body);
  }

  lemma NoColonNoEntry(record: Loaded)
    requires |record.headers| == NUM_HEADERS && ':' !in record.headers[CLASSIFICATION]
    ensures !Enters(record)
  {
    hide ValidClassification, Sender.IsEventId;
    IndexOfAbsent(record.headers[CLASSIFICATION], ':');
  }

  lemma NameHasNoColon()
    ensures |NAMES| == NUM_HEADERS && ':' !in NAMES[CLASSIFICATION]
  {
    var name := "classification";
    assert NAMES[CLASSIFICATION] == name && forall i :: 0 <= i < |name| ==> name[i] >= 'a';
  }

  lemma ValuelessDoesNotEnter(body: string)
    ensures |NAMES| == NUM_HEADERS && !Enters(Loaded(None, NAMES, body))
  {
    hide Enters;
    NameHasNoColon();
    NoColonNoEntry(Loaded(None, NAMES, body));
  }

  /** It is read, and its copy takes the place of the copy of the record before it; it gets none of its own. */
  lemma ValuelessReplacesCopy(st: State, body: string, id: string, latest: string, timestamp: int, bootId: string)
    requires st.retention && st.latest == Some(latest) && id != latest && id !in st.copies
    ensures var st' := Act(st, Stage(Valueless(body), Some(id), timestamp, bootId));
      && st'.copies == st.copies[latest := CStr(body + "\n") + "\n"] && id !in st'.copies
      && st'.file == st.file && st'.count == st.count
  {
    hide Valueless, ReadStaged, Enters, CStr, ValidClassification, Sender.IsEventId, Serialize;
    ValuelessIsRead(body);
    ValuelessDoesNotEnter(body + "\n");
    RetainedUnderItsIdIff(st, Loaded(None, NAMES, body + "\n"), id, timestamp, bootId);
    RejectedIsNotEntered(st, Loaded(None, NAMES, body + "\n"), id, timestamp, bootId);
  }

  lemma RejectedIsNotEntered(st: State, record: Loaded, recordId: string, timestamp: int, bootId: string)
    requires |record.headers| == NUM_HEADERS && !Enters(record)
    ensures var st' := Journaled(st, record, Some(recordId), timestamp, bootId);
      st'.file == st.file && st'.count == st.count
  {
    hide ValidClassification, Sender.IsEventId, CStr, Serialize;
  }

  // ---- What every action keeps ----

  /** The count is that of the lines of the file, which end one. */
  predicate Counted(st: State) {
    st.count == |RawLines(st.file)| && Ended(st.file)
  }

  /** The last record id is that of the last line. */
  predicate LatestIsLast(st: State) {
    var lines := RawLines(st.file);
    st.latest.Some? ==> lines != [] && IdOf(lines[|lines| - 1]) == [st.latest.value]
  }

  predicate NulFree(st: State) {
    NUL !in st.file
  }

  /** Every retained copy is of a record in the journal. */
  ghost predicate Traced(st: State) {
    st.retention ==> forall id :: id in st.copies ==> id in Ids(RawLines(st.file))
  }

  ghost predicate Kept(st: State) {
    Counted(st) && NulFree(st) && LatestIsLast(st) && Traced(st)
  }

  lemma {:induction false} IdsConcat(a: seq<string>, b: seq<string>)
    ensures Ids(a + b) == Ids(a) + Ids(b)
  {
    hide IdOf;
    if b == [] {
      assert a + b == a;
    } else {
      var c := b[..|b| - 1];
      assert (a + b)[..|a + b| - 1] == a + c;
      IdsConcat(a, c);
    }
  }

  /**
   Pruning acts above 150 records only; it passes the ids of the entries before the last 100 lines to the
   callback, each once and in order, and leaves those lines as they are exactly when they hold no NUL byte.
   */
  lemma PruneKeepsLast(st: State)
    requires st.count == |RawLines(st.file)|
    ensures st.count <= 150 ==> Pruned(st) == st && Dropped(st) == []
    ensures st.count > 150 ==>
      var lines := RawLines(st.file);
      && (RawLines(Pruned(st).file) == lines[|lines| - 100..] <==>
            forall l :: l in lines[|lines| - 100..] ==> NUL !in l)
      && Pruned(st).count == 100
      && Dropped(st) == (if st.retention then Ids(lines[..|lines| - 100]) else [])
      && Pruned(st).copies == Without(st.copies, Dropped(st))
  {
    hide RawLines, Rest, Ids, Copied;
    if st.count > 150 {
      var rest := Rest(st.file, st.count - 100);
      RawLinesOfRest(st.file, st.count - 100);
      NoNulInLines(rest);
      CopyIsExactIff(rest);
      if RawLines(Copied(rest)) == RawLines(rest) {
        LinesAreText(Copied(rest), rest);
      }
    }
    assert st.count <= 150 ==> st.(copies := st.copies) == st;
  }

  lemma {:induction false} RestIsEnded(text: string, n: nat)
    requires Ended(text) && NUL !in text
    ensures Ended(Rest(text, n)) && NUL !in Rest(text, n)
  {
    if n > 0 && text != "" {
      RestIsEnded(text[LineEnd(text)..], n - 1);
    }
  }

  lemma PruneKeeps(st: State)
    requires Kept(st)
    ensures Kept(Pruned(st))
  {
    hide RawLines, Rest, Ids, IdOf, LineEnd, Copied;
    PruneKeepsLast(st);
    if st.count > 150 {
      var lines := RawLines(st.file);
      var st' := Pruned(st);
      var lines' := RawLines(st'.file);
      RestIsEnded(st.file, st.count - 100);
      CopyIsExactIff(Rest(st.file, st.count - 100));
      RawLinesOfRest(st.file, st.count - 100);
      assert lines'[|lines'| - 1] == lines[|lines| - 1];
      var dropped := lines[..|lines| - 100];
      assert lines == dropped + lines';
      IdsConcat(dropped, lines');
    }
  }

  // ---- Entries ----

  lemma {:induction false} SeparatorsAppend(s: string, t: string)
    ensures Separators(s + t) == Separators(s) + Separators(t)
  {
    if s == "" {
      assert s + t == t;
    } else {
      assert (s + t)[1..] == s[1..] + t;
      SeparatorsAppend(s[1..], t);
    }
  }

  lemma SeparatorsBefore(s: string, c: char, t: string)
    requires IsSeparator(c)
    ensures Separators(s + [c] + t) >= 1 + Separators(t)
  {
    SeparatorsAppend(s + [c], t);
    SeparatorsAppend(s, [c]);
    assert [c][1..] == "";
  }

  /** The id of an entry can be told from its line whatever separators its classification holds. */
  lemma IdIsReadBack(e: Entry)
    requires Clean(e.recordId) && NUL !in e.classification && Clean(e.eventId) && Clean(e.bootId)
    ensures IdOf(Serialize(e) + "\n") == [e.recordId]
  {
    hide Fields, Separators, Clean, Decimal.Format;
    var f4 := e.bootId + "\n" + "";
    var f3 := e.eventId + [RS] + f4;
    var f2 := e.classification + [RS] + f3;
    var f1 := Decimal.Format(e.timestamp) + [RS] + f2;
    var line := e.recordId + [RS] + f1;
    assert Serialize(e) + "\n" == line;
    FieldAfter(e.recordId, RS, f1, 5);
    SeparatorsBefore(Decimal.Format(e.timestamp), RS, f2);
    SeparatorsBefore(e.classification, RS, f3);
    SeparatorsBefore(e.eventId, RS, f4);
    FieldsIff(f1, 4);
    CleanHasNoNul(e);
  }

  lemma {:induction false} NoNewlines(s: string)
    ensures Newlines(s) == 0 <==> '\n' !in s
  {
    if s == "" {
    } else {
      NoNewlines(s[1..]);
    }
  }

  /** The count stays that of the lines exactly when the classification is on one line. */
  lemma EntryCountsIff(st: State, e: Entry)
    requires Counted(st) && Clean(e.recordId) && Clean(e.eventId) && Clean(e.bootId)
    ensures st.count + 1 == |RawLines(st.file + (Serialize(e) + "\n"))| <==> '\n' !in e.classification
  {
    hide RawLines, Serialize, Clean;
    AppendCountsIff(st.file, Serialize(e));
    assert st.file + Serialize(e) + "\n" == st.file + (Serialize(e) + "\n");
    NoNewlines(Serialize(e));
    LineIsOne(e);
  }

  /** A valid classification with a newline makes two lines, which count as one record. */
  lemma NewlineBreaksCount(st: State, e: Entry)
    requires Counted(st) && Clean(e.recordId) && Clean(e.eventId) && Clean(e.bootId) && e.classification == "\n/b/c"
    ensures ValidClassification(e.classification)
    ensures st.count + 1 != |RawLines(st.file + (Serialize(e) + "\n"))|
  {
    hide RawLines, Serialize, Clean;
    EntryCountsIff(st, e);
    var s := e.classification;
    assert s[0] == '\n' && s[..1] == "\n" && s[2..] == "b/c" && "b/c"[..1] == "b" && "b/c"[2..] == "c";
    IndexOfIs(s, '/', 1);
    IndexOfIs("b/c", '/', 1);
  }

  lemma NewEntryKeeps(st: State, e: Entry)
    requires Kept(st) && Clean(e.recordId) && Clean(e.eventId) && Clean(e.bootId) && OneLine(e.classification)
    ensures Kept(st.(file := st.file + (Serialize(e) + "\n"), count := st.count + 1, latest := Some(e.recordId)))
  {
    hide RawLines, Serialize, Clean, Ids, IdOf;
    var line := Serialize(e) + "\n";
    LineIsOne(e);
    CleanHasNoNul(e);
    RawLinesOfLine(Serialize(e));
    RawLinesConcat(st.file, line);
    IdsConcat(RawLines(st.file), [line]);
    IdIsReadBack(e);
  }

  lemma LocalCopyKeeps(st: State, body: string)
    requires Kept(st)
    ensures Kept(LocalCopy(st, body))
  {
  }

  // ---- Headers of staged records ----

  lemma {:induction false} HeadersAreLines(text: string, names: seq<string>)
    requires ReadHeaders(ByStrchr, text, names).Some?
    ensures forall h :: h in ReadHeaders(ByStrchr, text, names).value.0 ==> OneLine(h)
    decreases |names|
  {
    hide FgetsLen, ByStrchr;
    if names == [] {
    } else {
      var n := FgetsLen(text);
      CutIsLine(text[..n]);
      HeadersAreLines(text[n..], names[1..]);
    }
  }

  lemma CutIsLine(raw: string)
    ensures OneLine(ByStrchr(raw))
  {
  }

  lemma StagedHeaders(file: string)
    requires ReadStaged(file).Some?
    ensures |ReadStaged(file).value.headers| == NUM_HEADERS
    ensures forall h :: h in ReadStaged(file).value.headers ==> OneLine(h)
  {
    hide ReadHeaders, ByStrchr;
    var text := ReadCfg(file).value.1;
    HeadersAreLines(text, NAMES);
  }

  lemma StageKeeps(st: State, record: Loaded, recordId: Option<string>, timestamp: int, bootId: string)
    requires Kept(st) && |record.headers| == NUM_HEADERS && forall h :: h in record.headers ==> OneLine(h)
    requires (recordId.Some? ==> Clean(recordId.value)) && Clean(bootId)
    ensures Kept(Journaled(st, record, recordId, timestamp, bootId))
  {
    hide Kept, Clean, Serialize, ValidClassification, Sender.IsEventId, CStr;
    assert record.headers[CLASSIFICATION] in record.headers;
    var classification, eventId := HeaderValue(record.headers[CLASSIFICATION]), HeaderValue(record.headers[EVENT_ID]);
    var st' := st;
    if classification.Some? && eventId.Some? {
      st' := NewEntry(st, recordId, timestamp, classification.value, eventId.value, bootId);
      if recordId.Some? && ValidClassification(classification.value) && Sender.IsEventId(eventId.value) {
        EventIdIsClean(eventId.value);
        NewEntryKeeps(st, Entry(recordId.value, timestamp, classification.value, eventId.value, bootId));
      }
    }
    LocalCopyKeeps(st', CStr(record.body));
  }

  lemma ActKeeps(st: State, a: Action)
    requires Kept(st) && Proper(a)
    ensures Kept(Act(st, a))
  {
    hide Kept, Pruned, Journaled, ReadStaged, Clean;
    if a == Prune {
      PruneKeeps(st);
    } else if ReadStaged(a.file).Some? {
      StagedHeaders(a.file);
      StageKeeps(st, ReadStaged(a.file).value, a.recordId, a.timestamp, a.bootId);
    }
  }

  /** Over every run: the count is right, the last id is that of the last line, and no copy outlives its entry. */
  lemma {:induction false} RunKeeps(st: State, actions: seq<Action>)
    requires Kept(st) && forall a :: a in actions ==> Proper(a)
    ensures Kept(Acts(st, actions))
    decreases |actions|
  {
    hide Kept, Act, Proper;
    if actions == [] {
    } else {
      ActKeeps(st, actions[0]);
      RunKeeps(Act(st, actions[0]), actions[1..]);
    }
  }

  /** A text file of whole lines and copies of its records only are a good start. */
  lemma KeptAtStart(file: string, copies: map<string, string>, retention: bool)
    requires Ended(file) && NUL !in file && (retention ==> forall id :: id in copies ==> id in Ids(RawLines(file)))
    ensures Kept(Opened(file, copies, retention))
  {
  }
}
