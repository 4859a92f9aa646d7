/** The journal of the post daemon, with its file and the directory of retained copies. */
module TelemJournal {
  import opened CStrings
  import opened JournalEntry
  import opened Journal

  /** getline, newline included. */
  method ReadLine(text: string) returns (line: string, rest: string)
    requires text != ""
    ensures line == text[..LineEnd(text)] && rest == text[LineEnd(text)..]
  {
    var i := 0;
    while i < |text| && text[i] != '\n'
      invariant i <= |text|
      invariant forall j :: 0 <= j < i ==> text[j] != '\n'
    {
      i := i + 1;
    }
    assert i == IndexOf(text, '\n');
    var end := if i < |text| then i + 1 else i;
    return text[..end], text[end..];
  }

  method GetRecordCount(file: string) returns (count: nat)
    ensures count == |RawLines(file)|
  {
    hide LineEnd;
    var rest, line := file, "";
    count := 0;
    while rest != ""
      invariant |RawLines(file)| == count + |RawLines(rest)|
      decreases |rest|
    {
      line, rest := ReadLine(rest);
      count := count + 1;
    }
  }

  /** What is left of a file, line by line. */
  method CopyToTmp(text: string) returns (tmp: string)
    ensures tmp == Copied(text)
  {
    hide LineEnd;
    var rest, line := text, "";
    tmp := "";
    while rest != ""
      invariant tmp + Copied(rest) == Copied(text)
      decreases |rest|
    {
      line, rest := ReadLine(rest);
      tmp := tmp + CStr(line);
    }
  }

  lemma TakeOneMore(file: string, i: nat)
    requires i < |RawLines(file)|
    ensures Rest(file, i) != "" && Rest(file, i + 1) == Rest(file, i)[LineEnd(Rest(file, i))..]
    ensures Rest(file, i)[..LineEnd(Rest(file, i))] == RawLines(file)[i]
    ensures Ids(RawLines(file)[..i + 1]) == Ids(RawLines(file)[..i]) + IdOf(RawLines(file)[i])
  {
    hide LineEnd, IdOf;
    RawLinesOfRest(file, i);
    RestOfRest(file, i);
    assert RawLines(file)[i] == RawLines(file)[i..][0];
    assert RawLines(file)[..i + 1][..i] == RawLines(file)[..i];
  }

  lemma DeleteOne(copies: map<string, string>, ids: seq<string>, line: string)
    ensures Without(copies, ids + IdOf(line)) ==
      match Deserialize(line) case None => Without(copies, ids) case Some(e) => Without(copies, ids) - {e.recordId}
    ensures Without(copies, []) == copies
  {
  }

  class TelemJournal {
    var file: string
    var recordCount: int
    var latestRecordId: Option<string>
    /** The files of the retention directory. */
    var copies: map<string, string>
    /** prune_entry_callback is delete_record_by_id. */
    var retention: bool

    ghost function State(): State
      reads this
    {
      Journal.State.State(file, recordCount, latestRecordId, copies, retention)
    }

    /** open_journal, and the callback that initialize_post_daemon registers. */
    constructor (file: string, copies: map<string, string>, retention: bool)
      ensures State() == Opened(file, copies, retention)
    {
      this.file, this.latestRecordId, this.copies, this.retention := file, None, copies, retention;
      var count := GetRecordCount(file);
      recordCount := count;
    }

    /** new_journal_entry; the random record id and the boot id of the system are given. */
    method NewJournalEntry(recordId: Option<string>, timestamp: int, classification: string, eventId: string,
        bootId: string)
      returns (ok: bool)
      requires classification != ""
      modifies this
      ensures State() == NewEntry(old(State()), recordId, timestamp, classification, eventId, bootId)
      ensures ok == (ValidClassification(classification) && Sender.IsEventId(eventId) && recordId.Some?)
      ensures !ok ==> State() == old(State())
      ensures ok && Ended(old(file)) && Clean(recordId.value) && Clean(classification) && Clean(bootId) ==>
        var lines, lines' := RawLines(old(file)), RawLines(file);
        && |lines'| == |lines| + 1 && lines'[..|lines|] == lines
        && Deserialize(lines'[|lines|]) ==
             Some(Entry(recordId.value, timestamp, classification, eventId, bootId))
    {
      hide ValidClassification, Sender.IsEventId, RawLines, Deserialize, Serialize, Clean;
      var valid := ValidateClassification(classification);
      if !valid {
        return false;
      }
      if !Sender.IsEventId(eventId) {
        return false;
      }
      if recordId.None? {
        return false;
      }
      var entry := Entry(recordId.value, timestamp, classification, eventId, bootId);
      file := file + (Serialize(entry) + "\n");
      recordCount := recordCount + 1;
      latestRecordId := recordId;
      if Ended(old(file)) && Clean(recordId.value) && Clean(classification) && Clean(bootId) {
        EntryIsAppended(old(State()), recordId.value, timestamp, classification, eventId, bootId);
      }
      return true;
    }

    /** save_local_copy */
    method SaveLocalCopy(body: string)
      modifies this`copies
      ensures State() == LocalCopy(old(State()), body)
    {
      if latestRecordId.None? {
        return;
      }
      copies := copies[latestRecordId.value := body + "\n"];
    }

    /** skip_n_lines, with the callback; `calls` are the ids that were passed to it. */
    method SkipNLines(n: nat) returns (ok: bool, rest: string, calls: seq<string>)
      modifies this`copies
      ensures ok == (n <= |RawLines(file)|)
      ensures ok ==> rest == Rest(file, n)
      ensures calls == if retention then Ids(RawLines(file)[..if ok then n else |RawLines(file)|]) else []
      ensures copies == Without(old(copies), calls)
    {
      hide LineEnd, Ids, RawLines, Rest, Without, Deserialize;
      DeleteOne(copies, [], "");
      NoLines(file);
      rest, calls := file, [];
      var i, line := 0, "";
      while i < n
        invariant i <= n && i <= |RawLines(file)| && rest == Rest(file, i)
        invariant calls == if retention then Ids(RawLines(file)[..i]) else []
        invariant copies == Without(old(copies), calls)
      {
        if rest == "" {
          OutOfLines(file, i);
          return false, rest, calls;
        }
        HasMore(file, i);
        TakeOneMore(file, i);
        line, rest := ReadLine(rest);
        if retention {
          DeleteOne(old(copies), calls, line);
          var entry := DeserializeJournalEntry(line);
          if entry.Some? {
            copies := copies - {entry.value.recordId};
            calls := calls + [entry.value.recordId];
          }
        }
        i := i + 1;
      }
      return true, rest, calls;
    }

    /** prune_journal */
    method PruneJournal() returns (ok: bool, calls: seq<string>)
      modifies this
      ensures State() == Pruned(old(State())) && calls == Dropped(old(State()))
      ensures ok == (old(recordCount) <= DEVIATION + RECORD_LIMIT ||
        old(recordCount) - RECORD_LIMIT <= |RawLines(old(file))|)
    {
      hide Ids, RawLines, Rest, Without;
      ok, calls := true, [];
      if recordCount > DEVIATION + RECORD_LIMIT {
        var count := recordCount - RECORD_LIMIT;
        var rest;
        ok, rest, calls := SkipNLines(count);
        if !ok {
          return;
        }
        file := CopyToTmp(rest);
        recordCount := recordCount - count;
      }
    }
  }

  lemma NoLines(file: string)
    ensures Rest(file, 0) == file && Ids(RawLines(file)[..0]) == []
  {
  }

  lemma OutOfLines(file: string, i: nat)
    requires i <= |RawLines(file)| && Rest(file, i) == ""
    ensures i == |RawLines(file)|
  {
  }

  lemma HasMore(file: string, i: nat)
    requires i <= |RawLines(file)| && Rest(file, i) != ""
    ensures i < |RawLines(file)|
  {
  }
}
