/** The spool byte counter against the files it counts. */
module SpoolCounter {
  import opened RecordFile
  import opened PostDaemon
  import opened PostRuns

  /** What the named files take on disk together. */
  ghost function SizeOn(dir: map<string, File>, names: set<string>): nat
    requires names <= dir.Keys
  {
    if names == {} then 0
    else
      var n :| n in names;
      Size(dir[n]) + SizeOn(dir, names - {n})
  }

  lemma {:induction false} SizeOnSplit(dir: map<string, File>, names: set<string>, n: string)
    requires names <= dir.Keys && n in names
    ensures SizeOn(dir, names) == Size(dir[n]) + SizeOn(dir, names - {n})
    decreases |names|
  {
    var m :| m in names && SizeOn(dir, names) == Size(dir[m]) + SizeOn(dir, names - {m});
    if m != n {
      SizeOnSplit(dir, names - {m}, n);
      SizeOnSplit(dir, names - {n}, m);
      assert names - {m} - {n} == names - {n} - {m};
    }
  }

  /** Fewer names, files unchanged: no larger a sum. */
  lemma {:induction false} SizeOnLess(dir: map<string, File>, names: set<string>, dir': map<string, File>,
      names': set<string>)
    requires names <= dir.Keys && names' <= dir'.Keys && names' <= names
    requires forall n :: n in names' ==> dir'[n] == dir[n]
    ensures SizeOn(dir', names') <= SizeOn(dir, names)
    decreases |names|
  {
    if names == {} {
    } else {
      var n :| n in names;
      SizeOnSplit(dir, names, n);
      if n in names' {
        SizeOnSplit(dir', names', n);
      }
      SizeOnLess(dir, names - {n}, dir', names' - {n});
      assert n !in names' ==> names' - {n} == names';
    }
  }

  ghost function CountedNames(s: State): set<string> {
    set n | n in s.dir && s.dir[n].id in s.counted
  }

  /** The block size of the counted files that are on disk. */
  ghost function CountedSize(s: State): nat {
    SizeOn(s.dir, CountedNames(s))
  }

  ghost predicate DistinctIds(s: State) {
    forall n, n' :: n in s.dir && n' in s.dir && n != n' ==> s.dir[n].id != s.dir[n'].id
  }

  /** The counter never undercounts; in particular it is not negative. */
  ghost predicate Sound(s: State) {
    DistinctIds(s) && CountedSize(s) <= s.spoolSize
  }

  /** Nothing new is counted, and files only go. */
  lemma FewerFiles(s: State, s': State)
    requires DistinctIds(s) && s'.counted <= s.counted
    requires forall n :: n in s'.dir ==> n in s.dir && s'.dir[n] == s.dir[n]
    ensures DistinctIds(s') && CountedSize(s') <= CountedSize(s)
  {
    SizeOnLess(s.dir, CountedNames(s), s'.dir, CountedNames(s'));
  }

  /** Counting one more file adds at most its size. */
  lemma OneMoreCounted(s: State, name: string, s': State)
    requires DistinctIds(s) && name in s.dir && s'.dir == s.dir && s'.counted == s.counted + {s.dir[name].id}
    ensures DistinctIds(s') && CountedSize(s') <= CountedSize(s) + Size(s.dir[name])
  {
    var names, names' := CountedNames(s), CountedNames(s');
    assert names' - {name} <= names;
    SizeOnSplit(s'.dir, names', name);
    SizeOnLess(s.dir, names, s'.dir, names' - {name});
  }

  /** Removing a counted file subtracts its size. */
  lemma OneCountedLess(s: State, name: string, s': State)
    requires DistinctIds(s) && name in s.dir && s.dir[name].id in s.counted
    requires s'.dir == s.dir - {name} && s'.counted == s.counted
    ensures DistinctIds(s') && CountedSize(s') + Size(s.dir[name]) <= CountedSize(s)
  {
    var names, names' := CountedNames(s), CountedNames(s');
    assert names' <= names - {name};
    SizeOnSplit(s.dir, names, name);
    SizeOnLess(s.dir, names - {name}, s'.dir, names');
  }

  /** What a staged step does to the counter: either the file stays and is counted, or it goes and nothing is added. */
  lemma StageCounts(c: Config, s: State, name: string, now: int, ok: bool)
    requires c.Valid()
    ensures var s' := StagedStep(c, s, name, now, ok);
      || (s'.dir == s.dir - {name} && s'.spoolSize == s.spoolSize &&
          (s'.counted == s.counted || (name in s.dir && s'.counted == s.counted + {s.dir[name].id})))
      || (name in s.dir && s'.dir == s.dir && s'.spoolSize == s.spoolSize + Size(s.dir[name]) &&
          s'.counted == s.counted + {s.dir[name].id})
  {
    hide ReadStaged, MaySend, ChargedIfOn, Limiting;
  }

  lemma StageKeepsCounter(c: Config, s: State, name: string, now: int, ok: bool)
    requires c.Valid() && Sound(s)
    ensures Sound(StagedStep(c, s, name, now, ok))
  {
    hide StagedStep;
    StageCounts(c, s, name, now, ok);
    var s' := StagedStep(c, s, name, now, ok);
    if s'.dir == s.dir - {name} && s'.spoolSize == s.spoolSize {
      assert CountedNames(s') <= CountedNames(s);
      SizeOnLess(s.dir, CountedNames(s), s'.dir, CountedNames(s'));
    } else {
      OneMoreCounted(s, name, s');
    }
  }

  /** A record that the quota lets in leaves the counted files below the quota. */
  lemma QuotaBoundsSpool(c: Config, s: State, name: string, now: int, ok: bool)
    requires c.Valid() && Sound(s) && c.maxSpoolSize != -1
    requires name in s.dir && Deliverable(c, s.dir[name], now) && c.delivery && InsideDirectSpoolWindow(s, now)
    requires !ProcessStaged(c, s, name, now, ok).remove
    ensures CountedSize(StagedStep(c, s, name, now, ok)) < c.maxSpoolSize * 1024
  {
    StageKeepsCounter(c, s, name, now, ok);
    hide CountedSize, ReadStaged;
  }

  // ---- Spool passes ----

  /** The file will be counted as sent by a spool pass. */
  predicate CountsAsSent(c: Config, s: State, sent: nat, name: string, now: int, ok: bool) {
    && name in s.dir
    && s.dir[name].regular && !Expired(c, s.dir[name], now) && s.dir[name].owned
    && sent <= SPOOL_MAX_SEND_RECORDS
    && (ReadSpooled(s.dir[name].contents).None? || ok)
  }

  /** It is a readable file that the counter knows of. */
  predicate Known(s: State, name: string) {
    name in s.dir && s.dir[name].id in s.counted && ReadSpooled(s.dir[name].contents).Some?
  }

  lemma SpoolCounts(c: Config, s: State, sent: nat, name: string, now: int, ok: bool, measured: int)
    requires c.Valid()
    ensures var s' := SpoolStep(c, Pass(s, 0, sent), name, now, ok, measured).state;
      && s'.counted == s.counted
      && if CountsAsSent(c, s, sent, name, now, ok) then
           && s'.spoolSize == Deducted(s.spoolSize, s.dir[name], measured)
           && s'.dir == (if ReadSpooled(s.dir[name].contents).None? then s.dir else s.dir - {name})
         else
           && s'.spoolSize == s.spoolSize
           && (s'.dir == s.dir || s'.dir == s.dir - {name})
  {
  }

  /**
   A spool pass keeps the counter sound exactly when it counts no file as sent that is unreadable
   or was never counted, or the counter has enough to spare (or nothing left to deduct from).
   */
  lemma SpoolKeepsCounterIff(c: Config, s: State, sent: nat, name: string, now: int, ok: bool, measured: int)
    requires c.Valid() && Sound(s)
    ensures Sound(SpoolStep(c, Pass(s, 0, sent), name, now, ok, measured).state)
      <==> (CountsAsSent(c, s, sent, name, now, ok) && !Known(s, name) ==>
              CountedSize(s) <= Deducted(s.spoolSize, s.dir[name], measured))
  {
    hide SpoolStep, ReadSpooled;
    SpoolCounts(c, s, sent, name, now, ok, measured);
    var s' := SpoolStep(c, Pass(s, 0, sent), name, now, ok, measured).state;
    if !CountsAsSent(c, s, sent, name, now, ok) {
      FewerFiles(s, s');
    } else if Known(s, name) {
      OneCountedLess(s, name, s');
    } else {
      FewerFiles(s, s');
      SameCounted(s, name, s');
    }
  }

  /** An unreadable file that stays, or an uncounted one that goes, leaves the counted files as they are. */
  lemma SameCounted(s: State, name: string, s': State)
    requires s'.counted == s.counted
    requires s'.dir == s.dir || (s'.dir == s.dir - {name} && name in s.dir && s.dir[name].id !in s.counted)
    ensures CountedSize(s') == CountedSize(s)
  {
    assert CountedNames(s') == CountedNames(s);
    SizeOnLess(s.dir, CountedNames(s), s'.dir, CountedNames(s'));
    SizeOnLess(s'.dir, CountedNames(s'), s.dir, CountedNames(s));
  }

  /** With an exact counter, one unreadable file in a spool pass is enough to make it undercount. */
  lemma UnreadableFileUndercounts(c: Config, s: State, sent: nat, name: string, now: int, ok: bool, measured: int)
    requires c.Valid() && Sound(s) && s.spoolSize == CountedSize(s)
    requires CountsAsSent(c, s, sent, name, now, ok) && ReadSpooled(s.dir[name].contents).None?
    requires 0 < Size(s.dir[name]) <= s.spoolSize
    ensures !Sound(SpoolStep(c, Pass(s, 0, sent), name, now, ok, measured).state)
  {
  }

  // ---- Runs ----

  /** Spool passes count as sent only known files, and files that arrive have ids of their own. */
  ghost predicate CleanRun(c: Config, s: State, actions: seq<Action>)
    requires c.Valid()
    decreases |actions|
  {
    actions != [] ==> CleanAction(c, s, actions[0]) && CleanRun(c, Act(c, s, actions[0]), actions[1..])
  }

  ghost predicate CleanAction(c: Config, s: State, a: Action) {
    && (a.Spool? && CountsAsSent(c, s, a.sent, a.name, a.now, a.ok) ==> Known(s, a.name))
    && (a.Arrive? ==> a.arrival.file.id !in s.counted && forall n :: n in s.dir ==> s.dir[n].id != a.arrival.file.id)
  }

  lemma ArriveKeepsCounter(s: State, name: string, file: File)
    requires Sound(s) && name !in s.dir && file.id !in s.counted && forall n :: n in s.dir ==> s.dir[n].id != file.id
    ensures Sound(s.(dir := s.dir[name := file]))
  {
    var s' := s.(dir := s.dir[name := file]);
    assert CountedNames(s') == CountedNames(s);
    SizeOnLess(s.dir, CountedNames(s), s'.dir, CountedNames(s'));
  }

  /** On every clean run the counter stays at least what the counted files take, and so never goes negative. */
  lemma {:induction false} RunKeepsCounter(c: Config, s: State, actions: seq<Action>)
    requires c.Valid() && Sound(s) && CleanRun(c, s, actions)
    ensures Sound(Acts(c, s, actions))
    decreases |actions|
  {
    hide StagedStep, SpoolStep, Received, CountsAsSent, Known, CountedSize;
    if actions == [] {
    } else {
      var a := actions[0];
      match a {
        case Stage(name, now, ok) => StageKeepsCounter(c, s, name, now, ok);
        case Spool(name, now, ok, measured, sent) => SpoolKeepsCounterIff(c, s, sent, name, now, ok, measured);
        case Reset => FewerFiles(s, Act(c, s, a));
        case Arrive(arrival) =>
          ReceivedOne(s, arrival);
          if arrival.name !in s.dir {
            ArriveKeepsCounter(s, arrival.name, arrival.file);
          }
      }
      RunKeepsCounter(c, Act(c, s, a), actions[1..]);
    }
  }

  /** This holds of every run of the main loop. */
  lemma DaemonKeepsCounter(c: Config, l: Loop, polls: seq<Poll>)
    requires c.Valid() && Sound(l.state) && CleanRun(c, l.state, RunActions(c, l, polls))
    ensures Sound(Run(c, l, polls).state)
  {
    hide Run, RunActions, Acts, Sound, CleanRun;
    RunIsActions(c, l, polls);
    RunKeepsCounter(c, l.state, RunActions(c, l, polls));
  }

  /** The counter starts as the size of the whole directory. */
  lemma SoundAtStart(s: State)
    requires DistinctIds(s) && s.spoolSize == SizeOn(s.dir, s.dir.Keys)
    ensures Sound(s)
  {
    SizeOnLess(s.dir, s.dir.Keys, s.dir, CountedNames(s));
  }
}
