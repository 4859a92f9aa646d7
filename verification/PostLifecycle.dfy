/**
 What every run guarantees for a record: it stays in the spool until a post of it succeeds, and is posted with
 success once.
 */
module PostLifecycle {
  import opened RecordFile
  import opened PostDaemon
  import opened PostRuns

  /** Records are kept rather than dropped: the strategy is "spool", delivery is on and there is no quota. */
  predicate KeepsRecords(c: Config) {
    c.spool && c.delivery && c.maxSpoolSize == -1
  }

  predicate IsAck(e: Event, id: nat) {
    e.Posted? && e.ok && e.id == id
  }

  ghost predicate Acked(log: seq<Event>, id: nat) {
    exists i :: 0 <= i < |log| && IsAck(log[i], id)
  }

  /** The clock readings of a run are at most `end`. */
  ghost predicate Until(actions: seq<Action>, end: int) {
    forall i :: 0 <= i < |actions| && (actions[i].Stage? || actions[i].Spool?) ==> actions[i].now <= end
  }

  /** Each file of s that is deliverable at `end` is still there in s', or has been acknowledged by then. */
  ghost predicate KeptOrAcked(c: Config, s: State, s': State, end: int) {
    forall n :: n in s.dir && Deliverable(c, s.dir[n], end) ==>
      (n in s'.dir && s'.dir[n] == s.dir[n]) || Acked(s'.log, s.dir[n].id)
  }

  lemma AckedLast(log: seq<Event>, e: Event)
    requires e.Posted? && e.ok
    ensures Acked(log + [e], e.id)
  {
    assert IsAck((log + [e])[|log|], e.id);
  }

  lemma AckedLater(log: seq<Event>, log': seq<Event>, id: nat)
    requires log <= log' && Acked(log, id)
    ensures Acked(log', id)
  {
  }

  /** Processing a staged file never touches another one; it removes a deliverable one only after a successful post. */
  lemma StageKeeps(c: Config, s: State, name: string, now: int, ok: bool)
    requires c.Valid() && KeepsRecords(c)
    ensures var s' := StagedStep(c, s, name, now, ok);
      && s.log <= s'.log
      && (forall n :: n in s.dir && n != name ==> n in s'.dir && s'.dir[n] == s.dir[n])
      && (name in s.dir && Deliverable(c, s.dir[name], now) ==>
            (name in s'.dir && s'.dir[name] == s.dir[name]) || Acked(s'.log, s.dir[name].id))
  {
    hide ReadStaged, MaySend, ChargedIfOn, Limiting;
    if name in s.dir {
      AckedLast(s.log, Posted(true, s.dir[name].id, now, true));
    }
  }

  lemma SpoolKeeps(c: Config, s: State, sent: nat, name: string, now: int, ok: bool, measured: int)
    requires c.Valid() && KeepsRecords(c)
    ensures var s' := SpoolStep(c, Pass(s, 0, sent), name, now, ok, measured).state;
      && s.log <= s'.log
      && (forall n :: n in s.dir && n != name ==> n in s'.dir && s'.dir[n] == s.dir[n])
      && (name in s.dir && Deliverable(c, s.dir[name], now) ==>
            (name in s'.dir && s'.dir[name] == s.dir[name]) || Acked(s'.log, s.dir[name].id))
  {
    hide ReadStaged, ReadSpooled, Deducted;
    if name in s.dir {
      ReadersAgree(s.dir[name].contents);
      AckedLast(s.log, Posted(false, s.dir[name].id, now, true));
    }
  }

  lemma ActKeeps(c: Config, s: State, a: Action, end: int)
    requires c.Valid() && KeepsRecords(c) && Until([a], end)
    ensures s.log <= Act(c, s, a).log
    ensures KeptOrAcked(c, s, Act(c, s, a), end)
  {
    hide StagedStep, SpoolStep, ReadStaged, Received;
    assert [a][0] == a;
    match a
    case Stage(name, now, ok) => StageKeeps(c, s, name, now, ok);
    case Spool(name, now, ok, measured, sent) => SpoolKeeps(c, s, sent, name, now, ok, measured);
    case Reset =>
    case Arrive(arrival) => ReceivedOne(s, arrival);
  }

  /** On every run, a record that is deliverable throughout leaves the spool only by being acknowledged. */
  lemma {:induction false} RunKeeps(c: Config, s: State, actions: seq<Action>, end: int)
    requires c.Valid() && KeepsRecords(c) && Until(actions, end)
    ensures s.log <= Acts(c, s, actions).log
    ensures KeptOrAcked(c, s, Acts(c, s, actions), end)
    decreases |actions|
  {
    hide Act, Deliverable, Acked;
    if actions == [] {
    } else {
      var s1, s2 := Act(c, s, actions[0]), Acts(c, s, actions);
      assert Until([actions[0]], end);
      ActKeeps(c, s, actions[0], end);
      RunKeeps(c, s1, actions[1..], end);
      forall n | n in s.dir && Deliverable(c, s.dir[n], end) && Acked(s1.log, s.dir[n].id)
        ensures Acked(s2.log, s.dir[n].id)
      {
        AckedLater(s1.log, s2.log, s.dir[n].id);
      }
    }
  }

  // ---- No file is acknowledged twice ----

  /** Files have their own ids, none of them acknowledged; and no id is acknowledged twice. */
  ghost predicate AckedAtMostOnce(s: State) {
    && (forall n, n' :: n in s.dir && n' in s.dir && n != n' ==> s.dir[n].id != s.dir[n'].id)
    && (forall n :: n in s.dir ==> !Acked(s.log, s.dir[n].id))
    && (forall i, j :: 0 <= i < j < |s.log| && s.log[i].Posted? && s.log[i].ok ==> !IsAck(s.log[j], s.log[i].id))
  }

  ghost predicate IsNew(s: State, id: nat) {
    !Acked(s.log, id) && forall n :: n in s.dir ==> s.dir[n].id != id
  }

  /** Every file that arrives during the run is a new one. */
  ghost predicate ArrivalsAreNew(c: Config, s: State, actions: seq<Action>)
    requires c.Valid()
    decreases |actions|
  {
    actions != [] ==>
      && (actions[0].Arrive? ==> IsNew(s, actions[0].arrival.file.id))
      && ArrivalsAreNew(c, Act(c, s, actions[0]), actions[1..])
  }

  /** An event about a file that is still there; if it acknowledges the file, the file goes. */
  lemma LoggedOnce(s: State, name: string, e: Event, s': State)
    requires AckedAtMostOnce(s) && name in s.dir && e.id == s.dir[name].id
    requires s'.log == s.log + [e]
    requires s'.dir == if e.Posted? && e.ok then s.dir - {name} else s'.dir
    requires s'.dir == s.dir || s'.dir == s.dir - {name}
    ensures AckedAtMostOnce(s')
  {
  }

  /** Removing a file without an event. */
  lemma UnlinkedOnce(s: State, name: string, s': State)
    requires AckedAtMostOnce(s) && s'.log == s.log
    requires s'.dir == s.dir || s'.dir == s.dir - {name}
    ensures AckedAtMostOnce(s')
  {
  }

  lemma StageOnce(c: Config, s: State, name: string, now: int, ok: bool)
    requires c.Valid() && AckedAtMostOnce(s)
    ensures AckedAtMostOnce(StagedStep(c, s, name, now, ok))
  {
    hide ReadStaged, MaySend, ChargedIfOn, Limiting, AckedAtMostOnce;
    var s' := StagedStep(c, s, name, now, ok);
    if s'.log == s.log {
      UnlinkedOnce(s, name, s');
    } else {
      var e := s'.log[|s.log|];
      LoggedOnce(s, name, e, s');
    }
  }

  lemma SpoolOnce(c: Config, s: State, sent: nat, name: string, now: int, ok: bool, measured: int)
    requires c.Valid() && AckedAtMostOnce(s)
    ensures AckedAtMostOnce(SpoolStep(c, Pass(s, 0, sent), name, now, ok, measured).state)
  {
    hide ReadSpooled, Deducted, AckedAtMostOnce;
    var s' := SpoolStep(c, Pass(s, 0, sent), name, now, ok, measured).state;
    if s'.log == s.log {
      UnlinkedOnce(s, name, s');
    } else {
      var e := s'.log[|s.log|];
      LoggedOnce(s, name, e, s');
    }
  }

  lemma ArriveOnce(s: State, name: string, file: File)
    requires AckedAtMostOnce(s) && IsNew(s, file.id) && name !in s.dir
    ensures AckedAtMostOnce(s.(dir := s.dir[name := file]))
  {
  }

  /** On every run, whatever the configuration, no file is acknowledged twice. */
  lemma {:induction false} RunAcksOnce(c: Config, s: State, actions: seq<Action>)
    requires c.Valid() && AckedAtMostOnce(s) && ArrivalsAreNew(c, s, actions)
    ensures AckedAtMostOnce(Acts(c, s, actions))
    decreases |actions|
  {
    hide StagedStep, SpoolStep, Received, AckedAtMostOnce, IsNew;
    if actions == [] {
    } else {
      match actions[0] {
        case Stage(name, now, ok) => StageOnce(c, s, name, now, ok);
        case Spool(name, now, ok, measured, sent) => SpoolOnce(c, s, sent, name, now, ok, measured);
        case Reset => UnlinkedOnce(s, "", Act(c, s, actions[0]));
        case Arrive(arrival) =>
          ReceivedOne(s, arrival);
          if arrival.name !in s.dir {
            ArriveOnce(s, arrival.name, arrival.file);
          }
      }
      RunAcksOnce(c, Act(c, s, actions[0]), actions[1..]);
    }
  }

  lemma {:induction false} Splits(c: Config, s: State, actions: seq<Action>, k: nat)
    requires c.Valid() && k <= |actions|
    ensures Acts(c, s, actions) == Acts(c, Acts(c, s, actions[..k]), actions[k..])
  {
    assert actions == actions[..k] + actions[k..];
    ActsAppend(c, s, actions[..k], actions[k..]);
  }

  /**
   On every run, a record that is in the spool after some of its actions is there at the end, or acknowledged,
   and never both.
   */
  lemma RunKeepsOrAcks(c: Config, s: State, actions: seq<Action>, end: int, k: nat, n: string)
    requires c.Valid() && KeepsRecords(c) && Until(actions, end) && k <= |actions|
    requires AckedAtMostOnce(s) && ArrivalsAreNew(c, s, actions)
    requires var sk := Acts(c, s, actions[..k]); n in sk.dir && Deliverable(c, sk.dir[n], end)
    ensures var file, s' := Acts(c, s, actions[..k]).dir[n], Acts(c, s, actions);
      (n in s'.dir && s'.dir[n] == file) <==> !Acked(s'.log, file.id)
  {
    hide Acts, Deliverable, ArrivalsAreNew;
    Splits(c, s, actions, k);
    RunKeeps(c, Acts(c, s, actions[..k]), actions[k..], end);
    RunAcksOnce(c, s, actions);
  }

  /**
   The main loop, whatever its polls bring: a record that is in the spool at any point of the run, because it
   was there at the start (k is 0) or has arrived since, and that is deliverable to the end, is at the end either
   still in the spool or acknowledged, and never both.
   */
  lemma DaemonKeepsRecords(c: Config, l: Loop, polls: seq<Poll>, end: int, k: nat, n: string)
    requires c.Valid() && KeepsRecords(c) && Until(RunActions(c, l, polls), end) && k <= |RunActions(c, l, polls)|
    requires AckedAtMostOnce(l.state) && ArrivalsAreNew(c, l.state, RunActions(c, l, polls))
    requires var sk := Acts(c, l.state, RunActions(c, l, polls)[..k]); n in sk.dir && Deliverable(c, sk.dir[n], end)
    ensures var file, s' := Acts(c, l.state, RunActions(c, l, polls)[..k]).dir[n], Run(c, l, polls).state;
      (n in s'.dir && s'.dir[n] == file) <==> !Acked(s'.log, file.id)
  {
    hide Run, RunActions, Acts, Deliverable, ArrivalsAreNew, AckedAtMostOnce;
    RunIsActions(c, l, polls);
    RunKeepsOrAcks(c, l.state, RunActions(c, l, polls), end, k, n);
  }

  /** In particular a record that arrives under a free name. */
  lemma ArrivalIsKept(c: Config, l: Loop, polls: seq<Poll>, end: int, k: nat, arrival: Arrival)
    requires c.Valid() && KeepsRecords(c) && Until(RunActions(c, l, polls), end) && k < |RunActions(c, l, polls)|
    requires AckedAtMostOnce(l.state) && ArrivalsAreNew(c, l.state, RunActions(c, l, polls))
    requires RunActions(c, l, polls)[k] == Arrive(arrival) && Deliverable(c, arrival.file, end)
    requires arrival.name !in Acts(c, l.state, RunActions(c, l, polls)[..k]).dir
    ensures var s' := Run(c, l, polls).state;
      (arrival.name in s'.dir && s'.dir[arrival.name] == arrival.file) <==> !Acked(s'.log, arrival.file.id)
  {
    hide Run, RunActions, Acts, Deliverable, ArrivalsAreNew, AckedAtMostOnce, Received;
    var actions := RunActions(c, l, polls);
    var sk := Acts(c, l.state, actions[..k]);
    assert actions[..k + 1] == actions[..k] + [actions[k]];
    ActsAppend(c, l.state, actions[..k], [actions[k]]);
    ActsOne(c, sk, actions[k]);
    ReceivedOne(sk, arrival);
    DaemonKeepsRecords(c, l, polls, end, k + 1, arrival.name);
  }
}
