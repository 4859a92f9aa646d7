/**
 Runs of the post daemon, taken apart into single actions. What is proved of every sequence
 of actions holds of every run of the main loop, because a run is such a sequence.
 */
module PostRuns {
  import opened RecordFile
  import opened PostDaemon

  datatype Action =
    | Stage(name: string, now: int, ok: bool)
    | Spool(name: string, now: int, ok: bool, measured: int, sent: nat)
    | Reset
    | Arrive(arrival: Arrival)

  function Act(c: Config, s: State, a: Action): State
    requires c.Valid()
  {
    match a
    case Stage(name, now, ok) => StagedStep(c, s, name, now, ok)
    case Spool(name, now, ok, measured, sent) => SpoolStep(c, Pass(s, 0, sent), name, now, ok, measured).state
    case Reset => s.(bypassTs := 0)
    case Arrive(file) => Received(s, [file])
  }

  function Acts(c: Config, s: State, actions: seq<Action>): State
    requires c.Valid()
    decreases |actions|
  {
    if actions == [] then s else Acts(c, Act(c, s, actions[0]), actions[1..])
  }

  lemma {:induction false} ActsAppend(c: Config, s: State, x: seq<Action>, y: seq<Action>)
    requires c.Valid()
    ensures Acts(c, s, x + y) == Acts(c, Acts(c, s, x), y)
    decreases |x|
  {
    if x == [] {
      assert x + y == y;
    } else {
      assert (x + y)[1..] == x[1..] + y;
      ActsAppend(c, Act(c, s, x[0]), x[1..], y);
    }
  }

  /** Clock readings never go backwards. */
  ghost predicate Timely(actions: seq<Action>, now: int)
    decreases |actions|
  {
    actions != [] ==>
      if actions[0].Stage? || actions[0].Spool? then now <= actions[0].now && Timely(actions[1..], actions[0].now)
      else Timely(actions[1..], now)
  }

  function TimeAfter(a: Action, now: int): int {
    if a.Stage? || a.Spool? then a.now else now
  }

  // ---- A run of the loop as a sequence of actions ----

  function ArriveActions(arrivals: seq<Arrival>): seq<Action> {
    seq(|arrivals|, i requires 0 <= i < |arrivals| => Arrive(arrivals[i]))
  }

  function StageActions(inputs: seq<Input>): seq<Action>
    decreases |inputs|
  {
    if inputs == [] then []
    else
      var i := inputs[0];
      ArriveActions(i.arrivals) + [Stage(i.name, i.now, i.ok)] + StageActions(inputs[1..])
  }

  function SpoolActions(c: Config, p: Pass, listing: seq<Input>): seq<Action>
    requires c.Valid()
    decreases |listing|
  {
    if listing == [] then []
    else
      var i := listing[0];
      var p' := SpoolInput(c, p, i);
      ArriveActions(i.arrivals) + [Spool(i.name, i.now, i.ok, i.measured, p.sent)] +
      if p'.sent == 0 || p'.processed == SPOOL_MAX_PROCESS_RECORDS then [] else SpoolActions(c, p', listing[1..])
  }

  function HeadActions(l: Loop, arrivals: seq<Arrival>): seq<Action> {
    (if l.retry > 0 then [Reset] else []) + ArriveActions(arrivals)
  }

  function TurnActions(c: Config, l: Loop, poll: Poll): seq<Action>
    requires c.Valid()
  {
    var h := AtHead(l, poll.arrivals);
    HeadActions(l, poll.arrivals) +
    match poll
    case Signal(_, _) => []
    case Events(_, inputs, _) => StageActions(inputs)
    case Timeout(_, now, scan, spool, _) =>
      if c.recycling && now - h.lastReceived >= TM_DAEMON_EXIT_TIME then []
      else
        var h' := AfterScan(c, h, scan);
        (if h.retry > 0 then StageActions(scan) else []) +
        if now - h'.lastSpoolRun >= c.spoolProcessTime then SpoolActions(c, Pass(h'.state, 0, 0), spool) else []
  }

  function RunActions(c: Config, l: Loop, polls: seq<Poll>): seq<Action>
    requires c.Valid()
    decreases |polls|
  {
    if polls == [] || !l.running then []
    else TurnActions(c, l, polls[0]) + RunActions(c, Turn(c, l, polls[0]), polls[1..])
  }

  lemma ActsOne(c: Config, s: State, a: Action)
    requires c.Valid()
    ensures Acts(c, s, [a]) == Act(c, s, a)
  {
    hide Act;
    assert [a][1..] == [];
  }

  lemma ReceivedOne(s: State, a: Arrival)
    ensures Received(s, [a]) == s.(dir := if a.name in s.dir then s.dir else s.dir[a.name := a.file])
  {
    var dir := if a.name in s.dir then s.dir else s.dir[a.name := a.file];
    assert Arrived(s.dir, [a]) == Arrived(dir, [a][1..]);
    assert [a][1..] == [];
    assert Arrived(dir, []) == dir;
  }

  lemma {:induction false} ReceivedIsActions(c: Config, s: State, arrivals: seq<Arrival>)
    requires c.Valid()
    ensures Received(s, arrivals) == Acts(c, s, ArriveActions(arrivals))
    decreases |arrivals|
  {
    if arrivals == [] {
      assert s.(dir := s.dir) == s;
    } else {
      assert ArriveActions(arrivals)[1..] == ArriveActions(arrivals[1..]);
      var a := arrivals[0];
      ReceivedOne(s, a);
      ReceivedIsActions(c, Received(s, [a]), arrivals[1..]);
    }
  }

  /** Files arrive, and then one action is taken. */
  lemma ArriveAndAct(c: Config, s: State, arrivals: seq<Arrival>, a: Action)
    requires c.Valid()
    ensures Acts(c, s, ArriveActions(arrivals) + [a]) == Act(c, Received(s, arrivals), a)
  {
    hide Act, Acts, Received, ArriveActions;
    ReceivedIsActions(c, s, arrivals);
    ActsAppend(c, s, ArriveActions(arrivals), [a]);
    ActsOne(c, Received(s, arrivals), a);
  }

  lemma {:induction false} StagedStepsAreActions(c: Config, s: State, inputs: seq<Input>)
    requires c.Valid()
    ensures StagedSteps(c, s, inputs) == Acts(c, s, StageActions(inputs))
    decreases |inputs|
  {
    hide Received, StagedStep, ArriveActions;
    if inputs == [] {
    } else {
      var i := inputs[0];
      var x := ArriveActions(i.arrivals) + [Stage(i.name, i.now, i.ok)];
      ArriveAndAct(c, s, i.arrivals, Stage(i.name, i.now, i.ok));
      ActsAppend(c, s, x, StageActions(inputs[1..]));
      StagedStepsAreActions(c, StagedInput(c, s, i), inputs[1..]);
    }
  }

  /** Only the number of records sent so far, not of those processed, bears on the state. */
  lemma ProcessedIsIrrelevant(c: Config, p: Pass, i: Input)
    requires c.Valid()
    ensures SpoolInput(c, p, i).state ==
      Act(c, Received(p.state, i.arrivals), Spool(i.name, i.now, i.ok, i.measured, p.sent))
  {
    hide Received, ReadSpooled;
  }

  lemma {:induction false} SpoolPassIsActions(c: Config, p: Pass, listing: seq<Input>)
    requires c.Valid()
    ensures SpoolPass(c, p, listing).state == Acts(c, p.state, SpoolActions(c, p, listing))
    decreases |listing|
  {
    hide Received, SpoolInput, Act, ArriveActions;
    if listing == [] {
    } else {
      var i := listing[0];
      var p' := SpoolInput(c, p, i);
      var a := Spool(i.name, i.now, i.ok, i.measured, p.sent);
      ProcessedIsIrrelevant(c, p, i);
      ArriveAndAct(c, p.state, i.arrivals, a);
      if p'.sent != 0 && p'.processed != SPOOL_MAX_PROCESS_RECORDS {
        ActsAppend(c, p.state, ArriveActions(i.arrivals) + [a], SpoolActions(c, p', listing[1..]));
        SpoolPassIsActions(c, p', listing[1..]);
      } else {
        assert ArriveActions(i.arrivals) + [a] + [] == ArriveActions(i.arrivals) + [a];
      }
    }
  }

  lemma HeadIsActions(c: Config, l: Loop, arrivals: seq<Arrival>)
    requires c.Valid()
    ensures AtHead(l, arrivals).state == Acts(c, l.state, HeadActions(l, arrivals))
  {
    hide Received, ArriveActions;
    var x := if l.retry > 0 then [Reset] else [];
    var s := if l.retry > 0 then l.state.(bypassTs := 0) else l.state;
    ActsOne(c, l.state, Reset);
    assert s == Acts(c, l.state, x);
    ReceivedIsActions(c, s, arrivals);
    ActsAppend(c, l.state, x, ArriveActions(arrivals));
  }

  lemma NoActions(c: Config, s: State)
    requires c.Valid()
    ensures Acts(c, s, []) == s
  {
  }

  lemma TurnIsActions(c: Config, l: Loop, poll: Poll)
    requires c.Valid()
    ensures Turn(c, l, poll).state == Acts(c, l.state, TurnActions(c, l, poll))
  {
    hide StagedSteps, SpoolPass, StageActions, SpoolActions, HeadActions, Acts, Left;
    var h := AtHead(l, poll.arrivals);
    var head := HeadActions(l, poll.arrivals);
    HeadIsActions(c, l, poll.arrivals);
    match poll
    case Signal(_, _) =>
      assert TurnActions(c, l, poll) == head;
    case Events(_, inputs, _) =>
      StagedStepsAreActions(c, h.state, inputs);
      ActsAppend(c, l.state, head, StageActions(inputs));
    case Timeout(_, now, scan, spool, _) =>
      if c.recycling && now - h.lastReceived >= TM_DAEMON_EXIT_TIME {
        assert TurnActions(c, l, poll) == head;
      } else {
        var h' := AfterScan(c, h, scan);
        var x := if h.retry > 0 then StageActions(scan) else [];
        var y := if now - h'.lastSpoolRun >= c.spoolProcessTime
          then SpoolActions(c, Pass(h'.state, 0, 0), spool) else [];
        StagedStepsAreActions(c, h.state, scan);
        NoActions(c, h.state);
        NoActions(c, h'.state);
        assert h'.state == Acts(c, h.state, x);
        SpoolPassIsActions(c, Pass(h'.state, 0, 0), spool);
        ActsAppend(c, h.state, x, y);
        ActsAppend(c, l.state, head, x + y);
      }
  }

  /** Every run of the main loop, with the files that arrive during it, is the sequence of its actions. */
  lemma {:induction false} RunIsActions(c: Config, l: Loop, polls: seq<Poll>)
    requires c.Valid()
    ensures Run(c, l, polls).state == Acts(c, l.state, RunActions(c, l, polls))
    decreases |polls|
  {
    if polls != [] && l.running {
      TurnIsActions(c, l, polls[0]);
      RunIsActions(c, Turn(c, l, polls[0]), polls[1..]);
      ActsAppend(c, l.state, TurnActions(c, l, polls[0]), RunActions(c, Turn(c, l, polls[0]), polls[1..]));
    }
  }

  function ProgramActions(c: Config, s: State, scan: seq<Input>, start: int, polls: seq<Poll>): seq<Action>
    requires c.Valid()
  {
    StageActions(scan) + RunActions(c, Started(StagedSteps(c, s, scan), start), polls)
  }

  /** So is every run of the whole program. */
  lemma ProgramIsActions(c: Config, s: State, scan: seq<Input>, start: int, polls: seq<Poll>)
    requires c.Valid()
    ensures Program(c, s, scan, start, polls).state == Acts(c, s, ProgramActions(c, s, scan, start, polls))
  {
    hide StagedSteps, StageActions, Run, RunActions, Acts;
    var s' := StagedSteps(c, s, scan);
    StagedStepsAreActions(c, s, scan);
    RunIsActions(c, Started(s', start), polls);
    ActsAppend(c, s, StageActions(scan), RunActions(c, Started(s', start), polls));
  }
}
