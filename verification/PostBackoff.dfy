/** Retries after a failed start, and the pause after a failed delivery. */
module PostBackoff {
  import opened RecordFile
  import opened PostDaemon
  import opened PostRuns

  // ---- Retries ----

  predicate RetryInRange(l: Loop) {
    0 <= l.retry < MAX_RETRY_ATTEMPTS
  }

  function Timeouts(polls: seq<Poll>): nat {
    if polls == [] then 0 else (if polls[0].Timeout? then 1 else 0) + Timeouts(polls[1..])
  }

  /** A turn keeps the counter in range, never takes it up from 0, and moves it only on a timeout. */
  lemma RetryTurn(c: Config, l: Loop, poll: Poll)
    requires c.Valid() && RetryInRange(l)
    ensures RetryInRange(Turn(c, l, poll))
    ensures l.retry == 0 ==> Turn(c, l, poll).retry == 0
    ensures Turn(c, l, poll).retry == 0 || Turn(c, l, poll).retry == l.retry ||
      (poll.Timeout? && Turn(c, l, poll).retry == l.retry + 1)
    ensures poll.Timeout? && Turn(c, l, poll).running && Turn(c, l, poll).retry != 0 ==>
      Turn(c, l, poll).retry == l.retry + 1
  {
  }

  /**
   Over every run the counter stays in 0..7 at the loop head; once 0 it stays 0; and it is 0 after as
   many timeouts as it takes from its value to 8, which is seven from the start.
   */
  lemma {:induction false} RetriesEnd(c: Config, l: Loop, polls: seq<Poll>)
    requires c.Valid() && RetryInRange(l)
    ensures var l' := Run(c, l, polls);
      && RetryInRange(l')
      && (l.retry == 0 ==> l'.retry == 0)
      && (l'.running && l'.retry != 0 ==> l'.retry == l.retry + Timeouts(polls))
      && (l'.running && MAX_RETRY_ATTEMPTS <= l.retry + Timeouts(polls) ==> l'.retry == 0)
    decreases |polls|
  {
    hide Turn;
    if polls != [] && l.running {
      RetryTurn(c, l, polls[0]);
      RetriesEnd(c, Turn(c, l, polls[0]), polls[1..]);
      MovesOnlyOnTimeout(c, l, polls[0]);
    }
  }

  lemma MovesOnlyOnTimeout(c: Config, l: Loop, poll: Poll)
    requires c.Valid()
    ensures !poll.Timeout? ==> Turn(c, l, poll).retry == l.retry
  {
  }

  /** While retrying, the loop waits 1, 4, ... 49 seconds. */
  lemma DelaysAreSquares(c: Config, s: State, now: int, polls: seq<Poll>)
    requires c.Valid()
    ensures var l := Run(c, Started(s, now), polls);
      l.running && l.retry > 0 ==>
        Delay(c, l) == (1 + Timeouts(polls)) * (1 + Timeouts(polls)) && 1 <= Delay(c, l) <= 49
  {
    var l := Run(c, Started(s, now), polls);
    RetriesEnd(c, Started(s, now), polls);
    if l.running && l.retry > 0 {
      SmallSquare(l.retry);
    }
  }

  lemma SmallSquare(k: int)
    requires 1 <= k <= 7
    ensures 1 <= k * k <= 49
  {
  }

  // ---- The pause after a failure ----

  /** A delivery that failed or was held back. */
  predicate Failed(e: Event) {
    e.Limited? || (e.staged && !e.ok)
  }

  predicate IsStagedPost(e: Event) {
    e.Posted? && e.staged
  }

  /** From entry `from` on, no staged post follows a failed delivery within the bypass time. */
  ghost predicate HoldsOff(log: seq<Event>, from: nat) {
    forall i, j :: from <= i < j < |log| && Failed(log[i]) && IsStagedPost(log[j]) ==>
      log[i].now + NETWORK_BYPASS_DURATION <= log[j].now
  }

  /** The bypass time stamp covers every failure since `from`, and no entry is from the future. */
  ghost predicate Covered(s: State, from: nat, now: int) {
    && from <= |s.log|
    && HoldsOff(s.log, from)
    && (forall i :: from <= i < |s.log| ==> s.log[i].now <= now)
    && (forall i :: from <= i < |s.log| && Failed(s.log[i]) ==> s.log[i].now <= s.bypassTs)
  }

  lemma CoveredAfter(s: State, e: Event, s': State, from: nat, now: int)
    requires Covered(s, from, now) && now <= e.now
    requires s'.log == s.log + [e]
    requires IsStagedPost(e) ==> s.bypassTs + NETWORK_BYPASS_DURATION <= e.now
    requires if Failed(e) then s'.bypassTs == e.now else s'.bypassTs == s.bypassTs
    ensures Covered(s', from, e.now)
  {
  }

  lemma CoveredIdle(s: State, s': State, from: nat, now: int, later: int)
    requires Covered(s, from, now) && now <= later
    requires s'.log == s.log && s'.bypassTs == s.bypassTs
    ensures Covered(s', from, later)
  {
  }

  /** A staged step logs at most one event; it posts only outside the window, and a failure opens the window. */
  lemma StageLogs(c: Config, s: State, name: string, now: int, ok: bool)
    requires c.Valid() && c.spool
    ensures var s' := StagedStep(c, s, name, now, ok);
      || (s'.log == s.log && s'.bypassTs == s.bypassTs)
      || (exists e :: s'.log == s.log + [e] && e.now == now
            && s.bypassTs + NETWORK_BYPASS_DURATION <= now
            && (if Failed(e) then s'.bypassTs == now else s'.bypassTs == s.bypassTs))
  {
    hide ReadStaged, MaySend, ChargedIfOn, Limiting;
    var s' := StagedStep(c, s, name, now, ok);
    if s'.log != s.log {
      var e := s'.log[|s.log|];
      assert s'.log == s.log + [e];
    }
  }

  lemma SpoolLogs(c: Config, s: State, sent: nat, name: string, now: int, ok: bool, measured: int)
    requires c.Valid()
    ensures var s' := SpoolStep(c, Pass(s, 0, sent), name, now, ok, measured).state;
      && s'.bypassTs == s.bypassTs
      && (s'.log == s.log || exists e :: s'.log == s.log + [e] && e.now == now && !IsStagedPost(e) && !Failed(e))
  {
    hide ReadSpooled, Deducted;
    var s' := SpoolStep(c, Pass(s, 0, sent), name, now, ok, measured).state;
    if s'.log != s.log {
      assert s'.log == s.log + [Posted(false, s.dir[name].id, now, ok)];
    }
  }

  lemma ActCovered(c: Config, s: State, a: Action, from: nat, now: int)
    requires c.Valid() && c.spool && Covered(s, from, now) && !a.Reset?
    requires a.Stage? || a.Spool? ==> now <= a.now
    ensures Covered(Act(c, s, a), from, TimeAfter(a, now))
  {
    hide StagedStep, SpoolStep, Covered;
    var s' := Act(c, s, a);
    match a
    case Stage(name, t, ok) =>
      StageLogs(c, s, name, t, ok);
      if s'.log == s.log {
        CoveredIdle(s, s', from, now, t);
      } else {
        var e :| s'.log == s.log + [e] && e.now == t
          && s.bypassTs + NETWORK_BYPASS_DURATION <= t
          && (if Failed(e) then s'.bypassTs == t else s'.bypassTs == s.bypassTs);
        CoveredAfter(s, e, s', from, now);
      }
    case Spool(name, t, ok, measured, sent) =>
      SpoolLogs(c, s, sent, name, t, ok, measured);
      if s'.log == s.log {
        CoveredIdle(s, s', from, now, t);
      } else {
        var e :| s'.log == s.log + [e] && e.now == t && !IsStagedPost(e) && !Failed(e);
        CoveredAfter(s, e, s', from, now);
      }
    case Arrive(_) => CoveredIdle(s, s', from, now, now);
  }

  ghost predicate NoReset(actions: seq<Action>) {
    forall i :: 0 <= i < |actions| ==> !actions[i].Reset?
  }

  /** On every run without a reset, staged posts stay away for the bypass time after each failure. */
  lemma {:induction false} RunHoldsOff(c: Config, s: State, actions: seq<Action>, from: nat, now: int)
    requires c.Valid() && c.spool && Covered(s, from, now) && NoReset(actions) && Timely(actions, now)
    ensures HoldsOff(Acts(c, s, actions).log, from)
    decreases |actions|
  {
    hide Act, HoldsOff;
    if actions == [] {
    } else {
      ActCovered(c, s, actions[0], from, now);
      RunHoldsOff(c, Act(c, s, actions[0]), actions[1..], from, TimeAfter(actions[0], now));
    }
  }

  lemma {:induction false} SpoolHasNoReset(c: Config, p: Pass, listing: seq<Input>)
    requires c.Valid()
    ensures NoReset(SpoolActions(c, p, listing))
    decreases |listing|
  {
    hide SpoolInput;
    if listing == [] {
    } else {
      SpoolHasNoReset(c, SpoolInput(c, p, listing[0]), listing[1..]);
    }
  }

  lemma {:induction false} StageHasNoReset(inputs: seq<Input>)
    ensures NoReset(StageActions(inputs))
    decreases |inputs|
  {
    if inputs == [] {
    } else {
      StageHasNoReset(inputs[1..]);
    }
  }

  /** A reset comes first in a turn, and only while retrying. */
  lemma ResetComesFirst(c: Config, l: Loop, poll: Poll)
    requires c.Valid()
    ensures var x := if l.retry > 0 then [Reset] else [];
      x <= TurnActions(c, l, poll) && NoReset(TurnActions(c, l, poll)[|x|..])
  {
    hide SpoolActions, StageActions, AtHead, AfterScan;
    match poll
    case Signal(_, _) =>
    case Events(_, inputs, _) =>
      StageHasNoReset(inputs);
    case Timeout(_, now, scan, spool, _) =>
      StageHasNoReset(scan);
      SpoolHasNoReset(c, Pass(AfterScan(c, AtHead(l, poll.arrivals), scan).state, 0, 0), spool);
  }

  lemma {:induction false} RunHasNoReset(c: Config, l: Loop, polls: seq<Poll>)
    requires c.Valid() && l.retry == 0
    ensures NoReset(RunActions(c, l, polls))
    decreases |polls|
  {
    hide Turn, TurnActions;
    if polls != [] && l.running {
      ResetComesFirst(c, l, polls[0]);
      RetryTurn(c, l, polls[0]);
      RunHasNoReset(c, Turn(c, l, polls[0]), polls[1..]);
    }
  }

  /** Retrying is over, or ends with the first turn. */
  predicate RetryIsOver(c: Config, l: Loop, polls: seq<Poll>)
    requires c.Valid()
  {
    l.retry == 0 || (polls != [] && Turn(c, l, polls[0]).retry == 0)
  }

  lemma OneResetAtMost(c: Config, l: Loop, polls: seq<Poll>)
    requires c.Valid() && 0 <= l.retry && RetryIsOver(c, l, polls)
    ensures var actions := RunActions(c, l, polls);
      NoReset(actions) || (actions != [] && actions[0] == Reset && NoReset(actions[1..]))
  {
    hide Turn, TurnActions;
    if l.retry == 0 {
      RunHasNoReset(c, l, polls);
    } else if l.running {
      var x, y := TurnActions(c, l, polls[0]), RunActions(c, Turn(c, l, polls[0]), polls[1..]);
      ResetComesFirst(c, l, polls[0]);
      RunHasNoReset(c, Turn(c, l, polls[0]), polls[1..]);
      assert (x + y)[1..] == x[1..] + y;
    }
  }

  /**
   Once retrying is over, and already in the turn with which it ends: a delivery that fails or is held back is
   followed by no staged post for 300 seconds.
   */
  lemma DaemonHoldsOff(c: Config, l: Loop, polls: seq<Poll>, now: int)
    requires c.Valid() && c.spool && 0 <= l.retry && RetryIsOver(c, l, polls) && Timely(RunActions(c, l, polls), now)
    ensures HoldsOff(Run(c, l, polls).state.log, |l.state.log|)
  {
    hide RunActions, Run, HoldsOff, RetryIsOver;
    var actions, from := RunActions(c, l, polls), |l.state.log|;
    RunIsActions(c, l, polls);
    OneResetAtMost(c, l, polls);
    NothingYet(l.state, now);
    NothingYet(l.state.(bypassTs := 0), now);
    if NoReset(actions) {
      RunHoldsOff(c, l.state, actions, from, now);
    } else {
      RunHoldsOff(c, l.state.(bypassTs := 0), actions[1..], from, now);
    }
  }

  lemma NothingYet(s: State, now: int)
    ensures Covered(s, |s.log|, now)
  {
  }
}
