/** Rate limiting over whole runs of the post daemon. */
module PostLimits {
  import opened Sums
  import opened RateLimiter
  import opened RecordFile
  import opened PostDaemon
  import opened PostRuns

  /** What the log charges a limiter with: each successful staged post, at its minute. */
  function Charges(log: seq<Event>, weight: Word): seq<Charged> {
    if log == [] then []
    else
      var last, before := log[|log| - 1], Charges(log[..|log| - 1], weight);
      if last.Posted? && last.staged && last.ok then before + [Charged(last.now / 60, weight)] else before
  }

  lemma ChargesMore(log: seq<Event>, e: Event, weight: Word)
    ensures Charges(log + [e], weight) ==
      if e.Posted? && e.staged && e.ok then Charges(log, weight) + [Charged(e.now / 60, weight)]
      else Charges(log, weight)
  {
  }

  /** A limiter that is on: its ring is what the log's charges make of it, and each of them was admitted. */
  ghost predicate InForce(ring: Ring, limit: int, window: int, weight: Word, log: seq<Event>, now: int) {
    0 <= limit < TWO64 / 2 && 0 <= window < SLOTS ==>
      && ring == RingOf(window, Charges(log, weight))
      && Admitted(limit, window, Charges(log, weight))
      && forall e :: e in Charges(log, weight) ==> e.minute <= now / 60
  }

  ghost predicate LimitsInForce(c: Config, s: State, now: int) {
    && Limiting(c, s)
    && InForce(s.recordRing, c.recordLimit, c.recordWindow, RECORD_COUNTER, s.log, now)
    && InForce(s.byteRing, c.byteLimit, c.byteWindow, RECORD_SIZE_LEN, s.log, now)
  }

  /** One limiter over one staged delivery that was let through. */
  lemma ChargeInForce(ring: Ring, limit: int, window: int, weight: Word, log: seq<Event>, now: int, e: Event)
    requires InForce(ring, limit, window, weight, log, now)
    requires limit < TWO64 / 2 && 0 <= window < SLOTS && weight < 10
    requires e.Posted? && e.staged && e.ok && now <= e.now
    requires Passes(ring, limit, window, e.now, weight)
    ensures InForce(ChargedIfOn(ring, limit, window, e.now, weight), limit, window, weight, log + [e], e.now)
  {
    ChargesMore(log, e, weight);
    if 0 <= limit {
      CheckByMinuteOfHour(ring, e.now / 60, limit, window, weight);
      ChargeByMinuteOfHour(ring, e.now / 60, window, weight);
      hide Charge, Admits, RingOf;
      AdmittedMore(limit, window, Charges(log, weight), e.now / 60, weight);
    }
  }

  lemma IdleInForce(ring: Ring, limit: int, window: int, weight: Word, log: seq<Event>, now: int, e: Event, later: int)
    requires InForce(ring, limit, window, weight, log, now) && now <= later
    requires !(e.Posted? && e.staged && e.ok)
    ensures InForce(ring, limit, window, weight, log, later)
    ensures InForce(ring, limit, window, weight, log + [e], later)
  {
  }

  lemma DeliverInForce(c: Config, s: State, id: nat, now: int, ok: bool, before: int)
    requires c.Valid() && LimitsInForce(c, s, before) && before <= now
    ensures LimitsInForce(c, Deliver(c, s, id, now, ok).state, now)
  {
    hide InForce, Passes, ChargedIfOn;
    var e := if !MaySend(c, s, now) then Limited(id, now) else Posted(true, id, now, ok);
    if MaySend(c, s, now) && ok {
      ChargeInForce(s.recordRing, c.recordLimit, c.recordWindow, RECORD_COUNTER, s.log, before, e);
      ChargeInForce(s.byteRing, c.byteLimit, c.byteWindow, RECORD_SIZE_LEN, s.log, before, e);
    } else {
      IdleInForce(s.recordRing, c.recordLimit, c.recordWindow, RECORD_COUNTER, s.log, before, e, now);
      IdleInForce(s.byteRing, c.byteLimit, c.byteWindow, RECORD_SIZE_LEN, s.log, before, e, now);
    }
  }

  lemma IdleKeepsLimits(c: Config, s: State, before: int, now: int)
    requires LimitsInForce(c, s, before) && before <= now
    ensures LimitsInForce(c, s, now)
  {
    IdleInForce(s.recordRing, c.recordLimit, c.recordWindow, RECORD_COUNTER, s.log, before, Limited(0, 0), now);
    IdleInForce(s.byteRing, c.byteLimit, c.byteWindow, RECORD_SIZE_LEN, s.log, before, Limited(0, 0), now);
  }

  /** Only these fields bear on the limiters. */
  ghost predicate SameLimits(s: State, s': State) {
    s'.recordRing == s.recordRing && s'.byteRing == s.byteRing && s'.limitEnabled == s.limitEnabled && s'.log == s.log
  }

  /** A staged step delivers the record, or leaves the limiters alone. */
  lemma StageIsDelivery(c: Config, s: State, name: string, now: int, ok: bool) returns (s1: State, id: nat)
    requires c.Valid()
    ensures SameLimits(s, s1)
    ensures SameLimits(s, StagedStep(c, s, name, now, ok)) ||
      SameLimits(Deliver(c, s1, id, now, ok).state, StagedStep(c, s, name, now, ok))
  {
    hide ReadStaged, Deliver;
    s1, id := s, 0;
    if name in s.dir {
      var f := s.dir[name];
      s1, id := s.(spoolSize := s.spoolSize + Size(f), counted := s.counted + {f.id}), f.id;
    }
  }

  lemma StageKeepsLimits(c: Config, s: State, name: string, now: int, ok: bool, before: int)
    requires c.Valid() && LimitsInForce(c, s, before) && before <= now
    ensures LimitsInForce(c, StagedStep(c, s, name, now, ok), now)
  {
    hide InForce, Deliver, StagedStep;
    IdleKeepsLimits(c, s, before, now);
    var s1, id := StageIsDelivery(c, s, name, now, ok);
    DeliverInForce(c, s1, id, now, ok, before);
  }

  lemma SpoolKeepsLimits(c: Config, s: State, sent: nat, name: string, now: int, ok: bool, measured: int, before: int)
    requires c.Valid() && LimitsInForce(c, s, before) && before <= now
    ensures LimitsInForce(c, SpoolStep(c, Pass(s, 0, sent), name, now, ok, measured).state, now)
  {
    hide InForce;
    IdleKeepsLimits(c, s, before, now);
    if name in s.dir {
      var e := Posted(false, s.dir[name].id, now, ok);
      IdleInForce(s.recordRing, c.recordLimit, c.recordWindow, RECORD_COUNTER, s.log, before, e, now);
      IdleInForce(s.byteRing, c.byteLimit, c.byteWindow, RECORD_SIZE_LEN, s.log, before, e, now);
    }
  }

  /** Once limiting is on it stays in force over every run. */
  lemma {:induction false} RunKeepsLimits(c: Config, s: State, actions: seq<Action>, now: int) returns (end: int)
    requires c.Valid() && LimitsInForce(c, s, now) && Timely(actions, now)
    ensures LimitsInForce(c, Acts(c, s, actions), end)
    decreases |actions|
  {
    hide InForce, StagedStep, SpoolStep;
    end := now;
    if actions == [] {
    } else {
      match actions[0] {
        case Stage(name, t, ok) => StageKeepsLimits(c, s, name, t, ok, now);
        case Spool(name, t, ok, measured, sent) => SpoolKeepsLimits(c, s, sent, name, t, ok, measured, now);
        case Reset =>
        case Arrive(_) =>
      }
      end := RunKeepsLimits(c, Act(c, s, actions[0]), actions[1..], TimeAfter(actions[0], now));
    }
  }

  lemma LimitsInForceAtStart(c: Config, s: State, now: int)
    requires c.Valid() && Limiting(c, s)
    requires s.recordRing == EmptyRing() && s.byteRing == EmptyRing() && s.log == []
    ensures LimitsInForce(c, s, now)
  {
  }

  /**
   Whatever `window` consecutive minutes one looks at, the records that deliver_record sent in them weigh at most
   the limit, for either limiter; and the sixty slots together never exceed it either, so the 64-bit sums of the
   check cannot wrap.
   */
  ghost predicate WithinLimits(c: Config, s: State, start: int)
    requires c.Valid()
  {
    && (0 <= c.recordLimit ==>
          && Sum(SentAt(Charges(s.log, RECORD_COUNTER)), start, c.recordWindow) <= c.recordLimit
          && Sum(At(s.recordRing), 0, SLOTS) <= c.recordLimit)
    && (0 <= c.byteLimit ==>
          && Sum(SentAt(Charges(s.log, RECORD_SIZE_LEN)), start, c.byteWindow) <= c.byteLimit
          && Sum(At(s.byteRing), 0, SLOTS) <= c.byteLimit)
  }

  lemma InForceIsWithin(c: Config, s: State, now: int, start: int)
    requires c.Valid() && LimitsInForce(c, s, now)
    ensures WithinLimits(c, s, start)
  {
    hide RingOf, Admitted, Charges, Sum;
    if 0 <= c.recordLimit {
      AdmittedIsSafe(c.recordLimit, c.recordWindow, Charges(s.log, RECORD_COUNTER), now / 60);
    }
    if 0 <= c.byteLimit {
      AdmittedIsSafe(c.byteLimit, c.byteWindow, Charges(s.log, RECORD_SIZE_LEN), now / 60);
    }
  }

  /** Over every run, from any state in which limiting is in force. */
  lemma WindowsWithinLimits(c: Config, s: State, actions: seq<Action>, now: int, start: int)
    requires c.Valid() && LimitsInForce(c, s, now) && Timely(actions, now)
    ensures WithinLimits(c, Acts(c, s, actions), start)
  {
    hide LimitsInForce, WithinLimits, Acts;
    var end := RunKeepsLimits(c, s, actions, now);
    InForceIsWithin(c, Acts(c, s, actions), end, start);
  }

  /** Over every run of the main loop, whatever was sent or held back before it. */
  lemma DaemonWithinLimits(c: Config, l: Loop, polls: seq<Poll>, now: int, start: int)
    requires c.Valid() && LimitsInForce(c, l.state, now) && Timely(RunActions(c, l, polls), now)
    ensures WithinLimits(c, Run(c, l, polls).state, start)
  {
    hide Run, RunActions, LimitsInForce, WithinLimits, Acts;
    RunIsActions(c, l, polls);
    WindowsWithinLimits(c, l.state, RunActions(c, l, polls), now, start);
  }

  /** Over every run of the program, from its start with empty rings through its first scan and its loop. */
  lemma ProgramWithinLimits(c: Config, s: State, scan: seq<Input>, begin: int, polls: seq<Poll>, now: int, start: int)
    requires c.Valid() && Limiting(c, s) && Timely(ProgramActions(c, s, scan, begin, polls), now)
    requires s.recordRing == EmptyRing() && s.byteRing == EmptyRing() && s.log == []
    ensures WithinLimits(c, Program(c, s, scan, begin, polls).state, start)
  {
    hide Program, ProgramActions, LimitsInForce, WithinLimits, Acts;
    LimitsInForceAtStart(c, s, now);
    ProgramIsActions(c, s, scan, begin, polls);
    WindowsWithinLimits(c, s, ProgramActions(c, s, scan, begin, polls), now, start);
  }

  // ---- Exact checks ----

  /**
   The charges of a limiter are close enough to each other, and to the minute of the check, that no stale slot
   is read.
   */
  ghost predicate GapsShortUntil(window: int, log: seq<Event>, weight: Word, minute: int)
    requires 0 <= window
  {
    var h := Charges(log, weight);
    h != [] ==> GapsShort(window, h) && 0 <= minute - h[|h| - 1].minute <= SLOTS - window
  }

  /** What was sent in the window that ends at a minute. */
  ghost function Ideal(window: int, log: seq<Event>, weight: Word, minute: int): int
    requires 0 <= window
  {
    Sum(SentAt(Charges(log, weight)), minute - window + 1, window)
  }

  lemma InForceIsExact(ring: Ring, limit: int, window: int, weight: Word, log: seq<Event>, now: int, minute: int)
    requires InForce(ring, limit, window, weight, log, now) && 0 <= limit < TWO64 / 2 && 0 <= window < SLOTS
    requires GapsShortUntil(window, log, weight, minute)
    ensures Held(ring, minute, window) == Ideal(window, log, weight, minute)
  {
    if Charges(log, weight) == [] {
      ExactInitially(window, minute);
      CountIsExactIff(ring, window, [], minute, minute);
    } else {
      CountIsIdeal(limit, window, Charges(log, weight), minute);
    }
  }

  /** The check lets a record pass exactly when what was sent in the window, and the record, are within the limit. */
  lemma InForceVerdict(ring: Ring, limit: int, window: int, weight: Word, log: seq<Event>, now: int, t: int)
    requires InForce(ring, limit, window, weight, log, now) && 0 <= limit < TWO64 / 2 && 0 <= window < SLOTS
    requires weight < 10 && GapsShortUntil(window, log, weight, t / 60)
    ensures Passes(ring, limit, window, t, weight) <==> Ideal(window, log, weight, t / 60) + weight <= limit
  {
    InForceIsExact(ring, limit, window, weight, log, now, t / 60);
    AdmittedIsSafe(limit, window, Charges(log, weight), now / 60);
    hide Ideal, GapsShortUntil, Charges, Admits, RingOf, Admitted, Held;
    CheckByMinuteOfHour(ring, t / 60, limit, window, weight);
    CheckDoesNotWrap(ring, t / 60, limit, window, weight);
  }

  /**
   Over every run in which the gaps are short, for either limiter: the check counts exactly what was sent in its
   window, and so lets a record pass exactly when it keeps the window within the limit.
   */
  lemma CheckIsExact(c: Config, s: State, actions: seq<Action>, now: int, t: int)
    requires c.Valid() && LimitsInForce(c, s, now) && Timely(actions, now)
    ensures var s' := Acts(c, s, actions);
      && (0 <= c.recordLimit && GapsShortUntil(c.recordWindow, s'.log, RECORD_COUNTER, t / 60) ==>
            var ideal := Ideal(c.recordWindow, s'.log, RECORD_COUNTER, t / 60);
            && Held(s'.recordRing, t / 60, c.recordWindow) == ideal
            && (Passes(s'.recordRing, c.recordLimit, c.recordWindow, t, RECORD_COUNTER) <==>
                  ideal + RECORD_COUNTER <= c.recordLimit))
      && (0 <= c.byteLimit && GapsShortUntil(c.byteWindow, s'.log, RECORD_SIZE_LEN, t / 60) ==>
            var ideal := Ideal(c.byteWindow, s'.log, RECORD_SIZE_LEN, t / 60);
            && Held(s'.byteRing, t / 60, c.byteWindow) == ideal
            && (Passes(s'.byteRing, c.byteLimit, c.byteWindow, t, RECORD_SIZE_LEN) <==>
                  ideal + RECORD_SIZE_LEN <= c.byteLimit))
  {
    hide Acts, Ideal, InForce, GapsShortUntil, Held, Passes;
    var end := RunKeepsLimits(c, s, actions, now);
    var s' := Acts(c, s, actions);
    if 0 <= c.recordLimit && GapsShortUntil(c.recordWindow, s'.log, RECORD_COUNTER, t / 60) {
      InForceIsExact(s'.recordRing, c.recordLimit, c.recordWindow, RECORD_COUNTER, s'.log, end, t / 60);
      InForceVerdict(s'.recordRing, c.recordLimit, c.recordWindow, RECORD_COUNTER, s'.log, end, t);
    }
    if 0 <= c.byteLimit && GapsShortUntil(c.byteWindow, s'.log, RECORD_SIZE_LEN, t / 60) {
      InForceIsExact(s'.byteRing, c.byteLimit, c.byteWindow, RECORD_SIZE_LEN, s'.log, end, t / 60);
      InForceVerdict(s'.byteRing, c.byteLimit, c.byteWindow, RECORD_SIZE_LEN, s'.log, end, t);
    }
  }
}
