/** What becomes of a record, said by its file, the clock and what was sent before, on the log and the directory. */
module PostDecisions {
  import opened RateLimiter
  import opened RecordFile
  import opened PostDaemon
  import opened PostRuns
  import opened PostLimits

  // ---- Staged records ----

  /** A record that is looked at and not delivered, because of its age, its owner, its kind or the configuration. */
  predicate Discarded(c: Config, f: File, now: int) {
    !f.regular || !f.owned || now - f.mtime > c.expiry * 60 || !c.delivery
  }

  /** A file that is missing, unreadable or to be discarded is removed, and nothing else happens. */
  lemma DiscardedIsRemoved(c: Config, s: State, name: string, now: int, ok: bool)
    requires c.Valid()
    requires name !in s.dir || ReadStaged(s.dir[name].contents).None? || Discarded(c, s.dir[name], now)
    ensures var s' := StagedStep(c, s, name, now, ok);
      && s'.dir == s.dir - {name} && s'.log == s.log && s'.spoolSize == s.spoolSize
      && s'.bypassTs == s.bypassTs && s'.recordRing == s.recordRing && s'.byteRing == s.byteRing
  {
    hide ReadStaged, Deliver;
  }

  /** A record that is to be delivered. */
  predicate Wanted(c: Config, s: State, name: string, now: int) {
    name in s.dir && ReadStaged(s.dir[name].contents).Some? && !Discarded(c, s.dir[name], now)
  }

  /** In the bypass window nothing is posted; a record is kept and counted if it fits the quota, else removed. */
  lemma BypassedIsKeptIff(c: Config, s: State, name: string, now: int, ok: bool)
    requires c.Valid() && Wanted(c, s, name, now) && now < s.bypassTs + 300
    ensures var s' := StagedStep(c, s, name, now, ok);
      var size := s.spoolSize + s.dir[name].blocks * 512;
      && s'.log == s.log && s'.bypassTs == s.bypassTs
      && if c.maxSpoolSize == -1 || size < c.maxSpoolSize * 1024 then s'.dir == s.dir && s'.spoolSize == size
         else s'.dir == s.dir - {name} && s'.spoolSize == s.spoolSize
  {
    hide ReadStaged, Deliver;
  }

  /** Outside of it there is one event; success removes the record, and so does a failure without a spool. */
  lemma DeliveredOnce(c: Config, s: State, name: string, now: int, ok: bool) returns (e: Event)
    requires c.Valid() && Wanted(c, s, name, now) && s.bypassTs + 300 <= now
    ensures var s' := StagedStep(c, s, name, now, ok); var id := s.dir[name].id;
      && s'.log == s.log + [e] && (e == Posted(true, id, now, ok) || e == Limited(id, now))
      && if e == Posted(true, id, now, true) then s'.dir == s.dir - {name} && s'.bypassTs == s.bypassTs
         else if c.spool then s'.dir == s.dir && s'.bypassTs == now
         else s'.dir == s.dir - {name} && s'.bypassTs == s.bypassTs
  {
    hide ReadStaged, MaySend, ChargedIfOn, Limiting;
    var s' := StagedStep(c, s, name, now, ok);
    e := s'.log[|s.log|];
  }

  /** Without limits, or with limiting switched off, it is a post. */
  lemma UnlimitedIsPosted(c: Config, s: State, name: string, now: int, ok: bool)
    requires c.Valid() && Wanted(c, s, name, now) && s.bypassTs + 300 <= now
    requires !s.limitEnabled || (c.recordLimit < 0 && c.byteLimit < 0)
    ensures StagedStep(c, s, name, now, ok).log == s.log + [Posted(true, s.dir[name].id, now, ok)]
  {
    hide ReadStaged, Passes, ChargedIfOn;
  }

  /** What was sent in the window of a limiter that ends now leaves room for one record. */
  ghost predicate Room(limit: int, window: int, weight: Word, log: seq<Event>, now: int)
    requires 0 <= window
  {
    0 <= limit ==> Ideal(window, log, weight, now / 60) + weight <= limit
  }

  ghost predicate GapsShortIfOn(limit: int, window: int, log: seq<Event>, weight: Word, now: int)
    requires 0 <= window
  {
    0 <= limit ==> GapsShortUntil(window, log, weight, now / 60)
  }

  /** The verdict of both checks, by what was sent. */
  lemma MaySendIff(c: Config, s: State, before: int, now: int)
    requires c.Valid() && LimitsInForce(c, s, before)
    requires GapsShortIfOn(c.recordLimit, c.recordWindow, s.log, 1, now)
    requires GapsShortIfOn(c.byteLimit, c.byteWindow, s.log, 4, now)
    ensures MaySend(c, s, now) <==>
      Room(c.recordLimit, c.recordWindow, 1, s.log, now) && Room(c.byteLimit, c.byteWindow, 4, s.log, now)
  {
    hide InForce, Passes, Ideal, GapsShortUntil;
    if 0 <= c.recordLimit {
      InForceVerdict(s.recordRing, c.recordLimit, c.recordWindow, 1, s.log, before, now);
    } else {
      OffPasses(s.recordRing, c.recordLimit, c.recordWindow, now, 1);
    }
    if 0 <= c.byteLimit {
      InForceVerdict(s.byteRing, c.byteLimit, c.byteWindow, 4, s.log, before, now);
    } else {
      OffPasses(s.byteRing, c.byteLimit, c.byteWindow, now, 4);
    }
  }

  lemma OffPasses(ring: Ring, limit: int, window: int, now: int, weight: Word)
    requires limit < 0 <= window
    ensures Passes(ring, limit, window, now, weight)
  {
  }

  lemma DeliveryByVerdict(c: Config, s: State, name: string, now: int, ok: bool)
    requires c.Valid() && Wanted(c, s, name, now) && s.bypassTs + 300 <= now
    ensures StagedStep(c, s, name, now, ok).log == s.log +
      [if MaySend(c, s, now) then Posted(true, s.dir[name].id, now, ok) else Limited(s.dir[name].id, now)]
  {
    hide ReadStaged, Passes, ChargedIfOn;
  }

  /**
   Over every run in which the gaps are short: a wanted record outside the bypass window is posted exactly when what
   was sent in the window of each limiter, and the record, are within its limit; otherwise it is held back.
   */
  lemma PostedIff(c: Config, s: State, actions: seq<Action>, before: int, name: string, now: int, ok: bool)
    requires c.Valid() && LimitsInForce(c, s, before) && Timely(actions, before)
    requires var s' := Acts(c, s, actions);
      && Wanted(c, s', name, now) && s'.bypassTs + 300 <= now
      && GapsShortIfOn(c.recordLimit, c.recordWindow, s'.log, 1, now)
      && GapsShortIfOn(c.byteLimit, c.byteWindow, s'.log, 4, now)
    ensures var s' := Acts(c, s, actions); var id := s'.dir[name].id;
      StagedStep(c, s', name, now, ok).log == s'.log +
        [if Room(c.recordLimit, c.recordWindow, 1, s'.log, now) && Room(c.byteLimit, c.byteWindow, 4, s'.log, now)
         then Posted(true, id, now, ok) else Limited(id, now)]
  {
    hide Acts, LimitsInForce, Room, GapsShortIfOn, Wanted, StagedStep, MaySend;
    var end := RunKeepsLimits(c, s, actions, before);
    MaySendIff(c, Acts(c, s, actions), end, now);
    DeliveryByVerdict(c, Acts(c, s, actions), name, now, ok);
  }

  // ---- Spooled records ----

  /** An old, foreign or irregular file is removed by a spool pass without being sent. */
  lemma SpoolDiscards(c: Config, p: Pass, name: string, now: int, ok: bool, measured: int)
    requires c.Valid() && name in p.state.dir
    requires var f := p.state.dir[name]; !f.regular || !f.owned || now - f.mtime > c.expiry * 60
    ensures SpoolStep(c, p, name, now, ok, measured) ==
      Pass(p.state.(dir := p.state.dir - {name}), p.processed + 1, p.sent)
  {
  }

  /** A file that a pass may send. */
  predicate SpoolWants(c: Config, p: Pass, name: string, now: int) {
    && name in p.state.dir && p.sent <= 50
    && p.state.dir[name].regular && p.state.dir[name].owned && now - p.state.dir[name].mtime <= c.expiry * 60
  }

  /** A readable one is posted: removed, counted and deducted on success, and left alone otherwise. */
  lemma SpoolPosts(c: Config, p: Pass, name: string, now: int, ok: bool, measured: int)
    requires c.Valid() && SpoolWants(c, p, name, now) && ReadSpooled(p.state.dir[name].contents).Some?
    ensures var p' := SpoolStep(c, p, name, now, ok, measured); var s, s' := p.state, p'.state;
      && s'.log == s.log + [Posted(false, s.dir[name].id, now, ok)] && p'.processed == p.processed + 1
      && (ok ==> s'.dir == s.dir - {name} && p'.sent == p.sent + 1)
      && (!ok ==> s'.dir == s.dir && p'.sent == p.sent && s'.spoolSize == s.spoolSize)
  {
    hide ReadSpooled, Deducted;
  }

  /** What is counted as sent is deducted from a positive counter; a counter that is or becomes negative is measured. */
  lemma SpoolDeducts(c: Config, p: Pass, name: string, now: int, ok: bool, measured: int)
    requires c.Valid() && SpoolWants(c, p, name, now)
    requires ReadSpooled(p.state.dir[name].contents).Some? ==> ok
    ensures var s, s' := p.state, SpoolStep(c, p, name, now, ok, measured).state;
      var size := s.dir[name].blocks * 512;
      && (size <= s.spoolSize ==> s'.spoolSize == s.spoolSize - size || (s.spoolSize == 0 && s'.spoolSize == 0))
      && (0 < s.spoolSize < size || s.spoolSize < 0 ==> s'.spoolSize == measured)
  {
    hide ReadSpooled;
  }

  // ---- The scan with which retries end ----

  /** The names of a scan differ, and no file that arrives during it takes one of them. */
  ghost predicate IsScan(scan: seq<Input>) {
    && (forall i, j :: 0 <= i < j < |scan| ==> scan[i].name != scan[j].name)
    && (forall i, j, a :: 0 <= i < |scan| && 0 <= j < |scan| && a in scan[i].arrivals ==> a.name != scan[j].name)
  }

  lemma {:induction false} ArrivedElsewhere(dir: map<string, File>, arrivals: seq<Arrival>, n: string)
    requires forall a :: a in arrivals ==> a.name != n
    ensures n in Arrived(dir, arrivals) <==> n in dir
    decreases |arrivals|
  {
    if arrivals == [] {
    } else {
      var a := arrivals[0];
      ArrivedElsewhere(if a.name in dir then dir else dir[a.name := a.file], arrivals[1..], n);
    }
  }

  lemma StepElsewhere(c: Config, s: State, i: Input, n: string)
    requires c.Valid() && i.name != n && forall a :: a in i.arrivals ==> a.name != n
    ensures n in StagedInput(c, s, i).dir <==> n in s.dir
  {
    hide ReadStaged, Deliver, Arrived;
    ArrivedElsewhere(s.dir, i.arrivals, n);
    StepTouchesOne(c, Received(s, i.arrivals), i.name, i.now, i.ok);
  }

  lemma StepTouchesOne(c: Config, s: State, name: string, now: int, ok: bool)
    requires c.Valid()
    ensures var s', r := StagedStep(c, s, name, now, ok), ProcessStaged(c, s, name, now, ok);
      && s'.dir == (if r.remove then s.dir - {name} else s.dir)
      && (!r.remove ==> name in s.dir)
  {
    hide ReadStaged, MaySend, ChargedIfOn, Limiting;
  }

  lemma {:induction false} StepsElsewhere(c: Config, s: State, scan: seq<Input>, n: string)
    requires c.Valid()
    requires forall i :: 0 <= i < |scan| ==> scan[i].name != n && forall a :: a in scan[i].arrivals ==> a.name != n
    ensures n in StagedSteps(c, s, scan).dir <==> n in s.dir
    decreases |scan|
  {
    hide StagedInput;
    if scan == [] {
    } else {
      StepElsewhere(c, s, scan[0], n);
      StepsElsewhere(c, StagedInput(c, s, scan[0]), scan[1..], n);
    }
  }

  /** No file of the scan is left. */
  ghost predicate AllGone(scan: seq<Input>, dir: map<string, File>) {
    forall i :: 0 <= i < |scan| ==> scan[i].name !in dir
  }

  lemma {:induction false} LeftIff(c: Config, s: State, scan: seq<Input>)
    requires c.Valid() && IsScan(scan)
    ensures Left(c, s, scan) == 0 <==> AllGone(scan, StagedSteps(c, s, scan).dir)
    decreases |scan|
  {
    hide StagedStep, ProcessStaged, Received;
    if scan == [] {
    } else {
      var i, s' := scan[0], StagedInput(c, s, scan[0]);
      LeftIff(c, s', scan[1..]);
      StepTouchesOne(c, Received(s, i.arrivals), i.name, i.now, i.ok);
      StepsElsewhere(c, s', scan[1..], i.name);
      GoneFirst(scan, StagedSteps(c, s, scan).dir);
    }
  }

  lemma GoneFirst(scan: seq<Input>, dir: map<string, File>)
    requires scan != []
    ensures AllGone(scan, dir) <==> scan[0].name !in dir && AllGone(scan[1..], dir)
  {
    if scan[0].name !in dir && AllGone(scan[1..], dir) {
      forall i | 0 <= i < |scan|
        ensures scan[i].name !in dir
      {
        assert i > 0 ==> scan[1..][i - 1].name !in dir;
      }
    }
  }

  /** A scan that leaves none of its files ends retrying; one that leaves some does not, until the eighth attempt. */
  lemma RetryEndsIff(c: Config, l: Loop, scan: seq<Input>)
    requires c.Valid() && 0 < l.retry < 8 && IsScan(scan)
    ensures var l' := AfterScan(c, l, scan);
      l'.retry == if AllGone(scan, l'.state.dir) || l.retry == 7 then 0 else l.retry + 1
  {
    hide StagedSteps, Left;
    LeftIff(c, l.state, scan);
  }

  // ---- The main loop ----

  /** The loop ends on a signal that asks for it, or on a timeout when no record came for 300 seconds; and then only. */
  lemma StopsIff(c: Config, l: Loop, poll: Poll)
    requires c.Valid() && l.running
    ensures Turn(c, l, poll).running <==>
      !(poll.Signal? && poll.terminate) && !(poll.Timeout? && c.recycling && poll.now - l.lastReceived >= 300)
  {
    hide StagedSteps, SpoolPass, Left, Received;
  }

  /** A timeout between spool passes, without a retry to make, changes nothing but what arrives. */
  lemma QuietTimeout(c: Config, l: Loop, poll: Poll)
    requires c.Valid() && l.running && l.retry == 0 && poll.Timeout? && poll.now - l.lastSpoolRun < c.spoolProcessTime
    ensures var l' := Turn(c, l, poll);
      && l'.state == l.state.(dir := Arrived(l.state.dir, poll.arrivals))
      && l'.retry == 0 && l'.lastSpoolRun == l.lastSpoolRun && l'.lastReceived == l.lastReceived
  {
  }

  /** A spool pass starts when its time has come, and starts the time anew. */
  lemma SpoolPassIsDue(c: Config, l: Loop, poll: Poll)
    requires c.Valid() && l.running && l.retry == 0 && poll.Timeout? && c.spoolProcessTime <= poll.now - l.lastSpoolRun
    requires !c.recycling || poll.now - l.lastReceived < 300
    ensures var l' := Turn(c, l, poll);
      && l'.state == SpoolPass(c, Pass(Received(l.state, poll.arrivals), 0, 0), poll.spool).state
      && l'.lastSpoolRun == poll.end && l'.lastReceived == l.lastReceived
  {
    hide SpoolPass, Received;
  }

  /** While retrying, nothing is bypassed: a wanted record that an event brings is posted or held back by a limit. */
  lemma RetryIsNotBypassed(c: Config, l: Loop, input: Input, end: int)
    requires c.Valid() && l.running && l.retry > 0 && 300 <= input.now && input.arrivals == []
    requires Wanted(c, l.state, input.name, input.now)
    ensures |Turn(c, l, Events([], [input], end)).state.log| == |l.state.log| + 1
    ensures Turn(c, l, Events([], [input], end)).lastReceived == end
  {
    hide StagedStep, Wanted;
    var s := l.state.(bypassTs := 0);
    assert Received(s, []) == s;
    assert [input][1..] == [];
    assert StagedSteps(c, s, [input]) == StagedInput(c, s, input);
    WantedEither(c, l.state, s, input.name, input.now);
    var e := DeliveredOnce(c, s, input.name, input.now, input.ok);
  }

  lemma WantedEither(c: Config, s: State, s': State, name: string, now: int)
    requires Wanted(c, s, name, now) && s'.dir == s.dir
    ensures Wanted(c, s', name, now)
  {
  }

  // ---- The start ----

  predicate FailedEvent(e: Event) {
    e.Limited? || (e.staged && !e.ok)
  }

  /** Some delivery failed or was held back. */
  ghost predicate SomeFailed(log: seq<Event>) {
    exists i :: 0 <= i < |log| && FailedEvent(log[i])
  }

  lemma SomeFailedMore(log: seq<Event>, e: Event)
    ensures SomeFailed(log + [e]) <==> SomeFailed(log) || FailedEvent(e)
  {
    if SomeFailed(log) {
      var i :| 0 <= i < |log| && FailedEvent(log[i]);
      assert FailedEvent((log + [e])[i]);
    }
    if FailedEvent(e) {
      assert FailedEvent((log + [e])[|log|]);
    }
  }

  /** The bypass time stamp is set exactly when a delivery has failed. */
  ghost predicate StampTells(s: State) {
    s.bypassTs >= 0 && (s.bypassTs != 0 <==> SomeFailed(s.log))
  }

  lemma StepKeepsStamp(c: Config, s: State, name: string, now: int, ok: bool)
    requires c.Valid() && c.spool && StampTells(s) && now > 0
    ensures StampTells(StagedStep(c, s, name, now, ok))
  {
    hide StagedStep, SomeFailed, ReadStaged;
    if !Wanted(c, s, name, now) {
      DiscardedIsRemoved(c, s, name, now, ok);
    } else if now < s.bypassTs + 300 {
      BypassedIsKeptIff(c, s, name, now, ok);
    } else {
      var e := DeliveredOnce(c, s, name, now, ok);
      SomeFailedMore(s.log, e);
    }
  }

  lemma {:induction false} ScanKeepsStamp(c: Config, s: State, scan: seq<Input>)
    requires c.Valid() && c.spool && StampTells(s) && forall i :: 0 <= i < |scan| ==> scan[i].now > 0
    ensures StampTells(StagedSteps(c, s, scan))
    decreases |scan|
  {
    hide StagedStep, SomeFailed;
    if scan == [] {
    } else {
      StepKeepsStamp(c, Received(s, scan[0].arrivals), scan[0].name, scan[0].now, scan[0].ok);
      ScanKeepsStamp(c, StagedInput(c, s, scan[0]), scan[1..]);
    }
  }

  /** With the spool strategy, retrying starts exactly when a delivery of the first scan failed or was held back. */
  lemma RetryStartsIff(c: Config, s: State, scan: seq<Input>, start: int)
    requires c.Valid() && c.spool && s.bypassTs == 0 && s.log == []
    requires forall i :: 0 <= i < |scan| ==> scan[i].now > 0
    ensures var s' := StagedSteps(c, s, scan); var l := Started(s', start);
      && l.retry == (if SomeFailed(s'.log) then 1 else 0)
      && (!SomeFailed(s'.log) ==> Delay(c, l) == c.spoolProcessTime)
  {
    hide StagedSteps;
    ScanKeepsStamp(c, s, scan);
  }
}
