/** The post daemon as an object whose fields its methods update, each proved against the model on values. */
module TelemPostDaemon {
  import opened RateLimiter
  import opened RecordFile
  import opened PostDaemon

  class TelemPostDaemon {
    const config: Config
    const recordBurstArray: array<Word>
    const byteBurstArray: array<Word>
    var bypassHttpPostTs: int
    var rateLimitEnabled: bool
    var currentSpoolSize: int
    /** The spool directory. */
    var dir: map<string, File>
    /** What has been posted or held back, and which files the size counter has seen. */
    ghost var log: seq<Event>
    ghost var counted: set<nat>

    ghost predicate Valid()
      reads this, recordBurstArray, byteBurstArray
    {
      config.Valid() && recordBurstArray.Length == SLOTS && byteBurstArray.Length == SLOTS &&
        recordBurstArray != byteBurstArray
    }

    ghost function View(): State
      requires Valid()
      reads this, recordBurstArray, byteBurstArray
    {
      State(bypassHttpPostTs, recordBurstArray[..], byteBurstArray[..], rateLimitEnabled, currentSpoolSize, dir, log,
        counted)
    }

    /** initialize_post_daemon, and the measured size of the directory */
    constructor (c: Config, enabled: bool, files: map<string, File>, spoolDirSize: int)
      requires c.Valid()
      ensures Valid() && config == c && fresh(recordBurstArray) && fresh(byteBurstArray)
      ensures View() == State(0, EmptyRing(), EmptyRing(), enabled, spoolDirSize, files, [],
        set n | n in files :: files[n].id)
    {
      config := c;
      recordBurstArray := new Word[SLOTS](_ => 0);
      byteBurstArray := new Word[SLOTS](_ => 0);
      bypassHttpPostTs, rateLimitEnabled, currentSpoolSize, dir := 0, enabled, spoolDirSize, files;
      log, counted := [], set n | n in files :: files[n].id;
    }

    method RateLimitChecks(now: int) returns (recordPassed: bool, bytePassed: bool)
      requires Valid()
      modifies `rateLimitEnabled
      ensures View() == old(View()).(limitEnabled := Limiting(config, old(View())))
      ensures MaySend(config, old(View()), now) == (!rateLimitEnabled || (recordPassed && bytePassed))
    {
      hide Admits;
      recordPassed, bytePassed := true, true;
      if rateLimitEnabled {
        if BurstLimitEnabled(config.recordLimit) {
          recordPassed := RateLimitCheck(Minute(now), config.recordLimit, config.recordWindow, recordBurstArray,
            RECORD_COUNTER);
        }
        if BurstLimitEnabled(config.byteLimit) {
          bytePassed := RateLimitCheck(Minute(now), config.byteLimit, config.byteWindow, byteBurstArray,
            PostDaemon.RECORD_SIZE_LEN);
        }
        if !BurstLimitEnabled(config.recordLimit) && !BurstLimitEnabled(config.byteLimit) {
          rateLimitEnabled := false;
        }
      }
    }

    /** `ok` is what the post answers, if there is one. */
    method DeliverRecord(id: nat, now: int, ok: bool) returns (remove: bool)
      requires Valid()
      modifies this, recordBurstArray, byteBurstArray
      ensures Valid()
      ensures Outcome(View(), remove) == Deliver(config, old(View()), id, now, ok)
    {
      hide MaySend, Limiting, Charge;
      var recordPassed, bytePassed := RateLimitChecks(now);
      var recordSent := false;
      if !rateLimitEnabled || (recordPassed && bytePassed) {
        recordSent := ok;
        log := log + [Posted(true, id, now, ok)];
      } else {
        log := log + [Limited(id, now)];
      }
      remove := recordSent;
      if !recordSent && !config.spool {
        remove := true;
      } else if !recordSent && config.spool {
        bypassHttpPostTs := now;
        remove := false;
      } else {
        if BurstLimitEnabled(config.recordLimit) {
          RateLimitUpdate(Minute(now), config.recordWindow, recordBurstArray, RECORD_COUNTER);
        }
        if BurstLimitEnabled(config.byteLimit) {
          RateLimitUpdate(Minute(now), config.byteWindow, byteBurstArray, PostDaemon.RECORD_SIZE_LEN);
        }
      }
    }

    method ProcessStagedRecord(name: string, now: int, ok: bool) returns (remove: bool)
      requires Valid()
      modifies this, recordBurstArray, byteBurstArray
      ensures Valid()
      ensures Outcome(View(), remove) == ProcessStaged(config, old(View()), name, now, ok)
    {
      hide Deliver, ReadStaged;
      if name !in dir {
        return true;
      }
      var f := dir[name];
      var record := ReadRecord(f.contents);
      if record.None? {
        return true;
      }
      currentSpoolSize := currentSpoolSize + f.blocks * BLOCK;
      counted := counted + {f.id};
      if !f.regular || Expired(config, f, now) || !f.owned {
        remove := true;
      } else if !config.delivery {
        remove := true;
      } else if now < bypassHttpPostTs + NETWORK_BYPASS_DURATION {
        remove := config.maxSpoolSize != -1 && currentSpoolSize >= config.maxSpoolSize * 1024;
      } else {
        remove := DeliverRecord(f.id, now, ok);
      }
      if remove {
        currentSpoolSize := currentSpoolSize - f.blocks * BLOCK;
      }
    }

    /** A staged file is processed, and unlinked if so decided. */
    method HandleStaged(name: string, now: int, ok: bool) returns (removed: bool)
      requires Valid()
      modifies this, recordBurstArray, byteBurstArray
      ensures Valid()
      ensures View() == StagedStep(config, old(View()), name, now, ok)
      ensures removed == ProcessStaged(config, old(View()), name, now, ok).remove
    {
      hide ProcessStaged;
      removed := ProcessStagedRecord(name, now, ok);
      if removed {
        dir := dir - {name};
      }
    }

    /** The probe daemon puts files into the directory meanwhile. */
    method ReceiveFiles(arrivals: seq<Arrival>)
      requires Valid()
      modifies `dir
      ensures View() == Received(old(View()), arrivals)
    {
      var i := 0;
      while i < |arrivals|
        invariant 0 <= i <= |arrivals|
        invariant Arrived(dir, arrivals[i..]) == Arrived(old(dir), arrivals)
      {
        assert arrivals[i..][1..] == arrivals[i + 1..];
        if arrivals[i].name !in dir {
          dir := dir[arrivals[i].name := arrivals[i].file];
        }
        i := i + 1;
      }
    }

    /** staging_records_loop, and the event loop of run_daemon */
    method StagingRecordsLoop(inputs: seq<Input>) returns (left: int)
      requires Valid()
      modifies this, recordBurstArray, byteBurstArray
      ensures Valid()
      ensures View() == StagedSteps(config, old(View()), inputs)
      ensures left == Left(config, old(View()), inputs)
    {
      hide StagedStep, ProcessStaged, Received;
      var processed := 0;
      for i := 0 to |inputs|
        invariant Valid()
        invariant StagedSteps(config, View(), inputs[i..]) == StagedSteps(config, old(View()), inputs)
        invariant i - processed + Left(config, View(), inputs[i..]) == Left(config, old(View()), inputs)
      {
        assert inputs[i..][0] == inputs[i] && inputs[i..][1..] == inputs[i + 1..];
        ReceiveFiles(inputs[i].arrivals);
        var removed := HandleStaged(inputs[i].name, inputs[i].now, inputs[i].ok);
        if removed {
          processed := processed + 1;
        }
      }
      return |inputs| - processed;
    }

    method ProcessSpooledRecord(name: string, now: int, ok: bool, measured: int, processed: nat, sent: nat)
      returns (processed': nat, sent': nat)
      requires Valid()
      modifies this
      ensures Valid() && unchanged(recordBurstArray) && unchanged(byteBurstArray)
      ensures Pass(View(), processed', sent') ==
        SpoolStep(config, Pass(old(View()), processed, sent), name, now, ok, measured)
    {
      hide ReadSpooled;
      processed', sent' := processed + 1, sent;
      if name !in dir {
        return;
      }
      var f := dir[name];
      if !f.regular || Expired(config, f, now) || !f.owned {
        dir := dir - {name};
      } else if sent <= SPOOL_MAX_SEND_RECORDS {
        var postSucceeded := true;
        var record := ReadForTransmit(f.contents);
        if record.Some? {
          postSucceeded := ok;
          log := log + [Posted(false, f.id, now, ok)];
          if ok {
            dir := dir - {name};
          }
        }
        if postSucceeded {
          sent' := sent + 1;
          if currentSpoolSize > 0 {
            currentSpoolSize := currentSpoolSize - f.blocks * BLOCK;
          }
          if currentSpoolSize < 0 {
            currentSpoolSize := measured;
          }
        }
      }
    }

    method SpoolRecordsLoop(listing: seq<Input>) returns (processed: nat, sent: nat)
      requires Valid()
      modifies this
      ensures Valid() && unchanged(recordBurstArray) && unchanged(byteBurstArray)
      ensures Pass(View(), processed, sent) == SpoolPass(config, Pass(old(View()), 0, 0), listing)
    {
      hide SpoolStep, Received;
      processed, sent := 0, 0;
      var i := 0;
      while i < |listing|
        invariant 0 <= i <= |listing|
        invariant Valid() && unchanged(recordBurstArray) && unchanged(byteBurstArray)
        invariant SpoolPass(config, Pass(View(), processed, sent), listing[i..]) ==
          SpoolPass(config, Pass(old(View()), 0, 0), listing)
      {
        assert listing[i..][0] == listing[i] && listing[i..][1..] == listing[i + 1..];
        var input := listing[i];
        ReceiveFiles(input.arrivals);
        processed, sent := ProcessSpooledRecord(input.name, input.now, input.ok, input.measured, processed, sent);
        if sent == 0 || processed == SPOOL_MAX_PROCESS_RECORDS {
          return;
        }
        i := i + 1;
      }
    }

    /** run_daemon, for as long as there are polls */
    method RunDaemon(start: int, polls: seq<Poll>)
      requires Valid()
      modifies this, recordBurstArray, byteBurstArray
      ensures Valid()
      ensures View() == Run(config, Started(old(View()), start), polls).state
    {
      hide Turn;
      var retryAttempt := if bypassHttpPostTs != 0 then 1 else 0;
      var lastSpoolRun, lastReceived, running := start, start, true;
      var i := 0;
      ghost var goal := Run(config, Started(View(), start), polls);
      while i < |polls| && running
        invariant Valid() && 0 <= i <= |polls|
        invariant Run(config, Loop(View(), retryAttempt, lastSpoolRun, lastReceived, running), polls[i..]) == goal
        decreases |polls| - i
      {
        assert polls[i..][0] == polls[i] && polls[i..][1..] == polls[i + 1..];
        retryAttempt, lastSpoolRun, lastReceived, running :=
          OneTurn(polls[i], retryAttempt, lastSpoolRun, lastReceived);
        i := i + 1;
      }
    }

    /** What main does with an initialised daemon. */
    method ScanAndRun(scan: seq<Input>, start: int, polls: seq<Poll>)
      requires Valid()
      modifies this, recordBurstArray, byteBurstArray
      ensures Valid()
      ensures View() == Program(config, old(View()), scan, start, polls).state
    {
      hide StagedSteps, Run;
      var _ := StagingRecordsLoop(scan);
      RunDaemon(start, polls);
    }

    /** The body of run_daemon's loop. */
    method OneTurn(poll: Poll, retryAttempt: int, lastSpoolRun: int, lastReceived: int)
      returns (retryAttempt': int, lastSpoolRun': int, lastReceived': int, running: bool)
      requires Valid()
      modifies this, recordBurstArray, byteBurstArray
      ensures Valid()
      ensures Loop(View(), retryAttempt', lastSpoolRun', lastReceived', running) ==
        Turn(config, Loop(old(View()), retryAttempt, lastSpoolRun, lastReceived, true), poll)
    {
      hide StagedSteps, SpoolPass, Left, Received;
      retryAttempt', lastSpoolRun', lastReceived', running := retryAttempt, lastSpoolRun, lastReceived, true;
      if retryAttempt > 0 {
        bypassHttpPostTs := 0;
      }
      ReceiveFiles(poll.arrivals);
      match poll
      case Signal(_, terminate) =>
        running := !terminate;
      case Events(_, inputs, end) =>
        var _ := StagingRecordsLoop(inputs);
        if inputs != [] {
          lastReceived' := end;
        }
      case Timeout(_, now, scan, spool, end) =>
        if config.recycling && now - lastReceived >= TM_DAEMON_EXIT_TIME {
          running := false;
          return;
        }
        if retryAttempt > 0 {
          var left := StagingRecordsLoop(scan);
          retryAttempt' := if left == 0 then 0 else retryAttempt + 1;
          if retryAttempt' == MAX_RETRY_ATTEMPTS {
            retryAttempt' := 0;
          }
        }
        if now - lastSpoolRun >= config.spoolProcessTime {
          var _, _ := SpoolRecordsLoop(spool);
          lastSpoolRun' := end;
        }
    }
  }
}
