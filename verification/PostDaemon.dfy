/**
 The post daemon on values: what one delivery, one processed file, one scan of the spool
 directory, one spool pass and one turn of the main loop do. Time, the results of posts,
 the files that arrive and the order of directory listings are inputs.
 */
module PostDaemon {
  import opened RateLimiter
  import opened RecordFile

  const NETWORK_BYPASS_DURATION := 300
  const TM_DAEMON_EXIT_TIME := 300
  const MAX_RETRY_ATTEMPTS := 8
  const SPOOL_MAX_SEND_RECORDS := 50
  const SPOOL_MAX_PROCESS_RECORDS := 60
  const BLOCK := 512
  /** What a record costs either limiter. */
  const RECORD_COUNTER: Word := 1
  const RECORD_SIZE_LEN: Word := 4

  /** A file of the spool directory; the id tells apart files that had the same name at different times. */
  datatype File = File(id: nat, contents: string, regular: bool, owned: bool, mtime: int, blocks: nat)

  /** Windows of -1 and an expiry of -1 make the source exit; a limit below 0 switches its limiter off. */
  datatype Config = Config(
    recordLimit: int, recordWindow: int, byteLimit: int, byteWindow: int,
    spool: bool, expiry: int, maxSpoolSize: int, delivery: bool, spoolProcessTime: int, recycling: bool)
  {
    ghost predicate Valid() {
      && recordLimit < TWO64 / 2 && byteLimit < TWO64 / 2
      && 0 <= recordWindow < SLOTS && 0 <= byteWindow < SLOTS
      && 0 <= expiry && -1 <= maxSpoolSize
    }
  }

  /**
   What happened to a record. Limited: a limiter held it back. A staged post comes from deliver_record, others
   from a spool pass.
   */
  datatype Event = Posted(staged: bool, id: nat, now: int, ok: bool) | Limited(id: nat, now: int)

  datatype State = State(
    bypassTs: int, recordRing: Ring, byteRing: Ring, limitEnabled: bool, spoolSize: int,
    dir: map<string, File>, log: seq<Event>, counted: set<nat>)

  /** What a processing step returns: true has the file removed. */
  datatype Outcome = Outcome(state: State, remove: bool)

  predicate BurstLimitEnabled(limit: int) {
    limit > -1
  }

  predicate InsideDirectSpoolWindow(s: State, now: int) {
    now < s.bypassTs + NETWORK_BYPASS_DURATION
  }

  /** The minute of the hour. */
  function Minute(now: int): int {
    now / 60 % SLOTS
  }

  predicate Passes(ring: Ring, limit: int, window: int, now: int, inc: Word)
    requires 0 <= window
  {
    !BurstLimitEnabled(limit) || Admits(ring, Minute(now), limit, window, inc)
  }

  function ChargedIfOn(ring: Ring, limit: int, window: int, now: int, inc: Word): Ring
    requires 0 <= window
  {
    if BurstLimitEnabled(limit) then Charge(ring, Minute(now), window, inc) else ring
  }

  /** Limiting is in force: it is switched on, and at least one limiter is. */
  predicate Limiting(c: Config, s: State) {
    s.limitEnabled && (BurstLimitEnabled(c.recordLimit) || BurstLimitEnabled(c.byteLimit))
  }

  predicate MaySend(c: Config, s: State, now: int)
    requires c.Valid()
  {
    !Limiting(c, s) ||
    (Passes(s.recordRing, c.recordLimit, c.recordWindow, now, RECORD_COUNTER) &&
     Passes(s.byteRing, c.byteLimit, c.byteWindow, now, RECORD_SIZE_LEN))
  }

  /** deliver_record */
  function Deliver(c: Config, s: State, id: nat, now: int, ok: bool): Outcome
    requires c.Valid()
  {
    var s1 := s.(limitEnabled := Limiting(c, s));
    if !MaySend(c, s, now) then
      if c.spool then Outcome(s1.(bypassTs := now, log := s.log + [Limited(id, now)]), false)
      else Outcome(s1.(log := s.log + [Limited(id, now)]), true)
    else
      var s2 := s1.(log := s.log + [Posted(true, id, now, ok)]);
      if ok then
        Outcome(s2.(recordRing := ChargedIfOn(s.recordRing, c.recordLimit, c.recordWindow, now, RECORD_COUNTER),
                    byteRing := ChargedIfOn(s.byteRing, c.byteLimit, c.byteWindow, now, RECORD_SIZE_LEN)), true)
      else if c.spool then Outcome(s2.(bypassTs := now), false)
      else Outcome(s2, true)
  }

  predicate Expired(c: Config, f: File, now: int) {
    now - f.mtime > c.expiry * 60
  }

  /** A record that the daemon has to deliver rather than discard. */
  predicate Deliverable(c: Config, f: File, now: int) {
    ReadStaged(f.contents).Some? && f.regular && f.owned && !Expired(c, f, now)
  }

  function Size(f: File): nat {
    f.blocks * BLOCK
  }

  /** process_staged_record, with one reading of the clock */
  function ProcessStaged(c: Config, s: State, name: string, now: int, ok: bool): Outcome
    requires c.Valid()
  {
    if name !in s.dir || ReadStaged(s.dir[name].contents).None? then Outcome(s, true)
    else
      var f := s.dir[name];
      var s1 := s.(spoolSize := s.spoolSize + Size(f), counted := s.counted + {f.id});
      var r :=
        if !f.regular || Expired(c, f, now) || !f.owned then Outcome(s1, true)
        else if !c.delivery then Outcome(s1, true)
        else if InsideDirectSpoolWindow(s1, now) then
          Outcome(s1, c.maxSpoolSize != -1 && s1.spoolSize >= c.maxSpoolSize * 1024)
        else Deliver(c, s1, f.id, now, ok);
      if r.remove then r.(state := r.state.(spoolSize := r.state.spoolSize - Size(f))) else r
  }

  function Unlink(s: State, name: string): State {
    s.(dir := s.dir - {name})
  }

  /** A staged file, processed and, if so decided, removed. */
  function StagedStep(c: Config, s: State, name: string, now: int, ok: bool): State
    requires c.Valid()
  {
    var r := ProcessStaged(c, s, name, now, ok);
    if r.remove then Unlink(r.state, name) else r.state
  }

  // ---- Files that arrive ----

  /** A file that the probe daemon puts into the spool directory. */
  datatype Arrival = Arrival(name: string, file: File)

  /** A new file takes a name that is free. */
  function Arrived(dir: map<string, File>, arrivals: seq<Arrival>): map<string, File>
    decreases |arrivals|
  {
    if arrivals == [] then dir
    else
      var a := arrivals[0];
      Arrived(if a.name in dir then dir else dir[a.name := a.file], arrivals[1..])
  }

  function Received(s: State, arrivals: seq<Arrival>): State {
    s.(dir := Arrived(s.dir, arrivals))
  }

  // ---- The spool pass ----

  datatype Pass = Pass(state: State, processed: nat, sent: nat)

  /** The counter after a record has been counted as sent; a negative one is measured again. */
  function Deducted(spoolSize: int, f: File, measured: int): int {
    var left := if spoolSize > 0 then spoolSize - Size(f) else spoolSize;
    if left < 0 then measured else left
  }

  /** process_spooled_record. A file that cannot be read counts as sent, but stays. */
  function SpoolStep(c: Config, p: Pass, name: string, now: int, ok: bool, measured: int): Pass
    requires c.Valid()
  {
    var s, p1 := p.state, p.(processed := p.processed + 1);
    if name !in s.dir then p1
    else
      var f := s.dir[name];
      if !f.regular || Expired(c, f, now) || !f.owned then p1.(state := Unlink(s, name))
      else if p.sent > SPOOL_MAX_SEND_RECORDS then p1
      else if ReadSpooled(f.contents).None? then
        p1.(sent := p.sent + 1, state := s.(spoolSize := Deducted(s.spoolSize, f, measured)))
      else
        var s1 := s.(log := s.log + [Posted(false, f.id, now, ok)]);
        if !ok then p1.(state := s1)
        else p1.(sent := p.sent + 1, state := Unlink(s1.(spoolSize := Deducted(s.spoolSize, f, measured)), name))
  }

  /** One file that is looked at, the files that arrive before that, and what the environment answers to it. */
  datatype Input = Input(arrivals: seq<Arrival>, name: string, now: int, ok: bool, measured: int)

  /** One file of a listing. */
  function SpoolInput(c: Config, p: Pass, i: Input): Pass
    requires c.Valid()
  {
    SpoolStep(c, p.(state := Received(p.state, i.arrivals)), i.name, i.now, i.ok, i.measured)
  }

  /** spool_records_loop on a listing of the directory */
  function SpoolPass(c: Config, p: Pass, listing: seq<Input>): Pass
    requires c.Valid()
    decreases |listing|
  {
    if listing == [] then p
    else
      var p' := SpoolInput(c, p, listing[0]);
      if p'.sent == 0 || p'.processed == SPOOL_MAX_PROCESS_RECORDS then p' else SpoolPass(c, p', listing[1..])
  }

  // ---- The staging scan and the inotify events ----

  function StagedInput(c: Config, s: State, i: Input): State
    requires c.Valid()
  {
    StagedStep(c, Received(s, i.arrivals), i.name, i.now, i.ok)
  }

  /** Staged files one after the other. */
  function StagedSteps(c: Config, s: State, inputs: seq<Input>): State
    requires c.Valid()
    decreases |inputs|
  {
    if inputs == [] then s
    else StagedSteps(c, StagedInput(c, s, inputs[0]), inputs[1..])
  }

  /** How many of them were not removed: what staging_records_loop returns. */
  function Left(c: Config, s: State, inputs: seq<Input>): nat
    requires c.Valid()
    decreases |inputs|
  {
    if inputs == [] then 0
    else
      var i := inputs[0];
      var r := ProcessStaged(c, Received(s, i.arrivals), i.name, i.now, i.ok);
      (if r.remove then 0 else 1) + Left(c, StagedInput(c, s, i), inputs[1..])
  }

  // ---- The main loop ----

  datatype Loop = Loop(state: State, retry: int, lastSpoolRun: int, lastReceived: int, running: bool)

  /**
   What one poll brings: a signal, file events, or a timeout with the listings taken after it;
   and the files that arrive while the daemon waits for it. Events are mostly about these files.
   */
  datatype Poll =
    | Signal(arrivals: seq<Arrival>, terminate: bool)
    | Events(arrivals: seq<Arrival>, inputs: seq<Input>, end: int)
    | Timeout(arrivals: seq<Arrival>, now: int, scan: seq<Input>, spool: seq<Input>, end: int)

  /** The delay, in seconds, with which the loop polls. */
  function Delay(c: Config, l: Loop): int {
    if l.retry > 0 then l.retry * l.retry else c.spoolProcessTime
  }

  function AfterScan(c: Config, l: Loop, scan: seq<Input>): Loop
    requires c.Valid()
  {
    if l.retry > 0 then
      var retry := if Left(c, l.state, scan) == 0 then 0 else l.retry + 1;
      l.(state := StagedSteps(c, l.state, scan), retry := if retry == MAX_RETRY_ATTEMPTS then 0 else retry)
    else l
  }

  function AfterSpool(c: Config, l: Loop, now: int, spool: seq<Input>, end: int): Loop
    requires c.Valid()
  {
    if now - l.lastSpoolRun >= c.spoolProcessTime then
      l.(state := SpoolPass(c, Pass(l.state, 0, 0), spool).state, lastSpoolRun := end)
    else l
  }

  /** The head of the loop, and the wait in poll. */
  function AtHead(l: Loop, arrivals: seq<Arrival>): Loop {
    var s := if l.retry > 0 then l.state.(bypassTs := 0) else l.state;
    l.(state := Received(s, arrivals))
  }

  /** One turn of run_daemon's loop. */
  function Turn(c: Config, l: Loop, poll: Poll): Loop
    requires c.Valid()
  {
    var h := AtHead(l, poll.arrivals);
    match poll
    case Signal(_, terminate) => h.(running := !terminate)
    case Events(_, inputs, end) =>
      h.(state := StagedSteps(c, h.state, inputs), lastReceived := if inputs == [] then h.lastReceived else end)
    case Timeout(_, now, scan, spool, end) =>
      if c.recycling && now - h.lastReceived >= TM_DAEMON_EXIT_TIME then h.(running := false)
      else AfterSpool(c, AfterScan(c, h, scan), now, spool, end)
  }

  function Run(c: Config, l: Loop, polls: seq<Poll>): Loop
    requires c.Valid()
    decreases |polls|
  {
    if polls == [] || !l.running then l else Run(c, Turn(c, l, polls[0]), polls[1..])
  }

  /** The state run_daemon starts its loop in: a failed first scan asks for retries. */
  function Started(s: State, now: int): Loop {
    Loop(s, if s.bypassTs != 0 then 1 else 0, now, now, true)
  }

  /** The whole program: the scan at its start, and the loop. */
  function Program(c: Config, s: State, scan: seq<Input>, start: int, polls: seq<Poll>): Loop
    requires c.Valid()
  {
    Run(c, Started(StagedSteps(c, s, scan), start), polls)
  }
}
