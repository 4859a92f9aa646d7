/**
 The sliding-window rate limiter of the post daemon: a ring of sixty per-minute
 slots, indexed by the minute of the hour and cleared lazily, only when a record
 has been sent.

 The ring is compared with the ideal it stands for: the history of charges with
 their absolute minutes, from which any window of consecutive minutes can be summed.
 */
module RateLimiter {
  import opened Sums

  const SLOTS := 60
  const TWO64 := 0x1_0000_0000_0000_0000
  const SIZE_MAX := TWO64 - 1

  /** A value of C type size_t. */
  type Word = x: int | 0 <= x < TWO64 witness 0

  /** Conversion to size_t: arithmetic modulo 2^64. */
  function Wrap(x: int): Word {
    x % TWO64
  }

  type Ring = r: seq<Word> | |r| == SLOTS witness seq(SLOTS, _ => 0)

  function EmptyRing(): Ring {
    seq(SLOTS, _ => 0)
  }

  /** The ring read at an absolute minute. */
  function At(ring: Ring): int -> int {
    (t: int) => ring[t % SLOTS]
  }

  /** What the slots of the `window` minutes ending with `minute` add up to. */
  function Held(ring: Ring, minute: int, window: nat): int {
    Sum(At(ring), minute - window + 1, window)
  }

  /**
   The verdict of one check, with the 64-bit arithmetic of the source: sums wrap,
   a negative limit is compared as its unsigned image, and a slot that would reach
   SIZE_MAX refuses on its own.
   */
  predicate Admits(ring: Ring, minute: int, limit: int, window: nat, inc: Word) {
    && (forall t :: minute - window < t <= minute ==> Wrap(At(ring)(t) + inc) != SIZE_MAX)
    && Wrap(Held(ring, minute, window) + inc) <= Wrap(limit)
  }

  /** Slot j is one of the slots that follow `minute` and precede its window. */
  predicate IsBlank(minute: int, window: nat, j: int) {
    (j - minute - 1) % SLOTS < SLOTS - window
  }

  /** The ring after `inc` has been charged to `minute`. */
  function Charge(ring: Ring, minute: int, window: nat, inc: Word): Ring {
    seq(SLOTS, j requires 0 <= j < SLOTS =>
      if IsBlank(minute, window, j) then 0
      else if j == minute % SLOTS then Wrap(ring[j] + inc)
      else ring[j])
  }

  method RateLimitCheck(currentMinute: int, burstLimit: int, windowLength: int,
                        slots: array<Word>, incValue: Word) returns (ok: bool)
    requires slots.Length == SLOTS
    requires 0 <= currentMinute < SLOTS
    requires 0 <= windowLength < SLOTS
    ensures ok == Admits(slots[..], currentMinute, burstLimit, windowLength, incValue)
  {
    hide Wrap;
    WrapSmall(0);
    var count: Word := 0;
    var windowStart := (SLOTS + (currentMinute - windowLength + 1)) % SLOTS;
    ghost var ring: Ring := slots[..];
    ghost var n := 0;
    var i := windowStart;
    while i < windowStart + windowLength
      invariant n == i - windowStart && n <= windowLength
      invariant Counted(ring, currentMinute, windowLength, incValue, n, count)
    {
      WindowStep(ring, currentMinute, windowLength, incValue, n, count);
      count := Wrap(count + slots[i % SLOTS]);
      if Wrap(slots[i % SLOTS] + incValue) >= SIZE_MAX {
        return false;
      }
      i, n := i + 1, n + 1;
    }
    WrapAdd(Held(ring, currentMinute, windowLength), incValue);
    count := Wrap(count + incValue);
    return !(count > Wrap(burstLimit));
  }

  /** The state of the loop after n slots of the window. */
  ghost predicate Counted(ring: Ring, minute: int, window: nat, inc: Word, n: nat, count: Word) {
    && count == Wrap(Sum(At(ring), minute - window + 1, n))
    && forall t :: minute - window < t <= minute - window + n ==> Wrap(At(ring)(t) + inc) != SIZE_MAX
  }

  /** Slot i of the loop is the ring read at the absolute minute that i stands for. */
  lemma WindowStep(ring: Ring, minute: int, window: nat, inc: Word, n: nat, count: Word)
    requires 0 <= minute < SLOTS && n < window < SLOTS
    requires Counted(ring, minute, window, inc, n, count)
    ensures var slot := ring[((SLOTS + (minute - window + 1)) % SLOTS + n) % SLOTS];
      if Wrap(slot + inc) == SIZE_MAX then forall limit :: !Admits(ring, minute, limit, window, inc)
      else Counted(ring, minute, window, inc, n + 1, Wrap(count + slot))
  {
    hide Wrap;
    var t := minute - window + 1 + n;
    var slot := ring[((SLOTS + (minute - window + 1)) % SLOTS + n) % SLOTS];
    assert At(ring)(t) == slot;
    WrapAdd(Sum(At(ring), minute - window + 1, n), slot);
  }

  lemma WrapAdd(a: int, b: int)
    ensures Wrap(Wrap(a) + b) == Wrap(a + b)
  {
  }

  method RateLimitUpdate(currentMinute: int, windowLength: int, slots: array<Word>, incValue: Word)
    requires slots.Length == SLOTS
    requires 0 <= currentMinute < SLOTS
    requires 0 <= windowLength < SLOTS
    modifies slots
    ensures slots[..] == Charge(old(slots[..]), currentMinute, windowLength, incValue)
  {
    hide Wrap, IsBlank;
    var blankSlots := SLOTS - windowLength;
    slots[currentMinute] := Wrap(slots[currentMinute] + incValue);
    ghost var charged := slots[..];
    NoneBlank(currentMinute);
    var i := currentMinute + 1;
    while i < blankSlots + currentMinute + 1
      invariant currentMinute + 1 <= i <= blankSlots + currentMinute + 1
      invariant forall j :: 0 <= j < SLOTS ==>
        slots[j] == if IsBlank(currentMinute, SLOTS - (i - currentMinute - 1), j) then 0 else charged[j]
    {
      OneMoreBlank(currentMinute, i, SLOTS - (i - currentMinute));
      slots[i % SLOTS] := 0;
      i := i + 1;
    }
  }

  lemma NoneBlank(minute: int)
    ensures forall j :: 0 <= j < SLOTS ==> !IsBlank(minute, SLOTS, j)
  {
  }

  lemma OneMoreBlank(minute: int, i: int, window: nat)
    requires 0 <= minute < SLOTS && minute < i && window == SLOTS - (i - minute)
    ensures forall j :: 0 <= j < SLOTS ==>
      (IsBlank(minute, window, j) <==> IsBlank(minute, window + 1, j) || j == i % SLOTS)
  {
  }

  // ---- The ideal: what was really sent, minute by minute ----

  /** One record that was sent and charged, at an absolute minute. */
  datatype Charged = Charged(minute: int, weight: Word)

  function Sent(history: seq<Charged>, t: int): int {
    if history == [] then 0
    else
      var last := history[|history| - 1];
      Sent(history[..|history| - 1], t) + if last.minute == t then last.weight else 0
  }

  function SentAt(history: seq<Charged>): int -> int {
    (t: int) => Sent(history, t)
  }

  lemma {:induction false} SentIsZeroLater(history: seq<Charged>, now: int, t: int)
    requires forall e :: e in history ==> e.minute <= now
    requires now < t
    ensures Sent(history, t) == 0
  {
    if history == [] {
    } else {
      SentIsZeroLater(history[..|history| - 1], now, t);
    }
  }

  lemma {:induction false} SentNonNegative(history: seq<Charged>, t: int)
    ensures 0 <= Sent(history, t)
  {
    if history == [] {
    } else {
      SentNonNegative(history[..|history| - 1], t);
    }
  }

  lemma SentGrows(history: seq<Charged>, e: Charged, t: int)
    ensures Sent(history + [e], t) == Sent(history, t) + if e.minute == t then e.weight else 0
  {
  }

  // ---- The ring read by absolute minutes ----

  lemma AtRepeats(ring: Ring)
    ensures forall t :: Repeats(At(ring), SLOTS, t)
  {
  }

  /** All sixty slots, summed from any starting minute. */
  lemma WholeRing(ring: Ring, lo: int)
    ensures Sum(At(ring), lo, SLOTS) == Sum(At(ring), 0, SLOTS)
  {
    AtRepeats(ring);
    if lo <= 0 {
      SumRotate(At(ring), SLOTS, lo, 0);
    } else {
      SumRotate(At(ring), SLOTS, 0, lo);
    }
  }

  lemma HeldWithinWhole(ring: Ring, minute: int, window: nat)
    requires window < SLOTS
    ensures Sum(At(ring), 0, SLOTS) == Sum(At(ring), minute - SLOTS + 1, SLOTS - window) + Held(ring, minute, window)
    ensures 0 <= Held(ring, minute, window) <= Sum(At(ring), 0, SLOTS)
    ensures forall t :: minute - window < t <= minute ==> At(ring)(t) <= Held(ring, minute, window)
  {
    var lo := minute - SLOTS + 1;
    WholeRing(ring, lo);
    SumSplit(At(ring), lo, SLOTS - window, window);
    SumNonNegative(At(ring), lo, SLOTS - window);
    SumNonNegative(At(ring), minute - window + 1, window);
  }

  lemma HoursLater(t: int, hours: int)
    ensures (t + SLOTS * hours) % SLOTS == t % SLOTS
  {
  }

  lemma {:induction false} SumHoursLater(ring: Ring, lo: int, hours: int, n: nat)
    ensures Sum(At(ring), lo + SLOTS * hours, n) == Sum(At(ring), lo, n)
  {
    if n == 0 {
    } else {
      SumHoursLater(ring, lo, hours, n - 1);
      HoursLater(lo + n - 1, hours);
    }
  }

  lemma AdmitsHoursLater(ring: Ring, minute: int, hours: int, limit: int, window: nat, inc: Word)
    requires Admits(ring, minute, limit, window, inc)
    ensures Admits(ring, minute + SLOTS * hours, limit, window, inc)
  {
    SumHoursLater(ring, minute - window + 1, hours, window);
    var minute' := minute + SLOTS * hours;
    forall t | minute' - window < t <= minute' ensures Wrap(At(ring)(t) + inc) != SIZE_MAX {
      HoursLater(t - SLOTS * hours, hours);
      assert At(ring)(t) == At(ring)(t - SLOTS * hours);
    }
  }

  /** Only the minute of the hour matters to a check. */
  lemma CheckByMinuteOfHour(ring: Ring, minute: int, limit: int, window: nat, inc: Word)
    ensures Admits(ring, minute % SLOTS, limit, window, inc) == Admits(ring, minute, limit, window, inc)
  {
    if Admits(ring, minute, limit, window, inc) {
      AdmitsHoursLater(ring, minute, -(minute / SLOTS), limit, window, inc);
    }
    if Admits(ring, minute % SLOTS, limit, window, inc) {
      AdmitsHoursLater(ring, minute % SLOTS, minute / SLOTS, limit, window, inc);
    }
  }

  /** Only the minute of the hour matters to a charge. */
  lemma ChargeByMinuteOfHour(ring: Ring, minute: int, window: nat, inc: Word)
    ensures Charge(ring, minute % SLOTS, window, inc) == Charge(ring, minute, window, inc)
  {
  }

  /** The ring after a charge, over the hour that ends with it. */
  lemma ChargedAt(ring: Ring, minute: int, window: nat, inc: Word, t: int)
    requires window < SLOTS
    requires minute - SLOTS < t <= minute
    ensures At(Charge(ring, minute, window, inc))(t) ==
      if t <= minute - window then 0
      else if t == minute then Wrap(At(ring)(t) + inc)
      else At(ring)(t)
  {
  }

  /** The same when the charge does not wrap. */
  lemma ChargedAtExactly(ring: Ring, minute: int, window: nat, inc: Word, t: int)
    requires window < SLOTS
    requires minute - SLOTS < t <= minute
    requires At(ring)(t) + inc < TWO64
    ensures At(Charge(ring, minute, window, inc))(t) ==
      if t <= minute - window then 0
      else At(ring)(t) + if t == minute then inc else 0
  {
  }

  // ---- Safety ----

  /**
   What holds between deliveries at minute `now` while the limiter is in force:
   the ring never undercounts a minute of the live window, all sixty slots together
   stay within the limit, and so does every window of the real history.
   */
  ghost predicate Safe(ring: Ring, limit: int, window: nat, history: seq<Charged>, now: int) {
    && (forall e :: e in history ==> e.minute <= now)
    && (forall t :: now - window < t <= now ==> SentAt(history)(t) <= At(ring)(t))
    && Sum(At(ring), 0, SLOTS) <= limit
    && (forall s :: Sum(SentAt(history), s, window) <= limit)
  }

  /** Limits and weights for which the source does its arithmetic without wrapping. */
  ghost predicate InRange(limit: int, window: int, inc: Word) {
    0 <= limit < TWO64 / 2 && 0 <= window < SLOTS && inc < TWO64 / 2 - 1
  }

  /** The 64-bit check is the exact one: no sum and no slot can wrap. */
  lemma CheckDoesNotWrap(ring: Ring, minute: int, limit: int, window: nat, inc: Word)
    requires InRange(limit, window, inc)
    requires Sum(At(ring), 0, SLOTS) <= limit
    ensures Admits(ring, minute, limit, window, inc) <==> Held(ring, minute, window) + inc <= limit
  {
    hide Wrap, Sum;
    HeldWithinWhole(ring, minute, window);
    WrapSmall(Held(ring, minute, window) + inc);
    WrapSmall(limit);
    forall t | minute - window < t <= minute ensures Wrap(At(ring)(t) + inc) != SIZE_MAX {
      WrapSmall(At(ring)(t) + inc);
    }
  }

  lemma WrapSmall(x: int)
    requires 0 <= x < TWO64
    ensures Wrap(x) == x
  {
  }

  lemma SafeInitially(limit: int, window: nat, now: int)
    requires 0 <= limit
    ensures Safe(EmptyRing(), limit, window, [], now)
  {
    SumZero(At(EmptyRing()), 0, SLOTS);
    forall s ensures Sum(SentAt([]), s, window) <= limit {
      SumZero(SentAt([]), s, window);
    }
  }

  /** Time passing without a charge, however long, keeps the limiter safe. */
  lemma SafeWhileIdle(ring: Ring, limit: int, window: nat, history: seq<Charged>, now: int, later: int)
    requires Safe(ring, limit, window, history, now) && now <= later
    ensures Safe(ring, limit, window, history, later)
  {
    forall t | later - window < t <= later ensures SentAt(history)(t) <= At(ring)(t) {
      if now < t {
        SentIsZeroLater(history, now, t);
      }
    }
  }

  lemma ChargeKeepsTotal(ring: Ring, limit: int, window: nat, minute: int, inc: Word)
    requires InRange(limit, window, inc)
    requires Sum(At(ring), 0, SLOTS) <= limit
    requires Held(ring, minute, window) + inc <= limit
    ensures Sum(At(Charge(ring, minute, window, inc)), 0, SLOTS) ==
      if window == 0 then 0 else Held(ring, minute, window) + inc
  {
    hide Charge, Wrap, Sum;
    HeldWithinWhole(ring, minute, window);
    WholeRing(Charge(ring, minute, window, inc), minute - SLOTS + 1);
    var held, held' := At(ring), At(Charge(ring, minute, window, inc));
    forall t | minute - SLOTS < t <= minute
      ensures held'(t) == if t <= minute - window then 0 else held(t) + if t == minute then inc else 0
    {
      ChargedAt(ring, minute, window, inc, t);
      if t == minute && window > 0 {
        WrapSmall(At(ring)(t) + inc);
      }
    }
    SumOfClearedRing(held, held', minute, window, SLOTS, inc);
  }

  /** Every window of the history that contains the new minute was already covered by the ring. */
  lemma WindowsAfterCharge(ring: Ring, limit: int, window: nat, history: seq<Charged>, minute: int, inc: Word, s: int)
    requires Safe(ring, limit, window, history, minute)
    requires Held(ring, minute, window) + inc <= limit
    ensures Sum(SentAt(history + [Charged(minute, inc)]), s, window) <= limit
  {
    var sent, sent' := SentAt(history), SentAt(history + [Charged(minute, inc)]);
    forall t | s <= t < s + window ensures sent'(t) == sent(t) + if t == minute then inc else 0 {
      SentGrows(history, Charged(minute, inc), t);
    }
    if s <= minute < s + window {
      forall t | minute < t < s + window ensures sent(t) == 0 {
        SentIsZeroLater(history, minute, t);
      }
      forall t | minute - window < t <= minute ensures 0 <= sent(t) {
        SentNonNegative(history, t);
      }
      SumOfCoveredRun(sent, sent', At(ring), minute, window, inc, s);
    } else {
      SumEq(sent, sent', s, window);
    }
  }

  /** An admitted record keeps the limiter safe. */
  lemma SafeAfterCharge(ring: Ring, limit: int, window: nat, history: seq<Charged>, minute: int, inc: Word)
    requires InRange(limit, window, inc)
    requires Safe(ring, limit, window, history, minute)
    requires Held(ring, minute, window) + inc <= limit
    ensures Safe(Charge(ring, minute, window, inc), limit, window, history + [Charged(minute, inc)], minute)
  {
    var ring', history' := Charge(ring, minute, window, inc), history + [Charged(minute, inc)];
    ChargeKeepsTotal(ring, limit, window, minute, inc);
    HeldWithinWhole(ring, minute, window);
    forall t | minute - window < t <= minute ensures SentAt(history')(t) <= At(ring')(t) {
      ChargedAtExactly(ring, minute, window, inc, t);
      SentGrows(history, Charged(minute, inc), t);
    }
    forall s ensures Sum(SentAt(history'), s, window) <= limit {
      WindowsAfterCharge(ring, limit, window, history, minute, inc, s);
    }
  }

  // ---- Exactness ----

  /** The ring holds, for the hour that ends at `last`, exactly what was sent inside the window. */
  ghost predicate Exact(ring: Ring, window: nat, history: seq<Charged>, last: int) {
    && (forall e :: e in history ==> e.minute <= last)
    && forall t :: last - SLOTS < t <= last ==> At(ring)(t) == if t <= last - window then 0 else SentAt(history)(t)
  }

  /** Some minute after `last`, inside the window that ends at `minute`, reads a slot left over from an earlier hour. */
  ghost predicate ReadsStaleSlot(ring: Ring, window: nat, last: int, minute: int) {
    exists t :: last < t && minute - window < t <= minute && At(ring)(t) != 0
  }

  /** What the check reads at one minute of its window. */
  lemma SlotIs(ring: Ring, window: nat, history: seq<Charged>, last: int, minute: int, t: int)
    requires window < SLOTS && last <= minute && Exact(ring, window, history, last) && minute - window < t <= minute
    ensures SentAt(history)(t) <= At(ring)(t)
    ensures t <= last ==> SentAt(history)(t) == At(ring)(t)
    ensures last < t ==> SentAt(history)(t) == 0
    ensures last < t && minute - last <= SLOTS - window ==> At(ring)(t) == 0
  {
    if last < t {
      SentIsZeroLater(history, last, t);
      if minute - last <= SLOTS - window {
        HoursLater(t, -1);
        assert At(ring)(t) == At(ring)(t - SLOTS);
      }
    }
  }

  /**
   The count that the check takes is the ideal count of the window exactly when no
   stale slot falls into the window; an idle gap of at most 60 - window minutes rules
   that out.
   */
  lemma CountIsExactIff(ring: Ring, window: nat, history: seq<Charged>, last: int, minute: int)
    requires window < SLOTS && last <= minute
    requires Exact(ring, window, history, last)
    ensures Held(ring, minute, window) == Sum(SentAt(history), minute - window + 1, window)
      <==> !ReadsStaleSlot(ring, window, last, minute)
    ensures minute - last <= SLOTS - window ==> !ReadsStaleSlot(ring, window, last, minute)
  {
    var lo := minute - window + 1;
    forall t | lo <= t <= minute
      ensures SentAt(history)(t) <= At(ring)(t)
      ensures t <= last ==> SentAt(history)(t) == At(ring)(t)
      ensures last < t ==> SentAt(history)(t) == 0
      ensures last < t && minute - last <= SLOTS - window ==> At(ring)(t) == 0
    {
      SlotIs(ring, window, history, last, minute, t);
    }
    hide At, SentAt, Exact;
    if Held(ring, minute, window) == Sum(SentAt(history), lo, window) {
      SumEqOnlyIf(SentAt(history), At(ring), lo, window);
    } else if !ReadsStaleSlot(ring, window, last, minute) {
      SumEq(SentAt(history), At(ring), lo, window);
      assert false;
    }
  }

  /** A charge that reads no stale slot keeps the ring exact. */
  lemma ExactAfterCharge(ring: Ring, limit: int, window: nat, history: seq<Charged>, last: int, minute: int, inc: Word)
    requires InRange(limit, window, inc)
    requires Exact(ring, window, history, last)
    requires last <= minute && !ReadsStaleSlot(ring, window, last, minute)
    requires Sum(At(ring), 0, SLOTS) <= limit
    ensures Exact(Charge(ring, minute, window, inc), window, history + [Charged(minute, inc)], minute)
  {
    HeldWithinWhole(ring, minute, window);
    forall t | minute - SLOTS < t <= minute
      ensures At(Charge(ring, minute, window, inc))(t) ==
        if t <= minute - window then 0 else SentAt(history + [Charged(minute, inc)])(t)
    {
      ExactSlotAfterCharge(ring, window, history, last, minute, inc, t);
    }
  }

  lemma ExactSlotAfterCharge(ring: Ring, window: nat, history: seq<Charged>, last: int, minute: int, inc: Word, t: int)
    requires window < SLOTS && last <= minute
    requires Exact(ring, window, history, last)
    requires !ReadsStaleSlot(ring, window, last, minute)
    requires minute - SLOTS < t <= minute
    requires minute - window < t ==> At(ring)(t) + inc < TWO64
    ensures At(Charge(ring, minute, window, inc))(t) ==
      if t <= minute - window then 0 else SentAt(history + [Charged(minute, inc)])(t)
  {
    ChargedAt(ring, minute, window, inc, t);
    if minute - window < t {
      SentGrows(history, Charged(minute, inc), t);
      WrapSmall(At(ring)(t) + inc);
      if last < t {
        SentIsZeroLater(history, last, t);
      }
    }
  }

  /** The overcount is real: an idle hour after any charge, its slot is counted once more. */
  lemma StaleSlotIsCounted(ring: Ring, window: nat, history: seq<Charged>, minute: int)
    requires 0 < window < SLOTS
    requires Exact(ring, window, history, minute) && At(ring)(minute) != 0
    ensures Held(ring, minute + SLOTS, window) != Sum(SentAt(history), minute + SLOTS - window + 1, window)
  {
    HoursLater(minute, 1);
    assert At(ring)(minute + SLOTS) != 0;
    assert ReadsStaleSlot(ring, window, minute, minute + SLOTS);
    CountIsExactIff(ring, window, history, minute, minute + SLOTS);
  }

  lemma ExactInitially(window: nat, minute: int)
    ensures Exact(EmptyRing(), window, [], minute)
  {
  }

  // ---- Whole histories ----

  /** The ring that a history of charges leaves behind. */
  function RingOf(window: nat, history: seq<Charged>): Ring {
    if history == [] then EmptyRing()
    else
      var last := history[|history| - 1];
      Charge(RingOf(window, history[..|history| - 1]), last.minute, window, last.weight)
  }

  /** Every charge came in order of time and passed the check on the ring of those before it. */
  ghost predicate Admitted(limit: int, window: nat, history: seq<Charged>) {
    history != [] ==>
      && Admitted(limit, window, history[..|history| - 1])
      && AdmittedNext(limit, window, history[..|history| - 1], history[|history| - 1])
  }

  ghost predicate AdmittedNext(limit: int, window: nat, before: seq<Charged>, next: Charged) {
    && (forall e :: e in before ==> e.minute <= next.minute)
    && InRange(limit, window, next.weight)
    && Admits(RingOf(window, before), next.minute, limit, window, next.weight)
  }

  lemma AdmittedMore(limit: int, window: nat, history: seq<Charged>, minute: int, inc: Word)
    requires Admitted(limit, window, history) && InRange(limit, window, inc)
    requires forall e :: e in history ==> e.minute <= minute
    requires Admits(RingOf(window, history), minute, limit, window, inc)
    ensures Admitted(limit, window, history + [Charged(minute, inc)])
    ensures RingOf(window, history + [Charged(minute, inc)]) == Charge(RingOf(window, history), minute, window, inc)
  {
    assert (history + [Charged(minute, inc)])[..|history|] == history;
  }

  /** Over any admitted history: no window of it, however it lies, carries more than the limit. */
  lemma {:induction false} AdmittedIsSafe(limit: int, window: nat, history: seq<Charged>, now: int)
    requires 0 <= limit && Admitted(limit, window, history)
    requires forall e :: e in history ==> e.minute <= now
    ensures Safe(RingOf(window, history), limit, window, history, now)
  {
    if history == [] {
      SafeInitially(limit, window, now);
    } else {
      var last, before := history[|history| - 1], history[..|history| - 1];
      AdmittedIsSafe(limit, window, before, last.minute);
      CheckDoesNotWrap(RingOf(window, before), last.minute, limit, window, last.weight);
      SafeAfterCharge(RingOf(window, before), limit, window, before, last.minute, last.weight);
      assert history == before + [last];
      assert last in history;
      SafeWhileIdle(RingOf(window, history), limit, window, history, last.minute, now);
    }
  }

  /** No two consecutive charges lie further apart than the slots that are kept clear. */
  ghost predicate GapsShort(window: nat, history: seq<Charged>) {
    forall i :: 0 < i < |history| ==> history[i].minute - history[i - 1].minute <= SLOTS - window
  }

  /** While gaps are short, the check counts exactly what was sent in its window. */
  lemma {:induction false} AdmittedIsExact(limit: int, window: nat, history: seq<Charged>)
    requires 0 <= limit && window < SLOTS && Admitted(limit, window, history) && GapsShort(window, history)
    requires history != []
    ensures Exact(RingOf(window, history), window, history, history[|history| - 1].minute)
  {
    var last, before := history[|history| - 1], history[..|history| - 1];
    var ring := RingOf(window, before);
    assert history == before + [last];
    if before == [] {
      ExactInitially(window, last.minute);
      SumZero(At(EmptyRing()), 0, SLOTS);
      ExactAfterCharge(EmptyRing(), limit, window, [], last.minute, last.minute, last.weight);
    } else {
      var prev := before[|before| - 1];
      AdmittedIsExact(limit, window, before);
      AdmittedIsSafe(limit, window, before, last.minute);
      assert history[|history| - 2] == prev && prev in before;
      CountIsExactIff(ring, window, before, prev.minute, last.minute);
      ExactAfterCharge(ring, limit, window, before, prev.minute, last.minute, last.weight);
    }
  }

  lemma CountIsIdeal(limit: int, window: nat, history: seq<Charged>, minute: int)
    requires 0 <= limit && window < SLOTS && Admitted(limit, window, history) && GapsShort(window, history)
    requires history != [] && 0 <= minute - history[|history| - 1].minute <= SLOTS - window
    ensures Held(RingOf(window, history), minute, window) == Sum(SentAt(history), minute - window + 1, window)
  {
    AdmittedIsExact(limit, window, history);
    CountIsExactIff(RingOf(window, history), window, history, history[|history| - 1].minute, minute);
  }
}
