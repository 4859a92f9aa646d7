/** Sums of an integer function over a run of consecutive integers. */
module Sums {

  /** f(lo) + ... + f(lo + n - 1) */
  function Sum(f: int -> int, lo: int, n: nat): int {
    if n == 0 then 0 else Sum(f, lo, n - 1) + f(lo + n - 1)
  }

  lemma {:induction false} SumLe(f: int -> int, g: int -> int, lo: int, n: nat)
    requires forall t :: lo <= t < lo + n ==> f(t) <= g(t)
    ensures Sum(f, lo, n) <= Sum(g, lo, n)
  {
    if n == 0 {
    } else {
      SumLe(f, g, lo, n - 1);
      assert f(lo + n - 1) <= g(lo + n - 1);
    }
  }

  lemma {:induction false} SumEq(f: int -> int, g: int -> int, lo: int, n: nat)
    requires forall t :: lo <= t < lo + n ==> f(t) == g(t)
    ensures Sum(f, lo, n) == Sum(g, lo, n)
  {
    SumLe(f, g, lo, n);
    SumLe(g, f, lo, n);
  }

  lemma {:induction false} SumSplit(f: int -> int, lo: int, m: nat, n: nat)
    ensures Sum(f, lo, m + n) == Sum(f, lo, m) + Sum(f, lo + m, n)
  {
    if n == 0 {
    } else {
      SumSplit(f, lo, m, n - 1);
      assert m + n - 1 == m + (n - 1);
    }
  }

  lemma {:induction false} SumZero(f: int -> int, lo: int, n: nat)
    requires forall t :: lo <= t < lo + n ==> f(t) == 0
    ensures Sum(f, lo, n) == 0
  {
    if n == 0 {
    } else {
      SumZero(f, lo, n - 1);
      assert f(lo + n - 1) == 0;
    }
  }

  /** A summand is at most the sum, and a non-negative function sums to at least zero. */
  lemma {:induction false} SumNonNegative(f: int -> int, lo: int, n: nat)
    requires forall t :: lo <= t < lo + n ==> 0 <= f(t)
    ensures 0 <= Sum(f, lo, n)
    ensures forall t :: lo <= t < lo + n ==> f(t) <= Sum(f, lo, n)
  {
    if n == 0 {
    } else {
      SumNonNegative(f, lo, n - 1);
      assert 0 <= f(lo + n - 1);
    }
  }

  /** Two functions, one below the other, have the same sum only if they agree everywhere. */
  lemma {:induction false} SumEqOnlyIf(f: int -> int, g: int -> int, lo: int, n: nat)
    requires forall t :: lo <= t < lo + n ==> f(t) <= g(t)
    requires Sum(f, lo, n) == Sum(g, lo, n)
    ensures forall t :: lo <= t < lo + n ==> f(t) == g(t)
  {
    if n == 0 {
    } else {
      SumLe(f, g, lo, n - 1);
      assert f(lo + n - 1) <= g(lo + n - 1);
      SumEqOnlyIf(f, g, lo, n - 1);
    }
  }

  /** The two functions agree except at `at`, which lies in the range and where g is d larger. */
  lemma {:induction false} SumBump(f: int -> int, g: int -> int, lo: int, n: nat, at: int, d: int)
    requires lo <= at < lo + n
    requires forall t :: lo <= t < lo + n && t != at ==> g(t) == f(t)
    requires g(at) == f(at) + d
    ensures Sum(g, lo, n) == Sum(f, lo, n) + d
  {
    if at == lo + n - 1 {
      SumEq(f, g, lo, n - 1);
    } else {
      assert g(lo + n - 1) == f(lo + n - 1);
      SumBump(f, g, lo, n - 1, at, d);
    }
  }

  ghost predicate Repeats(f: int -> int, p: nat, t: int) {
    f(t + p) == f(t)
  }

  /** A function of period p sums to the same value over every p consecutive integers. */
  lemma {:induction false} SumRotate(f: int -> int, p: nat, lo: int, lo': int)
    requires lo <= lo'
    requires forall t :: Repeats(f, p, t)
    ensures Sum(f, lo', p) == Sum(f, lo, p)
    decreases lo' - lo
  {
    if lo < lo' {
      SumRotate(f, p, lo, lo' - 1);
      SumSplit(f, lo' - 1, p, 1);
      SumSplit(f, lo' - 1, 1, p);
      assert Repeats(f, p, lo' - 1);
    }
  }

  /** Where f is zero after `now` and not negative before, n values sum to the most when they end at `now`. */
  lemma SumOfRunEndingNow(f: int -> int, now: int, n: nat, s: int)
    requires s <= now < s + n
    requires forall t :: now - n < t <= now ==> 0 <= f(t)
    requires forall t :: now < t < s + n ==> f(t) == 0
    ensures Sum(f, s, n) <= Sum(f, now - n + 1, n)
  {
    var k := now - s + 1;
    assert Sum(f, s, n) == Sum(f, s, k) by {
      SumSplit(f, s, k, n - k);
      SumZero(f, now + 1, n - k);
    }
    assert Sum(f, s, k) <= Sum(f, now - n + 1, n) by {
      SumSplit(f, now - n + 1, n - k, k);
      SumNonNegative(f, now - n + 1, n - k);
    }
  }

  /** Adding d at `now` keeps any n values within a limit that `held`, which covers f up to `now`, meets with d. */
  lemma SumOfCoveredRun(f: int -> int, f': int -> int, held: int -> int, now: int, n: nat, d: int, s: int)
    requires s <= now < s + n
    requires forall t :: s <= t < s + n ==> f'(t) == f(t) + if t == now then d else 0
    requires forall t :: now - n < t <= now ==> 0 <= f(t) <= held(t)
    requires forall t :: now < t < s + n ==> f(t) == 0
    ensures Sum(f', s, n) <= Sum(held, now - n + 1, n) + d
  {
    assert Sum(f', s, n) == Sum(f, s, n) + d by {
      SumBump(f, f', s, n, now, d);
    }
    assert Sum(f, s, n) <= Sum(f, now - n + 1, n) by {
      SumOfRunEndingNow(f, now, n, s);
    }
    SumLe(f, held, now - n + 1, n);
  }

  /** held' is zero in the p - n integers before the n up to `now`, and adds d to held at `now`. */
  lemma SumOfClearedRing(held: int -> int, held': int -> int, now: int, n: nat, p: nat, d: int)
    requires n <= p
    requires forall t :: now - p < t <= now - n ==> held'(t) == 0
    requires forall t :: now - n < t < now ==> held'(t) == held(t)
    requires n > 0 ==> held'(now) == held(now) + d
    ensures Sum(held', now - p + 1, p) == if n == 0 then 0 else Sum(held, now - n + 1, n) + d
  {
    SumSplit(held', now - p + 1, p - n, n);
    SumZero(held', now - p + 1, p - n);
    if n > 0 {
      SumBump(held, held', now - n + 1, n, now, d);
    }
  }
}
