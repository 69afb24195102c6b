/** Reconnect delays in 64-bit arithmetic. */
module Backoff {

  const TWO62: int := 0x4000_0000_0000_0000
  const TWO63: int := 0x8000_0000_0000_0000
  const TWO64: int := 0x1_0000_0000_0000_0000

  predicate Int64(x: int) {
    -TWO63 <= x < TWO63
  }

  /** `d *= 2` on a 64-bit duration, with its wrap-around. */
  function Double(d: int): (r: int)
    requires Int64(d)
    ensures Int64(r)
  {
    var x := 2 * d;
    if x >= TWO63 then x - TWO64 else if x < -TWO63 then x + TWO64 else x
  }

  ghost function Pow2(n: nat): nat {
    if n == 0 then 1 else 2 * Pow2(n - 1)
  }

  ghost function Min(a: int, b: int): int {
    if a < b then a else b
  }

  /** The delay when n doublings are still to come. */
  ghost function Remaining(d: int, max: int, n: nat): int
    requires Int64(d) && Int64(max)
    decreases n
  {
    if n == 0 then Min(d, max)
    else if d >= max then max
    else Remaining(Double(d), max, n - 1)
  }

  /** The delay before reconnect attempt n, counted from 1. */
  ghost function Delay(base: int, max: int, attempt: int): int
    requires Int64(base) && Int64(max)
  {
    Remaining(base, max, if attempt < 1 then 0 else attempt - 1)
  }

  method ExponentialBackoff(base: int, max: int, attempt: int) returns (d: int)
    requires Int64(base) && Int64(max) && Int64(attempt)
    ensures d == Delay(base, max, attempt)
    ensures attempt <= 1 ==> d == if base <= max then base else max
  {
    var n := if attempt < 1 then 1 else attempt;
    d := base;
    for i := 1 to n
      invariant Int64(d)
      invariant Remaining(base, max, n - 1) == Remaining(d, max, n - i)
    {
      if d >= max {
        return max;
      }
      d := Double(d);
    }
    if d > max {
      return max;
    }
  }

  lemma {:induction false} Pow2Positive(n: nat)
    ensures Pow2(n) >= 1
  {
    if n > 0 {
      Pow2Positive(n - 1);
    }
  }

  /** Some doubling of d below the cap would overflow. */
  ghost predicate Overflows(d: int, max: int) {
    exists k: nat :: TWO62 <= d * Pow2(k) < max
  }

  lemma DoubledPow(d: int, k: nat)
    ensures 2 * d * Pow2(k) == d * Pow2(k + 1)
  {
  }

  lemma DoubleKeeps(d: int, max: int)
    requires 0 < d < max && Int64(max) && !Overflows(d, max)
    ensures d < TWO62 && Double(d) == 2 * d && !Overflows(2 * d, max)
  {
    assert Pow2(0) == 1 && d * Pow2(0) == d;
    forall k: nat ensures !(TWO62 <= 2 * d * Pow2(k) < max) {
      DoubledPow(d, k);
    }
  }

  lemma {:induction false} RemainingExact(d: int, max: int, n: nat)
    requires 0 < d && 0 < max && Int64(d) && Int64(max) && !Overflows(d, max)
    ensures Remaining(d, max, n) == Min(d * Pow2(n), max)
    decreases n
  {
    Pow2Positive(n);
    if n > 0 {
      hide Overflows, Double;
      if d < max {
        DoubleKeeps(d, max);
        RemainingExact(2 * d, max, n - 1);
        DoubledPow(d, n - 1);
      } else {
        Scaled(d, 1, Pow2(n));
      }
    }
  }

  /** Doublings that stay below the cap are taken one by one. */
  lemma {:induction false} RemainingReaches(d: int, max: int, k: nat, n: nat)
    requires 0 < d && Int64(d) && Int64(max) && d * Pow2(k) < max
    ensures Int64(d * Pow2(k)) && Remaining(d, max, k + n) == Remaining(d * Pow2(k), max, n)
    decreases k
  {
    if k == 0 {
      assert d * Pow2(0) == d;
    } else {
      hide Double, Pow2;
      DoubledPow(d, k - 1);
      Pow2Positive(k - 1);
      Scaled(2 * d, 1, Pow2(k - 1));
      HalfFits(d, max);
      RemainingReaches(2 * d, max, k - 1, n);
    }
  }

  lemma HalfFits(d: int, max: int)
    requires 0 < d && 2 * d < max && Int64(max)
    ensures Int64(d) && Double(d) == 2 * d
  {
  }

  ghost predicate AlwaysCapped(base: int, max: int)
    requires Int64(base) && Int64(max)
  {
    forall n: nat :: Delay(base, max, n + 1) == Min(base * Pow2(n), max)
  }

  /** The delay before attempt n is min(base * 2^(n-1), max), for every n,
      exactly when no doubling of the base lands in [2^62, max). */
  lemma CappedExactlyWithoutOverflow(base: int, max: int)
    requires 0 < base && 0 < max && Int64(base) && Int64(max)
    ensures AlwaysCapped(base, max) <==> !exists k: nat :: TWO62 <= base * Pow2(k) < max
  {
    if k: nat :| TWO62 <= base * Pow2(k) < max {
      RemainingReaches(base, max, k, 1);
      DoubledPow(base, k);
      var d := base * Pow2(k);
      assert Remaining(d, max, 1) == Remaining(Double(d), max, 0) < 0;
      assert Delay(base, max, k + 2) < 0;
      assert Delay(base, max, (k + 1) + 1) != Min(base * Pow2(k + 1), max);
    } else {
      assert !Overflows(base, max);
      forall n: nat ensures Delay(base, max, n + 1) == Min(base * Pow2(n), max) {
        RemainingExact(base, max, n);
      }
    }
  }

  /** With a cap just above 2^62 the second delay wraps to a negative one. */
  lemma DelayCanWrap()
    ensures Delay(TWO62, TWO62 + 1, 2) == -TWO63
    ensures !AlwaysCapped(TWO62, TWO62 + 1)
  {
    assert Double(TWO62) == -TWO63;
    assert Pow2(1) == 2 && Delay(TWO62, TWO62 + 1, 1 + 1) != Min(TWO62 * Pow2(1), TWO62 + 1);
  }

  lemma {:induction false} Pow2Grows(m: nat, n: nat)
    requires m <= n
    ensures Pow2(m) <= Pow2(n)
  {
    if m < n {
      Pow2Grows(m, n - 1);
    }
  }

  /** With a cap of at most 2^62 the reconnect delays of a whole run, whose
      attempt counter never resets, are positive, never decrease, and are the
      cap from attempt 63 on. */
  lemma DelaysGrowToTheCap(base: int, max: int, m: nat, n: nat)
    requires 0 < base && Int64(base) && 0 < max <= TWO62 && 1 <= m <= n
    ensures 0 < Delay(base, max, m) <= Delay(base, max, n) <= max
    ensures n >= 63 ==> Delay(base, max, n) == max
  {
    assert !Overflows(base, max);
    RemainingExact(base, max, m - 1);
    RemainingExact(base, max, n - 1);
    hide Remaining;
    Pow2Positive(m - 1);
    Pow2Grows(m - 1, n - 1);
    Scaled(base, Pow2(m - 1), Pow2(n - 1));
    Scaled(base, 1, Pow2(m - 1));
    if n >= 63 {
      Pow2Grows(62, n - 1);
      assert Pow2(62) == TWO62 by {
        Pow62();
      }
      Scaled(base, TWO62, Pow2(n - 1));
      assert base * TWO62 >= TWO62;
    }
  }

  lemma Scaled(b: int, x: int, y: int)
    requires 0 <= b && x <= y
    ensures b * x <= b * y
  {
  }

  lemma Pow62()
    ensures Pow2(62) == TWO62
  {
    Pow2Sum(31, 31);
    Pow2Sum(16, 15);
    Pow2Sum(8, 8);
    Pow2Sum(8, 7);
    Pow2Sum(4, 4);
    Pow2Sum(4, 3);
    assert Pow2(4) == 16 && Pow2(3) == 8;
  }

  lemma {:induction false} Pow2Sum(m: nat, n: nat)
    ensures Pow2(m + n) == Pow2(m) * Pow2(n)
  {
    if n > 0 {
      Pow2Sum(m, n - 1);
      assert Pow2(m) * Pow2(n) == 2 * (Pow2(m) * Pow2(n - 1));
    }
  }

  /** The reconnect loop over the given number of stream drops: the counter
      goes up at every drop and never back, however long a stream lasted. */
  method ReconnectWaits(base: int, max: int, drops: nat) returns (waits: seq<int>)
    requires Int64(base) && Int64(max) && drops < TWO63
    ensures |waits| == drops
    ensures forall i | 0 <= i < drops :: waits[i] == Delay(base, max, i + 1)
    ensures 0 < base && 0 < max <= TWO62 ==>
              && (forall i, j | 0 <= i <= j < drops :: 0 < waits[i] <= waits[j] <= max)
              && (forall i | 62 <= i < drops :: waits[i] == max)
  {
    hide Delay;
    var attempt := 0;
    waits := [];
    while attempt < drops
      invariant attempt <= drops && |waits| == attempt
      invariant forall i | 0 <= i < attempt :: waits[i] == Delay(base, max, i + 1)
    {
      attempt := attempt + 1;
      var wait := ExponentialBackoff(base, max, attempt);
      waits := waits + [wait];
    }
    if 0 < base && 0 < max <= TWO62 {
      forall i, j | 0 <= i <= j < drops
        ensures 0 < waits[i] <= waits[j] <= max && (j >= 62 ==> waits[j] == max)
      {
        DelaysGrowToTheCap(base, max, i + 1, j + 1);
      }
    }
  }
}
