/**
 The retry layer: how long each retry waits, and how many calls a request can cause.  Durations are
 in nanoseconds.
 */
module Retry {
  import opened Wrappers

  const U64_MAX: nat := 0xFFFF_FFFF_FFFF_FFFF
  const U128_MAX: nat := 0xFFFF_FFFF_FFFF_FFFF_FFFF_FFFF_FFFF_FFFF

  function Pow2(n: nat): (p: nat)
    ensures p >= 1
  {
    if n == 0 then 1 else 2 * Pow2(n - 1)
  }

  function Min(a: nat, b: nat): nat {
    if a <= b then a else b
  }

  function SaturatingSub1(n: nat): nat {
    if n == 0 then 0 else n - 1
  }

  // The shift, the product and the conversion to a duration are each cut off at their width.
  function ExponentialBackoff(base: nat, maxDelay: nat, retryNumber: nat): nat {
    var shifted := Pow2(Min(SaturatingSub1(retryNumber), 127));
    var nanos := Min(base * shifted, U128_MAX);
    Min(if nanos <= U64_MAX then nanos else U64_MAX, maxDelay)
  }

  // ---------------------------------------------------------------- what it computes

  lemma {:induction false} Pow2Grows(m: nat, n: nat)
    requires m <= n
    ensures Pow2(m) <= Pow2(n)
    decreases n
  {
    if m >= n {
    } else {
      Pow2Grows(m, n - 1);
    }
  }

  lemma TimesGrows(a: nat, p: nat, q: nat)
    requires p <= q
    ensures a * p <= a * q
  {
  }

  lemma {:induction false} Pow2Adds(m: nat, n: nat)
    ensures Pow2(m + n) == Pow2(m) * Pow2(n)
    decreases n
  {
    if n == 0 {
    } else {
      Pow2Adds(m, n - 1);
      assert Pow2(m + n) == 2 * (Pow2(m) * Pow2(n - 1));
    }
  }

  lemma Pow2Square(n: nat, twice: nat, p: nat)
    requires twice == n + n && Pow2(n) == p
    ensures Pow2(twice) == p * p
  {
    Pow2Adds(n, n);
  }

  lemma Pow2Of(n4: nat, n8: nat, n16: nat, n32: nat, n64: nat)
    requires n4 == 4 && n8 == n4 + n4 && n16 == n8 + n8 && n32 == n16 + n16 && n64 == n32 + n32
    ensures Pow2(n64) == 0x1_0000_0000_0000_0000
  {
    assert Pow2(4) == 16;
    Pow2Square(n4, n8, 16);
    Pow2Square(n8, n16, 256);
    Pow2Square(n16, n32, 0x1_0000);
    Pow2Square(n32, n64, 0x1_0000_0000);
  }

  lemma ShiftCapIsWide(cap: nat)
    requires cap == 127
    ensures Pow2(cap) > U64_MAX
  {
    Pow2Of(4, 8, 16, 32, 64);
    Pow2Grows(64, cap);
  }

  // Three cut-offs come down to one: the delay documented, never more than 2^64 - 1 nanoseconds.
  lemma BackoffIs(base: nat, maxDelay: nat, retryNumber: nat)
    ensures ExponentialBackoff(base, maxDelay, retryNumber)
            == Min(Min(base * Pow2(if retryNumber == 0 then 0 else retryNumber - 1), maxDelay),
                   18_446_744_073_709_551_615)
  {
    var exp := SaturatingSub1(retryNumber);
    if exp > 127 && base > 0 {
      ShiftCapIsWide(127);
      Pow2Grows(127, exp);
      TimesGrows(Pow2(127), 1, base);
      TimesGrows(Pow2(exp), 1, base);
    }
  }

  lemma BackoffIsExactlyDocumented(base: nat, maxDelay: nat, k: nat)
    requires k >= 1
    ensures ExponentialBackoff(base, maxDelay, k) == Min(base * Pow2(k - 1), maxDelay)
            <==> base * Pow2(k - 1) <= 18_446_744_073_709_551_615 || maxDelay <= 18_446_744_073_709_551_615
  {
    BackoffIs(base, maxDelay, k);
  }

  lemma BackoffNeverShrinks(base: nat, maxDelay: nat, j: nat, k: nat)
    requires j <= k
    ensures ExponentialBackoff(base, maxDelay, j) <= ExponentialBackoff(base, maxDelay, k) <= maxDelay
  {
    BackoffIs(base, maxDelay, j);
    BackoffIs(base, maxDelay, k);
    Pow2Grows(SaturatingSub1(j), SaturatingSub1(k));
    TimesGrows(base, Pow2(SaturatingSub1(j)), Pow2(SaturatingSub1(k)));
  }

  // ---------------------------------------------------------------- the policy and its loop

  // The wait before another call, if there is to be one after `attempts` calls.
  function NextDelay(maxAttempts: nat, baseDelay: nat, maxDelay: nat, attempts: nat, shouldRetry: bool): Option<nat> {
    if attempts < maxAttempts && shouldRetry then Some(ExponentialBackoff(baseDelay, maxDelay, attempts)) else None
  }

  class RetryPolicy {
    const maxAttempts: nat
    const baseDelay: nat
    const maxDelay: nat
    var attempts: nat

    constructor (maxAttempts: nat, baseDelay: nat, maxDelay: nat)
      ensures this.maxAttempts == maxAttempts && this.baseDelay == baseDelay && this.maxDelay == maxDelay
      ensures attempts == 0
    {
      this.maxAttempts, this.baseDelay, this.maxDelay := maxAttempts, baseDelay, maxDelay;
      attempts := 0;
    }

    method Retry(shouldRetry: bool) returns (delay: Option<nat>)
      modifies this`attempts
      ensures attempts == old(attempts) + 1
      ensures delay == NextDelay(maxAttempts, baseDelay, maxDelay, attempts, shouldRetry)
    {
      attempts := attempts + 1;
      if attempts >= maxAttempts {
        return None;
      }
      if !shouldRetry {
        return None;
      }
      delay := Some(ExponentialBackoff(baseDelay, maxDelay, attempts));
    }
  }

  // The first `n` waits.
  function Waits(base: nat, maxDelay: nat, n: nat): (r: seq<nat>)
    ensures |r| == n
  {
    if n == 0 then [] else Waits(base, maxDelay, n - 1) + [ExponentialBackoff(base, maxDelay, n)]
  }

  function Sum(s: seq<nat>): nat {
    if s == [] then 0 else Sum(s[..|s| - 1]) + s[|s| - 1]
  }

  // One request through the layer: `retriable(i)` says whether the rule would retry the answer to
  // the call numbered i.  The last call is the first that is refused a retry.
  method CallWithRetries(maxAttempts: nat, baseDelay: nat, maxDelay: nat, retriable: nat -> bool)
    returns (calls: nat, waits: seq<nat>)
    ensures 1 <= calls <= if maxAttempts > 1 then maxAttempts else 1
    ensures calls >= maxAttempts || !retriable(calls - 1)
    ensures forall i: nat :: i < calls - 1 ==> retriable(i)
    ensures waits == Waits(baseDelay, maxDelay, calls - 1)
  {
    var policy := new RetryPolicy(maxAttempts, baseDelay, maxDelay);
    calls, waits := 1, [];
    var delay := policy.Retry(retriable(0));
    while delay.Some?
      invariant calls >= 1 && policy.attempts == calls
      invariant delay == NextDelay(maxAttempts, baseDelay, maxDelay, calls, retriable(calls - 1))
      invariant calls <= if maxAttempts > 1 then maxAttempts else 1
      invariant forall i: nat :: i < calls - 1 ==> retriable(i)
      invariant waits == Waits(baseDelay, maxDelay, calls - 1)
      decreases maxAttempts - calls, if delay.Some? then 1 else 0
    {
      assert waits + [delay.value] == Waits(baseDelay, maxDelay, calls);
      waits := waits + [delay.value];
      calls := calls + 1;
      delay := policy.Retry(retriable(calls - 1));
    }
  }

  // ---------------------------------------------------------------- total waiting

  lemma AddCapped(n: nat, cap: nat, sum: nat, wait: nat)
    requires n > 0 && sum <= (n - 1) * cap && wait <= cap
    ensures sum + wait <= n * cap
  {
    assert n * cap == (n - 1) * cap + cap;
  }

  lemma AddDoubled(a: nat, p: nat, sum: nat, wait: nat)
    requires p >= 1 && sum <= a * (p - 1) && wait <= a * p
    ensures sum + wait <= a * (2 * p - 1)
    ensures sum == a * (p - 1) && wait == a * p ==> sum + wait == a * (2 * p - 1)
  {
    assert a * (p - 1) + a * p == a * (2 * p - 1);
  }

  lemma WaitWithoutCap(base: nat, maxDelay: nat, n: nat, doubled: nat)
    requires n > 0 && doubled == base * Pow2(n - 1)
    ensures ExponentialBackoff(base, maxDelay, n) <= doubled
    ensures doubled <= Min(maxDelay, U64_MAX) ==> ExponentialBackoff(base, maxDelay, n) == doubled
  {
    BackoffIs(base, maxDelay, n);
  }

  lemma SumOfWaits(base: nat, maxDelay: nat, n: nat)
    ensures Sum(Waits(base, maxDelay, n))
            == if n == 0 then 0
               else Sum(Waits(base, maxDelay, n - 1)) + ExponentialBackoff(base, maxDelay, n)
  {
    if n > 0 {
      var w := Waits(base, maxDelay, n);
      assert w[..n - 1] == Waits(base, maxDelay, n - 1);
    }
  }

  // Waiting is bounded by the cap for every retry, and by the doubling delays themselves.
  lemma {:induction false} WaitingIsCapped(base: nat, maxDelay: nat, n: nat)
    ensures Sum(Waits(base, maxDelay, n)) <= n * maxDelay
  {
    SumOfWaits(base, maxDelay, n);
    if n == 0 {
    } else {
      WaitingIsCapped(base, maxDelay, n - 1);
      AddCapped(n, maxDelay, Sum(Waits(base, maxDelay, n - 1)), ExponentialBackoff(base, maxDelay, n));
    }
  }

  // The total of the first `n` waits is bounded by the sum of the doubling delays, and equals it as
  // long as no wait is cut off.
  ghost predicate Geometric(base: nat, maxDelay: nat, n: nat, total: nat) {
    && total <= base * (Pow2(n) - 1)
    && (base * Pow2(SaturatingSub1(n)) <= Min(maxDelay, U64_MAX) ==> total == base * (Pow2(n) - 1))
  }

  lemma GeometricStep(base: nat, maxDelay: nat, n: nat, before: nat, wait: nat)
    requires n > 0 && Geometric(base, maxDelay, n - 1, before) && wait == ExponentialBackoff(base, maxDelay, n)
    ensures Geometric(base, maxDelay, n, before + wait)
  {
    var p := Pow2(n - 1);
    Pow2Grows(SaturatingSub1(n - 1), n - 1);
    TimesGrows(base, Pow2(SaturatingSub1(n - 1)), p);
    WaitWithoutCap(base, maxDelay, n, base * p);
    AddDoubled(base, p, before, wait);
  }

  lemma {:induction false} WaitsAreGeometric(base: nat, maxDelay: nat, n: nat)
    ensures Geometric(base, maxDelay, n, Sum(Waits(base, maxDelay, n)))
  {
    SumOfWaits(base, maxDelay, n);
    if n == 0 {
      assert Geometric(base, maxDelay, 0, 0);
    } else {
      WaitsAreGeometric(base, maxDelay, n - 1);
      GeometricStep(base, maxDelay, n, Sum(Waits(base, maxDelay, n - 1)), ExponentialBackoff(base, maxDelay, n));
    }
  }

  lemma WaitingIsGeometric(base: nat, maxDelay: nat, n: nat)
    ensures Sum(Waits(base, maxDelay, n)) <= base * (Pow2(n) - 1)
    ensures base * Pow2(SaturatingSub1(n)) <= Min(maxDelay, U64_MAX) ==>
              Sum(Waits(base, maxDelay, n)) == base * (Pow2(n) - 1)
  {
    WaitsAreGeometric(base, maxDelay, n);
  }
}
