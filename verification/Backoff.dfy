/**
  `calculate_backoff` of `backend/src/jobs/email_worker.rs`: exponential backoff in 64-bit integers,
  a random jitter of a tenth, and the addition to the current date. `None` is a panic.

  A delay that overflows panics in a build with overflow checks and wraps in one without. The tenth
  is an integer division: the float product truncates to the same below 2^50, and longer delays leave
  the range of dates (`HopelessExactly`).
 */
module Backoff {
  import opened Wrappers

  const I64_MAX: int := 0x7fff_ffff_ffff_ffff

  type i32 = x: int | -0x8000_0000 <= x <= 0x7fff_ffff

  type i64 = x: int | -I64_MAX - 1 <= x <= I64_MAX

  /** The seconds since 1970 that a date of the `chrono` library can hold. A `Duration` holds more
      seconds than there are between any two of them, so it needs no check of its own. */
  const FIRST_SECOND: int := -8_334_601_228_800
  const LAST_SECOND: int := 8_210_266_876_799
  const SPAN: int := LAST_SECOND - FIRST_SECOND

  type Instant = t: int | FIRST_SECOND <= t <= LAST_SECOND

  predicate InI64(x: int) { -I64_MAX - 1 <= x <= I64_MAX }

  predicate IsInstant(t: int) { FIRST_SECOND <= t <= LAST_SECOND }

  /** The retry settings, and whether the build checks for overflow. */
  datatype Delays = Delays(base: i64, cap: i64, checked: bool)

  /** The 64-bit value that differs from `x` by a multiple of 2^64. */
  function Wrap(x: int): (r: i64)
    ensures InI64(x) ==> r == x
    decreases if InI64(x) then 0 else Magnitude(x)
  {
    if InI64(x) then x else if x > 0 then Wrap(x - 2 * (I64_MAX + 1)) else Wrap(x + 2 * (I64_MAX + 1))
  }

  lemma {:induction false} WrapIs(x: int)
    ensures exists k: int :: Wrap(x) == x + k * 0x1_0000_0000_0000_0000
    decreases if InI64(x) then 0 else Magnitude(x)
  {
    if InI64(x) {
      assert Wrap(x) == x + 0 * 0x1_0000_0000_0000_0000;
    } else {
      var step := if x > 0 then -1 else 1;
      WrapIs(x + step * 0x1_0000_0000_0000_0000);
      var k: int :| Wrap(x + step * 0x1_0000_0000_0000_0000) == x + step * 0x1_0000_0000_0000_0000 + k * 0x1_0000_0000_0000_0000;
      assert Wrap(x) == x + (k + step) * 0x1_0000_0000_0000_0000;
    }
  }

  /** A tenth, truncated toward zero. */
  function Tenth(x: int): int { if x >= 0 then x / 10 else -((-x) / 10) }

  function Magnitude(x: int): nat { if x >= 0 then x else -x }

  /** `rem_euclid`, for which the sign of the divisor does not matter. */
  function Remainder(r: int, m: nat): (x: nat)
    requires m > 0
    ensures x < m && (0 <= r < m ==> x == r)
    decreases if r < 0 then m - r else r
  {
    if r < 0 then Remainder(r + m, m) else if r < m then r else Remainder(r - m, m)
  }

  lemma {:induction false} RemainderIs(r: int, m: nat)
    requires m > 0
    ensures Remainder(r, m) == r % m
    decreases if r < 0 then m - r else r
  {
    if r < 0 {
      RemainderIs(r + m, m);
      ShiftedRemainder(r, m);
    } else if r >= m {
      RemainderIs(r - m, m);
      ShiftedRemainder(r - m, m);
    }
  }

  lemma {:induction false} ShiftedRemainder(r: int, m: nat)
    requires m > 0
    ensures (r + m) % m == r % m
  {
    var q := r / m;
    assert r + m == (q + 1) * m + r % m;
    UniqueQuotient((r + m) / m - (q + 1), (r + m) % m - r % m, m);
  }

  lemma MulBounds(k: int, m: int)
    requires m > 0
    ensures k >= 1 ==> k * m >= m
    ensures k <= -1 ==> k * m <= -m
  {
  }

  lemma {:induction false} UniqueQuotient(k: int, d: int, m: int)
    requires m > 0 && -m < d < m && k * m + d == 0
    ensures k == 0 && d == 0
  {
    MulBounds(k, m);
  }

  /** The cast of the attempt count. */
  function AsU32(attempt: int): nat { attempt % U32_RANGE }

  /** `x * 2^n`, as `DoubledIs` says. */
  function Doubled(x: int, n: nat): int {
    if n == 0 then x else 2 * Doubled(x, n - 1)
  }

  lemma {:induction false} DoubledIs(x: int, n: nat)
    ensures Doubled(x, n) == x * Pow2(n)
  {
    if n > 0 {
      DoubledIs(x, n - 1);
      assert 2 * (x * Pow2(n - 1)) == x * (2 * Pow2(n - 1));
    }
  }

  /** The delay before jitter, in unbounded integers. */
  function PlainDelay(p: Delays, n: nat): int { Min(Doubled(p.base, n), p.cap) }

  predicate PowerOverflows(p: Delays, n: nat) { n >= 63 || !InI64(Doubled(p.base, n)) }

  lemma {:induction false} PlainDelayIs(p: Delays, n: nat)
    ensures PlainDelay(p, n) == Min(p.base * Pow2(n), p.cap)
  {
    DoubledIs(p.base, n);
  }

  /** The delay before jitter, as the build computes it. */
  function CappedDelay(p: Delays, n: nat): Option<i64> {
    if !PowerOverflows(p, n) then Some(PlainDelay(p, n))
    else if p.checked then None
    else Some(Min(Wrap(Doubled(p.base, n)), p.cap))
  }

  /** The delay moved by a random amount; a jitter of zero is a remainder by zero. */
  function Jittered(p: Delays, d: i64, random: int): Option<i64> {
    var jitter := Tenth(d);
    if jitter == 0 then None else
      var sum := d + Remainder(random, 2 * Magnitude(jitter));
      if p.checked && !InI64(sum) then None else Some(Wrap(sum - jitter))
  }

  /** The result as a number of seconds from `now`. */
  function CalculateBackoff(p: Delays, attempt: int, random: int, now: Instant): Option<i64> {
    var d := CappedDelay(p, AsU32(attempt));
    if d.None? then None else
      var delay := Jittered(p, d.value, random);
      if delay.None? || !IsInstant(now + delay.value) then None else delay
  }

  // ------------------------------------------------------------------------ one delay

  /** The least and the greatest result of the jitter. */
  function Earliest(d: int): int { d - Tenth(d) }

  function Latest(d: int): int { Earliest(d) + 2 * Magnitude(Tenth(d)) - 1 }

  lemma WrapsFar(x: int)
    requires I64_MAX < x <= I64_MAX + I64_MAX / 2
    ensures Wrap(x) < -SPAN
  {
  }

  /** Every draw lies between the two, unless the sum overflows; it then panics, or wraps to a value
      that no date can be moved by. */
  lemma {:induction false} DrawRange(p: Delays, d: i64, r: int)
    requires Tenth(d) != 0 && Jittered(p, d, r).Some?
    ensures Earliest(d) <= Jittered(p, d, r).value <= Latest(d) || Jittered(p, d, r).value < -SPAN
  {
    var m := 2 * Magnitude(Tenth(d));
    var draw := Earliest(d) + Remainder(r, m);
    if !InI64(draw) {
      WrapsFar(draw);
    }
  }

  /** A draw whose sum fits is the same in both builds. */
  lemma {:induction false} PlainDraw(p: Delays, d: i64, r: int)
    requires Tenth(d) != 0 && InI64(d + Remainder(r, 2 * Magnitude(Tenth(d))))
    ensures Jittered(p, d, r) == Some(Earliest(d) + Remainder(r, 2 * Magnitude(Tenth(d))))
  {
  }

  /** A delay whose greatest result gives a date is far from overflowing. */
  lemma DatedSumFits(d: i64, x: nat, now: Instant)
    requires IsInstant(now + Latest(d)) && x < 2 * Magnitude(Tenth(d))
    ensures InI64(d + x)
  {
  }

  /** Whatever the clock and the draw, a result is within the jitter of the delay and gives a date. */
  lemma {:induction false} ResultRange(p: Delays, attempt: int, r: int, now: Instant)
    requires CalculateBackoff(p, attempt, r, now).Some?
    ensures var d := CappedDelay(p, AsU32(attempt));
            && d.Some? && Tenth(d.value) != 0
            && Earliest(d.value) <= CalculateBackoff(p, attempt, r, now).value <= Latest(d.value)
            && IsInstant(now + CalculateBackoff(p, attempt, r, now).value)
  {
    DrawRange(p, CappedDelay(p, AsU32(attempt)).value, r);
  }

  /** The delay lies within a tenth of `min(base * 2^n, cap)`. */
  predicate WithinTenth(p: Delays, n: nat, delay: int) {
    && var d := PlainDelay(p, n);
    && d - Tenth(d) <= delay
    && (p.base > 0 && p.cap > 0 ==> d >= 10 && d - d / 10 <= delay < d + d / 10)
  }

  /** Unless the power wraps, every delay lies within a tenth of `min(base * 2^n, cap)`. */
  lemma {:induction false} BackoffRange(p: Delays, n: nat, r: int, now: Instant)
    requires n < U32_RANGE && CalculateBackoff(p, n, r, now).Some? && (p.checked || !PowerOverflows(p, n))
    ensures var d, delay := Min(p.base * Pow2(n), p.cap), CalculateBackoff(p, n, r, now).value;
            && d - Tenth(d) <= delay
            && (p.base > 0 && p.cap > 0 ==> d >= 10 && d - d / 10 <= delay < d + d / 10)
  {
    PlainDelayIs(p, n);
    DelayRange(p, n, r, now);
  }

  lemma {:induction false} DelayRange(p: Delays, n: nat, r: int, now: Instant)
    requires n < U32_RANGE && CalculateBackoff(p, n, r, now).Some? && (p.checked || !PowerOverflows(p, n))
    ensures WithinTenth(p, n, CalculateBackoff(p, n, r, now).value)
  {
    ResultRange(p, n, r, now);
    assert CappedDelay(p, AsU32(n)) == Some(PlainDelay(p, n));
    EndsAreTenths(p, n, CalculateBackoff(p, n, r, now).value);
  }

  lemma {:induction false} EndsAreTenths(p: Delays, n: nat, delay: int)
    requires var d := PlainDelay(p, n); Tenth(d) != 0 && Earliest(d) <= delay <= Latest(d)
    ensures WithinTenth(p, n, delay)
  {
    if p.base > 0 && p.cap > 0 {
      DoubledMonotone(p.base, n, n);
      PositiveEnds(PlainDelay(p, n));
    }
  }

  lemma PositiveEnds(d: int)
    requires d > 0 && Tenth(d) != 0
    ensures d >= 10 && Earliest(d) == d - d / 10 && Latest(d) == d + d / 10 - 1
  {
  }

  /** The second retry of the default settings waits between 108 and 131 seconds. */
  lemma {:induction false} DefaultSecondRetry(p: Delays, r: int, now: Instant)
    requires p.base == 60 && p.cap == 3600 && now <= LAST_SECOND - 132
    ensures CalculateBackoff(p, 1, r, now) == Some(108 + r % 24)
  {
    assert Doubled(p.base, 1) == 2 * Doubled(p.base, 0);
    RemainderIs(r, 24);
    SafeYields(p, 1, r, now);
  }

  /** The hypothesis is needed: here the power wraps and the email is due before it failed. */
  lemma WrappedDelay(p: Delays, now: Instant)
    requires p == Delays(I64_MAX - 49, 3600, false) && now == 0
    ensures CalculateBackoff(p, 1, 0, now) == Some(-90)
  {
    assert Doubled(p.base, 1) == 2 * Doubled(p.base, 0);
    assert CappedDelay(p, 1) == Some(-100);
  }

  // ---------------------------------------------------------------- one attempt, any draw

  /** The delay has a jitter, and both ends of it give dates. */
  predicate SafeDelay(d: int, now: Instant) {
    Tenth(d) != 0 && IsInstant(now + Earliest(d)) && IsInstant(now + Latest(d))
  }

  /** No draw at the time `now` can fault. */
  predicate BackoffSafe(p: Delays, n: nat, now: Instant) {
    CappedDelay(p, n).Some? && SafeDelay(CappedDelay(p, n).value, now)
  }

  lemma {:induction false} SafeDraw(p: Delays, d: i64, r: int, now: Instant)
    requires SafeDelay(d, now)
    ensures var x := Earliest(d) + Remainder(r, 2 * Magnitude(Tenth(d))); Jittered(p, d, r) == Some(x) && IsInstant(now + x)
  {
    DatedSumFits(d, Remainder(r, 2 * Magnitude(Tenth(d))), now);
    PlainDraw(p, d, r);
  }

  lemma {:induction false} SafeYields(p: Delays, n: nat, r: int, now: Instant)
    requires n < U32_RANGE && BackoffSafe(p, n, now)
    ensures var d := CappedDelay(p, n).value;
            CalculateBackoff(p, n, r, now) == Some(Earliest(d) + Remainder(r, 2 * Magnitude(Tenth(d))))
  {
    assert AsU32(n) == n;
    SafeDraw(p, CappedDelay(p, n).value, r, now);
  }

  /** One of the two extreme draws faults. */
  lemma {:induction false} UnsafeFaults(p: Delays, n: nat, now: Instant) returns (r: int)
    requires n < U32_RANGE && !BackoffSafe(p, n, now)
    ensures CalculateBackoff(p, n, r, now).None?
  {
    if CappedDelay(p, n).None? || Tenth(CappedDelay(p, n).value) == 0 {
      return 0;
    }
    var d := CappedDelay(p, n).value;
    var m := 2 * Magnitude(Tenth(d));
    r := if IsInstant(now + Earliest(d)) then m - 1 else 0;
    PlainDraw(p, d, r);
  }

  /** In either build the condition is exact. */
  lemma {:induction false} BackoffSafeExactly(p: Delays, n: nat, now: Instant)
    requires n < U32_RANGE
    ensures BackoffSafe(p, n, now) <==> forall r :: CalculateBackoff(p, n, r, now).Some?
  {
    if BackoffSafe(p, n, now) {
      forall r ensures CalculateBackoff(p, n, r, now).Some? { SafeYields(p, n, r, now); }
    } else {
      var r := UnsafeFaults(p, n, now);
    }
  }

  /** Unless the power overflows, both builds compute the same delays from safe settings. */
  lemma {:induction false} BuildsAgree(p: Delays, n: nat, r: int, now: Instant)
    requires n < U32_RANGE && !PowerOverflows(p, n) && BackoffSafe(p, n, now)
    ensures CalculateBackoff(p, n, r, now) == CalculateBackoff(p.(checked := !p.checked), n, r, now)
  {
    SafeYields(p, n, r, now);
    SafeYields(p.(checked := !p.checked), n, r, now);
  }

  // ------------------------------------------------------------------------ all attempts

  /** Every attempt below the limit is safe. */
  ghost predicate AllSafe(p: Delays, limit: i32, now: Instant) {
    forall k: nat :: k < limit ==> BackoffSafe(p, k, now)
  }

  /** In either build, no attempt below the limit faults for any draw exactly when all are safe. */
  lemma {:induction false} NeverFaultsExactly(p: Delays, limit: i32, now: Instant)
    ensures AllSafe(p, limit, now) <==> forall k: nat, r :: k < limit ==> CalculateBackoff(p, k, r, now).Some?
  {
    if AllSafe(p, limit, now) {
      forall k: nat, r | k < limit ensures CalculateBackoff(p, k, r, now).Some? {
        SafeYields(p, k, r, now);
      }
    } else {
      var k: nat :| k < limit && !BackoffSafe(p, k, now);
      var r := UnsafeFaults(p, k, now);
    }
  }

  /** The last power fits, and the first and the last attempt are safe. */
  predicate SafeThroughout(p: Delays, limit: i32, now: Instant) {
    limit >= 1 ==> !PowerOverflows(p, limit - 1) && BackoffSafe(p, 0, now) && BackoffSafe(p, limit - 1, now)
  }

  /** No power below the limit can wrap, because the build checks it or because it fits. */
  predicate NeverWraps(p: Delays, limit: i32) {
    p.checked || limit <= 0 || !PowerOverflows(p, limit - 1)
  }

  /** Doubling moves away from zero. */
  lemma {:induction false} DoubledMonotone(x: int, m: nat, n: nat)
    requires m <= n
    ensures x >= 0 ==> x <= Doubled(x, m) <= Doubled(x, n)
    ensures x <= 0 ==> Doubled(x, n) <= Doubled(x, m) <= x
    decreases n
  {
    if m < n {
      DoubledMonotone(x, m, n - 1);
    } else if n > 0 {
      DoubledMonotone(x, n - 1, n - 1);
    }
  }

  lemma EndsMonotone(d: int, e: int)
    requires d <= e
    ensures Earliest(d) <= Earliest(e)
    ensures d >= 10 ==> Latest(d) <= Latest(e)
  {
  }

  /** A negative delay stays negative, so that no draw goes past the last date. */
  lemma NegativeDraws(d: int)
    requires d <= -10
    ensures Earliest(d) <= Latest(d) < 0
  {
  }

  lemma {:induction false} DelaysMonotone(p: Delays, m: nat, n: nat)
    requires m <= n
    ensures p.base >= 0 ==> PlainDelay(p, m) <= PlainDelay(p, n)
    ensures p.base <= 0 ==> PlainDelay(p, n) <= PlainDelay(p, m) <= 0
    ensures p.base >= 0 > p.cap ==> PlainDelay(p, m) == PlainDelay(p, n)
  {
    DoubledMonotone(p.base, m, n);
  }

  lemma {:induction false} SafeDelayBetween(d: int, e: int, f: int, now: Instant)
    requires SafeDelay(d, now) && SafeDelay(f, now) && (0 < d <= e <= f || f <= e <= d < 0)
    ensures SafeDelay(e, now)
  {
    if d > 0 {
      EndsMonotone(d, e);
      EndsMonotone(e, f);
    } else {
      EndsMonotone(f, e);
      NegativeDraws(e);
    }
  }

  /** Between two safe attempts every attempt is safe, as long as no power overflows. */
  lemma {:induction false} SafeBetween(p: Delays, k: nat, n: nat, now: Instant)
    requires k <= n && !PowerOverflows(p, n) && BackoffSafe(p, 0, now) && BackoffSafe(p, n, now)
    ensures BackoffSafe(p, k, now)
  {
    DoubledMonotone(p.base, k, n);
    DoubledMonotone(p.base, 0, k);
    DelaysMonotone(p, 0, k);
    DelaysMonotone(p, k, n);
    SafeDelayBetween(PlainDelay(p, 0), PlainDelay(p, k), PlainDelay(p, n), now);
  }

  /** Where no power wraps, the first and the last attempt decide for all. */
  lemma {:induction false} FirstAndLastDecide(p: Delays, limit: i32, now: Instant)
    requires NeverWraps(p, limit)
    ensures SafeThroughout(p, limit, now) <==> AllSafe(p, limit, now)
  {
    if SafeThroughout(p, limit, now) {
      forall k: nat | k < limit ensures BackoffSafe(p, k, now) {
        SafeBetween(p, k, limit - 1, now);
      }
    } else {
      assert !BackoffSafe(p, 0, now) || !BackoffSafe(p, limit - 1, now);
    }
  }

  /** Settings that separate the builds: with wrapping no draw faults, with checks the second attempt does. */
  lemma {:induction false} BuildsDiffer(p: Delays, now: Instant)
    requires p == Delays(I64_MAX - 49, 3600, false) && now == 0
    ensures AllSafe(p, 2, now) && !BackoffSafe(p.(checked := true), 1, now)
  {
    assert Doubled(p.base, 1) == 2 * Doubled(p.base, 0);
    assert CappedDelay(p, 1) == Some(-100) && CappedDelay(p, 0) == Some(3600);
  }

  /** With wrapping, the first and the last attempt do not decide: here only the one between faults. */
  lemma {:induction false} MiddleFaults(p: Delays, now: Instant)
    requires p == Delays(I64_MAX - 2, 3600, false) && now == 0
    ensures BackoffSafe(p, 0, now) && !BackoffSafe(p, 1, now) && BackoffSafe(p, 2, now)
  {
    assert Doubled(p.base, 1) == 2 * Doubled(p.base, 0) && Doubled(p.base, 2) == 2 * Doubled(p.base, 1);
    assert Wrap(4 * p.base) == Wrap(4 * p.base - 2 * (I64_MAX + 1)) == Wrap(4 * p.base - 4 * (I64_MAX + 1));
    assert CappedDelay(p, 0) == Some(3600) && CappedDelay(p, 1) == Some(-6) && CappedDelay(p, 2) == Some(-12);
  }

  /** With base and cap of at least ten, that is a condition on the largest delay alone. */
  lemma {:induction false} LargestDelayDecides(p: Delays, limit: i32, now: Instant)
    requires p.base >= 10 && p.cap >= 10 && limit >= 1
    ensures var product := p.base * Pow2(limit - 1);
            var d := Min(product, p.cap);
            SafeThroughout(p, limit, now) <==> limit <= 63 && product <= I64_MAX && now + d + d / 10 - 1 <= LAST_SECOND
  {
    DoubledIs(p.base, limit - 1);
    DoubledMonotone(p.base, 0, limit - 1);
    EndsMonotone(PlainDelay(p, 0), PlainDelay(p, limit - 1));
  }

  /** The default settings are safe for as long as dates last. */
  lemma DefaultsAreSafe(p: Delays, now: Instant)
    requires p.base == 60 && p.cap == 3600 && now <= LAST_SECOND - 263
    ensures SafeThroughout(p, 3, now)
  {
    assert Doubled(60, 2) == 240;
  }

  // ---------------------------------------------------------------------- hopeless attempts

  /** Every draw from the time `clock` on faults. */
  predicate Hopeless(p: Delays, n: nat, clock: Instant) {
    var d := CappedDelay(p, n);
    d.None? || Tenth(d.value) == 0 || clock + Earliest(d.value) > LAST_SECOND || Latest(d.value) < -SPAN
  }

  lemma {:induction false} HopelessExactly(p: Delays, attempt: int, clock: Instant)
    ensures Hopeless(p, AsU32(attempt), clock)
            <==> forall r, now: Instant :: clock <= now ==> CalculateBackoff(p, attempt, r, now).None?
  {
    if Hopeless(p, AsU32(attempt), clock) {
      forall r, now: Instant | clock <= now ensures CalculateBackoff(p, attempt, r, now).None? {
        if CalculateBackoff(p, attempt, r, now).Some? {
          ResultRange(p, attempt, r, now);
        }
      }
    } else {
      var r := HopefulDraw(p, attempt, clock);
    }
  }

  /** The first time from `clock` on at which some draw succeeds. */
  function FirstHope(p: Delays, n: nat, clock: Instant): (now: Instant)
    requires !Hopeless(p, n, clock)
    ensures clock <= now
  {
    Max(clock, FIRST_SECOND - Latest(CappedDelay(p, n).value))
  }

  /** The draw that fits best before the last and after the first date. */
  function BestDraw(d: int): int { if d > 0 then Earliest(d) else Latest(d) }

  lemma {:induction false} HopefulDraw(p: Delays, attempt: int, clock: Instant) returns (r: int)
    requires !Hopeless(p, AsU32(attempt), clock)
    ensures CalculateBackoff(p, attempt, r, FirstHope(p, AsU32(attempt), clock))
            == Some(BestDraw(CappedDelay(p, AsU32(attempt)).value))
  {
    var d := CappedDelay(p, AsU32(attempt)).value;
    r := if d > 0 then 0 else 2 * Magnitude(Tenth(d)) - 1;
    PlainDraw(p, d, r);
  }

  /** When the email can be fetched again after a failure at the first such time. */
  function NextFetch(p: Delays, n: nat, clock: Instant): (t: Instant)
    requires !Hopeless(p, n, clock)
    ensures FirstHope(p, n, clock) <= t && FirstHope(p, n, clock) + BestDraw(CappedDelay(p, n).value) <= t
  {
    FirstHope(p, n, clock) + Max(0, BestDraw(CappedDelay(p, n).value))
  }

  /** The calendar is long enough for the retries from `n` up to the limit, each as soon as it can be. */
  predicate Feasible(p: Delays, n: nat, limit: int, clock: Instant)
    decreases limit - n
  {
    n >= limit || (!Hopeless(p, n, clock) && Feasible(p, n + 1, limit, NextFetch(p, n, clock)))
  }

  lemma MulPred(n: nat, m: nat)
    requires n > 0
    ensures n * m == (n - 1) * m + m && (n - 1) * m >= 0
  {
  }

  lemma {:induction false} WithinCap(p: Delays, n: nat, clock: Instant)
    requires p.base >= 10 && p.cap >= 10 && !PowerOverflows(p, n) && clock + p.cap <= LAST_SECOND
    ensures !Hopeless(p, n, clock) && NextFetch(p, n, clock) <= clock + p.cap
  {
    DoubledMonotone(p.base, n, n);
    PositiveEnds(PlainDelay(p, n));
  }

  /** With base and cap of at least ten it is, if `limit` times the cap fits before the last date. */
  lemma {:induction false} CalendarSuffices(p: Delays, n: nat, limit: nat, clock: Instant)
    requires p.base >= 10 && p.cap >= 10 && n <= limit && (limit > 0 ==> !PowerOverflows(p, limit - 1))
    requires clock + (limit - n) * p.cap <= LAST_SECOND
    ensures Feasible(p, n, limit, clock)
    decreases limit - n
  {
    if n < limit {
      DoubledMonotone(p.base, n, limit - 1);
      MulPred(limit - n, p.cap);
      WithinCap(p, n, clock);
      CalendarSuffices(p, n + 1, limit, NextFetch(p, n, clock));
    }
  }

  lemma {:induction false} DoubledTwice(x: int, m: nat, n: nat)
    ensures Doubled(x, m + n) == Doubled(Doubled(x, m), n)
  {
    if n > 0 { DoubledTwice(x, m, n - 1); }
  }

  lemma {:induction false} DoubledTen(x: int)
    ensures Doubled(x, 10) == 0x400 * x
  {
    DoubledIs(x, 10);
    assert Pow2(10) == 0x400;
  }

  lemma {:induction false} Doubled59(x: int)
    ensures Doubled(x, 59) == 0x800_0000_0000_0000 * x
  {
    DoubledTwice(x, 9, 50);
    var y := Doubled(x, 9);
    DoubledIs(x, 9);
    assert Pow2(9) == 0x200;
    DoubledTwice(y, 10, 40);
    DoubledTwice(0x400 * y, 10, 30);
    DoubledTwice(0x10_0000 * y, 10, 20);
    DoubledTwice(0x4000_0000 * y, 10, 10);
    DoubledTen(y);
    DoubledTen(0x400 * y);
    DoubledTen(0x10_0000 * y);
    DoubledTen(0x4000_0000 * y);
    DoubledTen(0x100_0000_0000 * y);
  }

  /** The power alone overflows from the exponent 63 on. */
  lemma {:induction false} PowerOverflowsExactly(p: Delays, n: nat)
    ensures PowerOverflows(p, n) <==> !InI64(Pow2(n)) || !InI64(p.base * Pow2(n))
  {
    DoubledIs(p.base, n);
    DoubledIs(1, n);
    DoubledIs(1, 62);
    Doubled59(1);
    DoubledTwice(1, 59, 3);
    assert Doubled(Doubled(1, 59), 3) == 8 * Doubled(1, 59) by { Doubled3(Doubled(1, 59)); }
    if n >= 63 {
      assert Doubled(1, 63) == 2 * Doubled(1, 62);
      DoubledMonotone(1, 63, n);
    } else {
      DoubledMonotone(1, n, 62);
    }
  }

  lemma {:induction false} Doubled3(x: int)
    ensures Doubled(x, 3) == 8 * x
  {
    DoubledIs(x, 3);
    assert Pow2(3) == 8;
  }

  /** Base and cap of at least ten and a power within 64 bits are not enough. */
  lemma {:induction false} HugeDelayFaults(p: Delays, r: int, now: Instant)
    requires p.base == 14 && p.cap == I64_MAX
    ensures !PowerOverflows(p, 59) && CalculateBackoff(p, 59, r, now).None?
  {
    Doubled59(14);
    HopelessExactly(p, 59, now);
  }
}
