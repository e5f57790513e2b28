/**
  `with_retry` and `with_resilience` of `backend/src/middleware/reliability.rs`. Delays are whole
  milliseconds and the backoff multiplier is an integer.
 */
module Retry {
  import opened Wrappers
  import opened Digits

  datatype RetryCondition = Always | Never | Default

  datatype RetryConfig = RetryConfig(
    maxAttempts: u32,
    initialDelay: nat,
    maxDelay: nat,
    backoffMultiplier: nat,
    retryIf: RetryCondition)

  predicate ShouldRetry(c: RetryCondition) {
    !c.Never?
  }

  /** The most calls that `with_retry` can make. */
  function Limit(cfg: RetryConfig): u32 {
    if ShouldRetry(cfg.retryIf) then Max(1, cfg.maxAttempts) else 1
  }

  /** The sleep after failed call `k`, counted from 0: only the first one escapes the cap. */
  function SleepAfter(cfg: RetryConfig, k: nat): nat {
    if k == 0 then cfg.initialDelay else Min(cfg.initialDelay * Pow(cfg.backoffMultiplier, k), cfg.maxDelay)
  }

  /** How many calls are made when call `k` yields `f(k)` and `done` calls have failed already. */
  function CallsFrom<T, E>(f: nat -> Result<T, E>, done: nat, limit: nat): (n: nat)
    requires done < limit
    ensures done < n <= limit
    ensures f(n - 1).Err? ==> n == limit
    ensures forall k :: done <= k < n - 1 ==> f(k).Err?
    decreases limit - done
  {
    if f(done).Ok? || done + 1 == limit then done + 1 else CallsFrom(f, done + 1, limit)
  }

  function Calls<T, E>(cfg: RetryConfig, f: nat -> Result<T, E>): nat {
    CallsFrom(f, 0, Limit(cfg))
  }

  lemma {:induction false} MulAtLeast(x: nat, m: nat)
    requires m >= 1
    ensures x <= x * m
  {
    assert x * m == x + x * (m - 1);
  }

  lemma {:induction false} ClampTwice(x: nat, m: nat, cap: nat)
    ensures Min(Min(x, cap) * m, cap) == Min(x * m, cap)
  {
    if m > 0 {
      MulAtLeast(cap, m);
      MulAtLeast(x, m);
    }
  }

  lemma {:induction false} PowSucc(x: nat, m: nat, k: nat)
    ensures x * Pow(m, k + 1) == x * Pow(m, k) * m
  {
    var p := Pow(m, k);
    TimesIs(p, m);
    assert x * (p * m) == x * p * m;
  }

  /** Multiplying the clamped delay and clamping again is clamping the closed form. */
  lemma {:induction false} BackoffStep(cfg: RetryConfig, k: nat)
    ensures Min(SleepAfter(cfg, k) * cfg.backoffMultiplier, cfg.maxDelay) == SleepAfter(cfg, k + 1)
    ensures Pow(cfg.backoffMultiplier, 0) == 1
    ensures Pow(cfg.backoffMultiplier, k + 1) == Pow(cfg.backoffMultiplier, k) * cfg.backoffMultiplier
  {
    TimesIs(Pow(cfg.backoffMultiplier, k), cfg.backoffMultiplier);
    PowSucc(cfg.initialDelay, cfg.backoffMultiplier, k);
    ClampTwice(cfg.initialDelay * Pow(cfg.backoffMultiplier, k), cfg.backoffMultiplier, cfg.maxDelay);
  }

  /** The sleeps spelled out. */
  lemma {:induction false} SleepsAre(cfg: RetryConfig, k: nat)
    ensures SleepAfter(cfg, 0) == cfg.initialDelay
    ensures SleepAfter(cfg, k + 1) == Min(cfg.initialDelay * Pow(cfg.backoffMultiplier, k) * cfg.backoffMultiplier, cfg.maxDelay)
  {
    PowSucc(cfg.initialDelay, cfg.backoffMultiplier, k);
  }

  /** With the initial delay within the cap, every sleep is `min(initial * m^k, cap)`; otherwise the
      first one is not. */
  lemma {:induction false} FirstSleepCapped(cfg: RetryConfig)
    ensures (forall k: nat :: SleepAfter(cfg, k) == Min(cfg.initialDelay * Pow(cfg.backoffMultiplier, k), cfg.maxDelay))
            <==> cfg.initialDelay <= cfg.maxDelay
  {
    assert Pow(cfg.backoffMultiplier, 0) == 1;
    if cfg.maxDelay < cfg.initialDelay {
      assert SleepAfter(cfg, 0) != Min(cfg.initialDelay * Pow(cfg.backoffMultiplier, 0), cfg.maxDelay);
    }
  }

  /** `f(k)` is what the wrapped call returns the k-th time. The result is the first success, or the
      last error after exactly `Limit` calls. */
  method WithRetry<T, E>(cfg: RetryConfig, f: nat -> Result<T, E>)
    returns (r: Result<T, E>, attempts: nat, sleeps: seq<nat>)
    ensures 1 <= attempts <= Max(1, cfg.maxAttempts) && attempts == Calls(cfg, f)
    ensures r.Err? ==> attempts == if cfg.retryIf == Never then 1 else Max(1, cfg.maxAttempts)
    ensures r == f(attempts - 1)
    ensures forall k :: 0 <= k < attempts - 1 ==> f(k).Err?
    ensures |sleeps| == attempts - 1
    ensures forall k :: 0 <= k < |sleeps| ==> sleeps[k] == SleepAfter(cfg, k)
  {
    attempts, sleeps := 0, [];
    var delay := cfg.initialDelay;
    while true
      invariant attempts < Limit(cfg) && |sleeps| == attempts
      invariant forall k :: 0 <= k < attempts ==> f(k).Err? && sleeps[k] == SleepAfter(cfg, k)
      invariant delay == SleepAfter(cfg, attempts)
      invariant Calls(cfg, f) == CallsFrom(f, attempts, Limit(cfg))
      decreases Limit(cfg) - attempts
    {
      r := f(attempts);
      attempts := attempts + 1;
      if r.Ok? || attempts >= cfg.maxAttempts || !ShouldRetry(cfg.retryIf) {
        return;
      }
      BackoffStep(cfg, attempts - 1);
      sleeps := sleeps + [delay];
      delay := Min(delay * cfg.backoffMultiplier, cfg.maxDelay);
    }
  }
}

module Resilience {
  import opened Wrappers
  import opened BreakerSpec
  import opened BreakerTheorems
  import opened Breaker
  import opened Retry

  /** A call of `with_resilience`: when it checks, what other requests do until it completes, when it
      completes, and what its inner calls return. */
  datatype Request<T, E> = Request(t0: int, between: History, t1: int, f: nat -> Result<T, E>)

  /** The steps that one request contributes to the history, and its number of inner calls. */
  function Contribution<T, E>(cfg: Config, retry: RetryConfig, h: History, q: Request<T, E>): (History, nat) {
    if Admits(cfg, Replay(cfg, h), q.t0)
    then ([Check(q.t0)] + q.between + [Completion(q.f(Calls(retry, q.f) - 1), q.t1)], Calls(retry, q.f))
    else ([Check(q.t0)], 0)
  }

  lemma Regroup(h: History, a: History, b: History, c: History)
    ensures h + a + b + c == h + (a + b + c)
  {
  }

  /** One event per admitted call, none for a rejected one, whatever the number of inner retries and
      whatever other requests do during the call. */
  method WithResilience<T, E>(cb: CircuitBreaker, retry: RetryConfig, q: Request<T, E>)
    returns (r: Result<T, CircuitError<E>>, attempts: nat)
    requires cb.Valid()
    modifies cb
    ensures cb.Valid()
    ensures (cb.history, attempts)
            == (old(cb.history) + Contribution(cb.cfg, retry, old(cb.history), q).0,
                Contribution(cb.cfg, retry, old(cb.history), q).1)
    ensures r == if attempts == 0 then Err(CircuitOpen) else Lift(q.f(attempts - 1))
  {
    attempts := 0;
    RefusesExactly(cb.cfg, cb.history, q.t0);
    var admitted := cb.CheckState(q.t0);
    if !admitted {
      return Err(CircuitOpen), 0;
    }
    var inner, calls, _ := WithRetry(retry, q.f);
    attempts := calls;
    cb.Interfere(q.between);
    r := cb.Complete(inner, q.t1);
    Regroup(old(cb.history), [Check(q.t0)], q.between, [Completion(inner, q.t1)]);
  }

  /** Sequential requests against one breaker: the final history and the total of inner calls. */
  function RunAll<T, E>(cfg: Config, retry: RetryConfig, h: History, qs: seq<Request<T, E>>): (History, nat) {
    if qs == [] then (h, 0) else
      var (g, n) := RunAll(cfg, retry, h, qs[..|qs| - 1]);
      var (steps, calls) := Contribution(cfg, retry, g, qs[|qs| - 1]);
      (g + steps, n + calls)
  }

  /** Every inner call fails, and no other request comes between. */
  ghost predicate AllFail<T(!new), E(!new)>(qs: seq<Request<T, E>>) {
    && (forall i, k: nat :: 0 <= i < |qs| ==> qs[i].f(k).Err?)
    && (forall i :: 0 <= i < |qs| ==> qs[i].between == [])
  }
}

module ResilienceTheorems {
  import opened Wrappers
  import opened BreakerSpec
  import opened BreakerTheorems
  import opened Retry
  import opened Breaker
  import opened Resilience

  lemma MulSucc(n: nat, m: nat)
    ensures (n + 1) * m == n * m + m
  {
  }

  /** A failing call on a closed breaker is admitted and lengthens the run of failures by one. */
  lemma {:induction false} FailingCall(cfg: Config, h: History, t0: int, t1: int)
    requires Replay(cfg, h).state == Closed && TrailingFailures(h) < EffectiveFailures(cfg)
    ensures var g := h + [Check(t0), Failure(t1)];
            && TrailingFailures(g) == TrailingFailures(h) + 1
            && Replay(cfg, g).state == (if TrailingFailures(g) < EffectiveFailures(cfg) then Closed else Open)
  {
    var c := h + [Check(t0)];
    Snoc(cfg, INITIAL, h, Check(t0));
    Snoc(cfg, INITIAL, c, Failure(t1));
    OpensExactly(cfg, c, Failure(t1));
    assert c + [Failure(t1)] == h + [Check(t0), Failure(t1)];
  }

  /** Sequential failing calls leave a fresh breaker closed up to the last call but one, and the
      call that opens it is the one with which `failureThreshold * Limit` inner calls have been made. */
  lemma {:induction false} FreshBreakerOpens<T(!new), E(!new)>(cfg: Config, retry: RetryConfig, qs: seq<Request<T, E>>)
    requires AllFail(qs) && |qs| <= EffectiveFailures(cfg)
    ensures var (h, calls) := RunAll(cfg, retry, [], qs);
            && TrailingFailures(h) == |qs|
            && calls == |qs| * (if retry.retryIf == Never then 1 else Max(1, retry.maxAttempts))
            && Replay(cfg, h).state == (if |qs| < EffectiveFailures(cfg) then Closed else Open)
  {
    if qs != [] {
      var before, q := qs[..|qs| - 1], qs[|qs| - 1];
      FreshBreakerOpens(cfg, retry, before);
      var (h, calls) := RunAll(cfg, retry, [], before);
      var n := Calls(retry, q.f);
      assert q == qs[|qs| - 1] && q.f(n - 1).Err?;
      MulSucc(|before|, Limit(retry));
      FailingCall(cfg, h, q.t0, q.t1);
      assert [Check(q.t0)] + q.between + [Failure(q.t1)] == [Check(q.t0), Failure(q.t1)];
    }
  }

  /** Every request ends in a success, at its first inner call or after retries, and no other request
      comes between. */
  ghost predicate AllSucceed<T(!new), E(!new)>(retry: RetryConfig, qs: seq<Request<T, E>>) {
    forall i :: 0 <= i < |qs| ==> qs[i].between == [] && qs[i].f(Calls(retry, qs[i].f) - 1).Ok?
  }

  /** The breaker after `n` sequential successes since it was open. */
  ghost predicate Recovered(cfg: Config, c: Core, n: nat) {
    c.state == (if n < EffectiveSuccesses(cfg) then HalfOpen else Closed) && (c.state == HalfOpen ==> c.successes == n)
  }

  lemma {:induction false} SucceedingCall(cfg: Config, h: History, t0: int, n: nat)
    requires !Refused(cfg, h, t0)
    requires if n == 0 then Replay(cfg, h).state == Open else Recovered(cfg, Replay(cfg, h), n)
    ensures Recovered(cfg, Replay(cfg, h + [Check(t0), Success]), n + 1)
  {
    var c := h + [Check(t0)];
    RefusesExactly(cfg, h, t0);
    Snoc(cfg, INITIAL, h, Check(t0));
    Snoc(cfg, INITIAL, c, Success);
    assert c + [Success] == h + [Check(t0), Success];
  }

  /** Sequential succeeding calls on an open breaker whose timeout has passed are all admitted, and the
      `successThreshold`-th closes it. */
  lemma {:induction false} OpenBreakerRecovers<T(!new), E(!new)>(
    cfg: Config, retry: RetryConfig, h: History, qs: seq<Request<T, E>>)
    requires Replay(cfg, h).state == Open && AllSucceed(retry, qs)
    requires qs != [] ==> LatestFailure(h).Some? && qs[0].t0 - LatestFailure(h).value >= cfg.recoveryTimeout
    ensures var g := RunAll(cfg, retry, h, qs).0;
            && |g| == |h| + 2 * |qs|
            && SuccessCount(g) == SuccessCount(h) + |qs|
            && Replay(cfg, g).state
               == (if qs == [] then Open else if |qs| < Max(1, cfg.successThreshold) then HalfOpen else Closed)
            && (qs != [] ==> Recovered(cfg, Replay(cfg, g), |qs|))
  {
    if qs != [] {
      var before, q := qs[..|qs| - 1], qs[|qs| - 1];
      OpenBreakerRecovers(cfg, retry, h, before);
      var g := RunAll(cfg, retry, h, before).0;
      assert before == [] ==> g == h && q == qs[0];
      assert !Refused(cfg, g, q.t0);
      RefusesExactly(cfg, g, q.t0);
      SucceedingCall(cfg, g, q.t0, |before|);
      assert [Check(q.t0)] + q.between + [Success] == [Check(q.t0), Success];
      Snoc(cfg, INITIAL, g, Check(q.t0));
      Snoc(cfg, INITIAL, g + [Check(q.t0)], Success);
      assert g + [Check(q.t0)] + [Success] == g + [Check(q.t0), Success];
    }
  }
}
