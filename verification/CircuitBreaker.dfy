/**
  The circuit breaker of `backend/src/middleware/reliability.rs`.

  `check_state`, `on_success` and `on_failure` hold the `state` mutex for their whole
  body, so an execution of any number of concurrent requests is a sequence of these three
  atomic steps. A history is such a sequence. The lemmas quantify over every history, so
  they cover every interleaving, including completions of requests that were admitted long
  before the breaker opened.
 */
module BreakerSpec {
  import opened Wrappers

  datatype CircuitState = Closed | Open | HalfOpen

  datatype Config = Config(failureThreshold: u32, recoveryTimeout: nat, successThreshold: u32)

  datatype Core = Core(state: CircuitState, failures: u32, successes: u32, lastFailure: Option<int>)

  /** One atomic step of some request. `at` is the clock value that the step reads. */
  datatype Event = Check(at: int) | Success | Failure(at: int)

  type History = seq<Event>

  const INITIAL := Core(Closed, 0, 0, None)

  // ---------------------------------------------------------------- the three steps

  /** `Instant::elapsed` saturates at zero. */
  function Elapsed(now: int, since: int): nat {
    if since <= now then now - since else 0
  }

  predicate RecoveryDue(cfg: Config, last: Option<int>, now: int) {
    last.None? || Elapsed(now, last.value) >= cfg.recoveryTimeout
  }

  predicate Admits(cfg: Config, c: Core, now: int) {
    c.state == Open ==> RecoveryDue(cfg, c.lastFailure, now)
  }

  function AfterCheck(cfg: Config, c: Core, now: int): Core {
    if c.state == Open && RecoveryDue(cfg, c.lastFailure, now) then c.(state := HalfOpen, successes := 0) else c
  }

  function AfterSuccess(cfg: Config, c: Core): Core {
    match c.state
    case HalfOpen =>
      var n := (c.successes + 1) % U32_RANGE;
      if n >= cfg.successThreshold then c.(state := Closed, successes := n, failures := 0) else c.(successes := n)
    case Closed => c.(failures := 0)
    case Open => c
  }

  /** The counter is a `u32` that wraps in a release build. */
  function AfterFailure(cfg: Config, c: Core, now: int): Core {
    var n := (c.failures + 1) % U32_RANGE;
    var c' := c.(failures := n, lastFailure := Some(now));
    match c.state
    case Closed => if n >= cfg.failureThreshold then c'.(state := Open) else c'
    case HalfOpen => c'.(state := Open)
    case Open => c'
  }

  function Step(cfg: Config, c: Core, e: Event): Core {
    match e
    case Check(at) => AfterCheck(cfg, c, at)
    case Success => AfterSuccess(cfg, c)
    case Failure(at) => AfterFailure(cfg, c, at)
  }

  function Resume(cfg: Config, c: Core, h: History): Core {
    if h == [] then c else Step(cfg, Resume(cfg, c, h[..|h| - 1]), h[|h| - 1])
  }

  /** The breaker after the history `h`, starting fresh. */
  function Replay(cfg: Config, h: History): Core {
    Resume(cfg, INITIAL, h)
  }

  // ------------------------------------------- what a history says, without the counters

  /** Failures completed since the last completed success. */
  function TrailingFailures(h: History): nat {
    if h == [] then 0 else
      var before := h[..|h| - 1];
      match h[|h| - 1]
      case Success => 0
      case Failure(_) => TrailingFailures(before) + 1
      case Check(_) => TrailingFailures(before)
  }

  function FailureCount(h: History): nat {
    if h == [] then 0 else FailureCount(h[..|h| - 1]) + (if h[|h| - 1].Failure? then 1 else 0)
  }

  function SuccessCount(h: History): nat {
    if h == [] then 0 else SuccessCount(h[..|h| - 1]) + (if h[|h| - 1].Success? then 1 else 0)
  }

  /** The time of the latest completed failure, late completions included. */
  function LatestFailure(h: History): Option<int> {
    if h == [] then None
    else if h[|h| - 1].Failure? then Some(h[|h| - 1].at)
    else LatestFailure(h[..|h| - 1])
  }

  /** Some check came at least `recoveryTimeout` after the latest failure. */
  predicate Probed(cfg: Config, h: History) {
    if h == [] then false else
      var before := h[..|h| - 1];
      match h[|h| - 1]
      case Failure(_) => false
      case Success => Probed(cfg, before)
      case Check(at) =>
        || Probed(cfg, before)
        || (LatestFailure(before).Some? && Elapsed(at, LatestFailure(before).value) >= cfg.recoveryTimeout)
  }

  /** Successes completed since the first such check. */
  function SuccessesSinceProbe(cfg: Config, h: History): nat {
    if h == [] then 0 else
      var before := h[..|h| - 1];
      match h[|h| - 1]
      case Failure(_) => 0
      case Check(_) => SuccessesSinceProbe(cfg, before)
      case Success => if Probed(cfg, before) then SuccessesSinceProbe(cfg, before) + 1 else 0
  }

  /** Failures completed since a success last left the breaker closed. */
  function Uncleared(cfg: Config, h: History): nat {
    if h == [] then 0 else
      var before := h[..|h| - 1];
      match h[|h| - 1]
      case Failure(_) => Uncleared(cfg, before) + 1
      case Check(_) => Uncleared(cfg, before)
      case Success => if Replay(cfg, h).state == Closed then 0 else Uncleared(cfg, before)
  }

  /** A threshold of zero acts as one: the comparison follows the increment. */
  function EffectiveFailures(cfg: Config): u32 { Max(1, cfg.failureThreshold) }

  function EffectiveSuccesses(cfg: Config): u32 { Max(1, cfg.successThreshold) }
}

module BreakerTheorems {
  import opened Wrappers
  import opened BreakerSpec

  /** What the fields mean in terms of the history alone. */
  ghost predicate FieldsMatchHistory(cfg: Config, h: History, c: Core) {
    && c.lastFailure == LatestFailure(h)
    && (c.state == Closed ==> c.failures == TrailingFailures(h) < EffectiveFailures(cfg))
    && (c.state != Closed ==> LatestFailure(h).Some?)
    && (c.state == Open ==> !Probed(cfg, h))
    && (c.state == HalfOpen ==> Probed(cfg, h) && c.successes == SuccessesSinceProbe(cfg, h) < EffectiveSuccesses(cfg))
  }

  lemma {:induction false} UnprobedHasNoSuccesses(cfg: Config, h: History)
    requires !Probed(cfg, h)
    ensures SuccessesSinceProbe(cfg, h) == 0
  {
    if h != [] && !h[|h| - 1].Failure? {
      UnprobedHasNoSuccesses(cfg, h[..|h| - 1]);
    }
  }

  /** Every reachable breaker agrees with its history, counter wrap-around notwithstanding. */
  lemma {:induction false} HistoryRefinement(cfg: Config, h: History)
    ensures FieldsMatchHistory(cfg, h, Replay(cfg, h))
  {
    if h != [] {
      var before := h[..|h| - 1];
      HistoryRefinement(cfg, before);
      if !Probed(cfg, before) {
        UnprobedHasNoSuccesses(cfg, before);
      }
    }
  }

  /** In every state the failure counter is the number of failures since it was last cleared, modulo
      2^32, and while the breaker is not closed that number is at least the threshold. So the counter
      of a breaker that is not closed stands below the threshold exactly when it has wrapped there. */
  lemma {:induction false} TrippedCounter(cfg: Config, h: History)
    ensures Replay(cfg, h).failures == Uncleared(cfg, h) % U32_RANGE
    ensures Uncleared(cfg, h) <= FailureCount(h)
    ensures Replay(cfg, h).state != Closed ==> Uncleared(cfg, h) >= EffectiveFailures(cfg)
  {
    if h != [] {
      TrippedCounter(cfg, h[..|h| - 1]);
      WrappedSuccessor(Uncleared(cfg, h[..|h| - 1]) + 1);
    }
  }

  /** Fewer than 2^32 failures cannot wrap the counter. */
  lemma {:induction false} TrippedBelowWrap(cfg: Config, h: History)
    requires FailureCount(h) < U32_RANGE && Replay(cfg, h).state != Closed
    ensures Replay(cfg, h).failures >= EffectiveFailures(cfg)
  {
    TrippedCounter(cfg, h);
  }

  /** `n` failures and nothing else. */
  function Failures(n: nat): (h: History)
    ensures |h| == n && FailureCount(h) == n
  {
    if n == 0 then []
    else
      var h := Failures(n - 1);
      assert (h + [Failure(0)])[..n - 1] == h;
      h + [Failure(0)]
  }

  lemma WrappedSuccessor(n: nat)
    requires n > 0
    ensures ((n - 1) % U32_RANGE + 1) % U32_RANGE == n % U32_RANGE
  {
  }

  lemma {:induction false} OnlyFailures(cfg: Config, n: nat)
    requires cfg.failureThreshold <= 1
    ensures Replay(cfg, Failures(n)) == if n == 0 then INITIAL else Core(Open, n % U32_RANGE, 0, Some(0))
  {
    if n > 0 {
      var h := Failures(n - 1);
      OnlyFailures(cfg, n - 1);
      assert Failures(n)[..n - 1] == h && Failures(n)[n - 1] == Failure(0);
      assert Replay(cfg, Failures(n)) == AfterFailure(cfg, Replay(cfg, h), 0);
      WrappedSuccessor(n);
      assert Replay(cfg, h).failures == (n - 1) % U32_RANGE;
    }
  }

  /** The bound in `TrippedBelowWrap` is sharp: 2^32 failures leave an open breaker that counts none. */
  lemma {:induction false} CounterWraps(cfg: Config, n: nat)
    requires cfg.failureThreshold == 1 && n == U32_RANGE
    ensures FailureCount(Failures(n)) == n
    ensures Replay(cfg, Failures(n)).state == Open
    ensures Replay(cfg, Failures(n)).failures == 0 < cfg.failureThreshold
  {
    OnlyFailures(cfg, n);
  }

  lemma {:induction false} Snoc(cfg: Config, c: Core, h: History, e: Event)
    ensures Resume(cfg, c, h + [e]) == Step(cfg, Resume(cfg, c, h), e)
    ensures TrailingFailures(h + [e]) == if e.Success? then 0 else TrailingFailures(h) + (if e.Failure? then 1 else 0)
    ensures LatestFailure(h + [e]) == if e.Failure? then Some(e.at) else LatestFailure(h)
    ensures e.Success? && Probed(cfg, h) ==> SuccessesSinceProbe(cfg, h + [e]) == SuccessesSinceProbe(cfg, h) + 1
    ensures e.Success? ==> Probed(cfg, h + [e]) == Probed(cfg, h)
    ensures e.Check? ==> SuccessesSinceProbe(cfg, h + [e]) == SuccessesSinceProbe(cfg, h)
    ensures SuccessCount(h + [e]) == SuccessCount(h) + (if e.Success? then 1 else 0)
  {
  }

  /** A closed breaker opens on exactly the failure that completes a run of `failureThreshold`. */
  lemma {:induction false} OpensExactly(cfg: Config, h: History, e: Event)
    requires Replay(cfg, h).state == Closed
    ensures Replay(cfg, h + [e]).state == Open <==> e.Failure? && TrailingFailures(h + [e]) == EffectiveFailures(cfg)
    ensures Replay(cfg, h + [e]).state != HalfOpen
  {
    HistoryRefinement(cfg, h);
    Snoc(cfg, INITIAL, h, e);
  }

  /** A half-open breaker closes on exactly the `successThreshold`-th success since the probe. */
  lemma {:induction false} ClosesExactly(cfg: Config, h: History, e: Event)
    requires Replay(cfg, h).state == HalfOpen
    ensures Replay(cfg, h + [e]).state == Closed
            <==> e.Success? && SuccessesSinceProbe(cfg, h + [e]) == EffectiveSuccesses(cfg)
    ensures Replay(cfg, h + [e]).state == Open <==> e.Failure?
  {
    HistoryRefinement(cfg, h);
    Snoc(cfg, INITIAL, h, e);
  }

  /** A request is refused exactly when the breaker is open and less than the timeout has passed since
      the latest failure of the whole history. */
  ghost predicate Refused(cfg: Config, h: History, now: int) {
    && Replay(cfg, h).state == Open
    && LatestFailure(h).Some? && Max(0, now - LatestFailure(h).value) < cfg.recoveryTimeout
  }

  lemma {:induction false} RefusesExactly(cfg: Config, h: History, now: int)
    ensures Admits(cfg, Replay(cfg, h), now) <==> !Refused(cfg, h, now)
  {
    HistoryRefinement(cfg, h);
  }

  /** An admitted check of an open breaker makes it half-open, and no other step moves it; the
      missing-time default is never used. */
  lemma {:induction false} AdmitsExactly(cfg: Config, h: History, now: int)
    requires Replay(cfg, h).state == Open
    ensures LatestFailure(h).Some?
    ensures Replay(cfg, h + [Check(now)]).state
            == if Max(0, now - LatestFailure(h).value) >= cfg.recoveryTimeout then HalfOpen else Open
    ensures forall e: Event :: !e.Check? ==> Replay(cfg, h + [e]).state == Open
  {
    HistoryRefinement(cfg, h);
    Snoc(cfg, INITIAL, h, Check(now));
    forall e: Event | !e.Check? ensures Replay(cfg, h + [e]).state == Open {
      Snoc(cfg, INITIAL, h, e);
    }
  }

  // ------------------------------------------------------------------- whole segments

  /** No step of the segment reads a clock value at or past `limit`, or before `from`. */
  ghost predicate Within(seg: History, from: int, limit: int) {
    forall i :: 0 <= i < |seg| && !seg[i].Success? ==> from <= seg[i].at < limit
  }

  ghost predicate Admitted(cfg: Config, h: History, i: nat)
    requires i < |h| && h[i].Check?
  {
    Admits(cfg, Replay(cfg, h[..i]), h[i].at)
  }

  /** During the cool-down nothing is admitted and the breaker stays open, whatever the late
      completions are; a late failure can only prolong it. */
  lemma {:induction false} CoolDown(cfg: Config, h: History, seg: History, t: int)
    requires Replay(cfg, h).state == Open && LatestFailure(h) == Some(t)
    requires Within(seg, t, t + cfg.recoveryTimeout)
    ensures Replay(cfg, h + seg).state == Open
    ensures LatestFailure(h + seg).Some? && t <= LatestFailure(h + seg).value
    ensures forall i :: |h| <= i < |h + seg| && (h + seg)[i].Check? ==> !Admitted(cfg, h + seg, i)
  {
    if seg == [] {
      assert h + seg == h;
    } else {
      var before, e := seg[..|seg| - 1], seg[|seg| - 1];
      CoolDown(cfg, h, before, t);
      var g := h + before;
      assert h + seg == g + [e];
      Snoc(cfg, INITIAL, g, e);
      HistoryRefinement(cfg, g);
      forall i | |h| <= i < |h + seg| && (h + seg)[i].Check? ensures !Admitted(cfg, h + seg, i) {
        assert (h + seg)[..i] == g[..i];
        if i < |g| {
          assert (h + seg)[i] == g[i];
          assert !Admitted(cfg, g, i);
        } else {
          assert g[..i] == g;
        }
      }
    }
  }

  // -------------------------------------------------------------- requests in flight

  function AdmittedCount(cfg: Config, h: History): nat {
    if h == [] then 0 else
      var before, e := h[..|h| - 1], h[|h| - 1];
      AdmittedCount(cfg, before) + (if e.Check? && Admits(cfg, Replay(cfg, before), e.at) then 1 else 0)
  }

  function InFlight(cfg: Config, h: History): int {
    AdmittedCount(cfg, h) - SuccessCount(h) - FailureCount(h)
  }

  /** Every completion belongs to a request that was admitted before it. */
  ghost predicate Attributable(cfg: Config, h: History) {
    forall k :: 0 <= k <= |h| ==> InFlight(cfg, h[..k]) >= 0
  }

  /** The cool-down only drains: nothing new starts, so its completions, and with them the failures
      that can prolong it, are at most the requests in flight when it began. */
  lemma {:induction false} CoolDownDrains(cfg: Config, h: History, seg: History, t: int)
    requires Replay(cfg, h).state == Open && LatestFailure(h) == Some(t)
    requires Within(seg, t, t + cfg.recoveryTimeout)
    ensures SuccessCount(seg) + FailureCount(seg) == InFlight(cfg, h) - InFlight(cfg, h + seg)
    ensures Attributable(cfg, h + seg) ==> FailureCount(seg) <= InFlight(cfg, h)
  {
    if seg == [] {
      assert h + seg == h;
    } else {
      var before, e := seg[..|seg| - 1], seg[|seg| - 1];
      var g := h + before;
      CoolDownDrains(cfg, h, before, t);
      CoolDown(cfg, h, seg, t);
      assert h + seg == g + [e] && (h + seg)[..|h + seg| - 1] == g;
      assert e.Check? ==> !Admitted(cfg, h + seg, |g|);
    }
    assert (h + seg)[..|h + seg|] == h + seg;
  }

  /** From half-open, a segment without failures closes the breaker exactly when its successes
      reach what the probe still needs; further segments of a closed breaker keep it closed. */
  lemma {:induction false} RecoveryRun(cfg: Config, h: History, seg: History)
    requires Replay(cfg, h).state == HalfOpen
    requires FailureCount(seg) == 0
    ensures Replay(cfg, h + seg).state
            == if SuccessesSinceProbe(cfg, h) + SuccessCount(seg) >= EffectiveSuccesses(cfg) then Closed else HalfOpen
    ensures Replay(cfg, h + seg).state == HalfOpen
            ==> SuccessesSinceProbe(cfg, h + seg) == SuccessesSinceProbe(cfg, h) + SuccessCount(seg)
  {
    HistoryRefinement(cfg, h);
    if seg == [] {
      assert h + seg == h;
    } else {
      var before, e := seg[..|seg| - 1], seg[|seg| - 1];
      RecoveryRun(cfg, h, before);
      assert h + seg == (h + before) + [e];
      Snoc(cfg, INITIAL, h + before, e);
      HistoryRefinement(cfg, h + before);
    }
  }

  lemma {:induction false} TripStep(cfg: Config, h: History, e: Event)
    requires e != Success
    requires Replay(cfg, h).state == Closed <==> TrailingFailures(h) < EffectiveFailures(cfg)
    ensures TrailingFailures(h + [e]) == TrailingFailures(h) + (if e.Failure? then 1 else 0)
    ensures Replay(cfg, h + [e]).state == Closed <==> TrailingFailures(h + [e]) < EffectiveFailures(cfg)
  {
    Snoc(cfg, INITIAL, h, e);
    HistoryRefinement(cfg, h);
  }

  /** From closed, a segment without successes leaves the breaker closed exactly while the unbroken
      run of failures is below the threshold, however many checks are interleaved. */
  lemma {:induction false} TripRun(cfg: Config, h: History, seg: History)
    requires Replay(cfg, h).state == Closed
    requires SuccessCount(seg) == 0
    ensures TrailingFailures(h) + FailureCount(seg) < EffectiveFailures(cfg) <==> Replay(cfg, h + seg).state == Closed
    ensures TrailingFailures(h + seg) == TrailingFailures(h) + FailureCount(seg)
  {
    HistoryRefinement(cfg, h);
    if seg == [] {
      assert h + seg == h;
    } else {
      var before, e := seg[..|seg| - 1], seg[|seg| - 1];
      TripRun(cfg, h, before);
      assert h + seg == (h + before) + [e];
      TripStep(cfg, h + before, e);
    }
  }
}

module Breaker {
  import opened Wrappers
  import opened BreakerSpec
  import opened BreakerTheorems

  datatype CircuitError<+E> = CircuitOpen | Inner(error: E)

  /** The mutex-held fields. `history` records the atomic steps taken so far, in order. */
  class CircuitBreaker {
    const cfg: Config
    var state: CircuitState
    var failures: u32
    var successes: u32
    var lastFailure: Option<int>
    ghost var history: History

    ghost predicate Valid()
      reads this
    {
      Core(state, failures, successes, lastFailure) == Replay(cfg, history)
    }

    constructor (cfg: Config)
      ensures Valid() && this.cfg == cfg && history == []
    {
      this.cfg := cfg;
      state, failures, successes, lastFailure := Closed, 0, 0, None;
      history := [];
    }

    ghost method Record(e: Event)
      modifies this`history
      ensures history == old(history) + [e]
      ensures Replay(cfg, history) == Step(cfg, Replay(cfg, old(history)), e)
    {
      history := history + [e];
      assert history[..|history| - 1] == old(history);
    }

    method CheckState(now: int) returns (admitted: bool)
      requires Valid()
      modifies this
      ensures Valid() && history == old(history) + [Check(now)]
      ensures !admitted <==>
                && Replay(cfg, old(history)).state == Open
                && LatestFailure(old(history)).Some?
                && Max(0, now - LatestFailure(old(history)).value) < cfg.recoveryTimeout
    {
      RefusesExactly(cfg, history, now);
      admitted := true;
      match state {
        case Closed =>
        case Open =>
          var shouldAttempt := true;
          if lastFailure.Some? {
            shouldAttempt := Elapsed(now, lastFailure.value) >= cfg.recoveryTimeout;
          }
          if shouldAttempt {
            state := HalfOpen;
            successes := 0;
          } else {
            admitted := false;
          }
        case HalfOpen =>
      }
      Record(Check(now));
    }

    method OnSuccess()
      requires Valid()
      modifies this
      ensures Valid() && history == old(history) + [Success]
    {
      match state {
        case HalfOpen =>
          successes := (successes + 1) % U32_RANGE;
          if successes >= cfg.successThreshold {
            state := Closed;
            failures := 0;
          }
        case Closed =>
          if failures > 0 {
            failures := 0;
          }
        case Open =>
      }
      Record(Success);
    }

    method OnFailure(now: int)
      requires Valid()
      modifies this
      ensures Valid() && history == old(history) + [Failure(now)]
    {
      failures := (failures + 1) % U32_RANGE;
      lastFailure := Some(now);
      match state {
        case Closed =>
          if failures >= cfg.failureThreshold {
            state := Open;
          }
        case HalfOpen =>
          state := Open;
        case Open =>
      }
      Record(Failure(now));
    }

    /** The step that follows the protected call. */
    method Complete<T, E>(outcome: Result<T, E>, now: int) returns (r: Result<T, CircuitError<E>>)
      requires Valid()
      modifies this
      ensures Valid() && history == old(history) + [Completion(outcome, now)] && r == Lift(outcome)
    {
      match outcome {
        case Ok(v) => OnSuccess(); r := Ok(v);
        case Err(e) => OnFailure(now); r := Err(Inner(e));
      }
    }

    /** Steps of other requests. */
    method Interfere(steps: History)
      requires Valid()
      modifies this
      ensures Valid() && history == old(history) + steps
    {
      for i := 0 to |steps|
        invariant Valid() && history == old(history) + steps[..i]
      {
        match steps[i] {
          case Check(at) => var _ := CheckState(at);
          case Success => OnSuccess();
          case Failure(at) => OnFailure(at);
        }
        assert steps[..i + 1] == steps[..i] + [steps[i]];
      }
      assert steps[..|steps|] == steps;
    }

    /** `execute`, with the steps that other requests take during the protected call: one check, and one
        completion exactly if it was admitted. */
    method Execute<T, E>(t0: int, between: History, t1: int, outcome: Result<T, E>) returns (r: Result<T, CircuitError<E>>)
      requires Valid()
      modifies this
      ensures Valid()
      ensures if !Refused(cfg, old(history), t0)
              then history == old(history) + [Check(t0)] + between + [Completion(outcome, t1)] && r == Lift(outcome)
              else history == old(history) + [Check(t0)] && r == Err(CircuitOpen)
    {
      var admitted := CheckState(t0);
      if !admitted {
        return Err(CircuitOpen);
      }
      Interfere(between);
      r := Complete(outcome, t1);
    }
  }

  function Completion<T, E>(r: Result<T, E>, at: int): Event {
    if r.Ok? then Success else Failure(at)
  }

  function Lift<T, E>(r: Result<T, E>): Result<T, CircuitError<E>> {
    match r
    case Ok(v) => Ok(v)
    case Err(e) => Err(Inner(e))
  }
}
