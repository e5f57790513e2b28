/**
  The sliding-window limiter `check_rate_limit` of `backend/src/middleware/rate_limit.rs`, for one
  key. The store keeps a sorted set whose members are whole seconds, and a time to live that runs
  in milliseconds from the same clock. One call is one atomic step.
 */
module RateLimiter {
  import opened Wrappers

  datatype Config = Config(windowSecs: nat, maxRequests: nat)

  /** The sorted set, and when the key disappears; an absent key has no members. */
  datatype Store = Store(members: set<int>, expiresAt: int)

  const ABSENT := Store({}, 0)

  /** A call at `at` milliseconds, and its verdict. */
  datatype Call = Call(at: nat, allowed: bool)

  type History = seq<Call>

  function Second(ms: nat): nat { ms / 1000 }

  // ------------------------------------------------------------------ the stored set

  function Present(s: Store, ms: nat): set<int> {
    if ms < s.expiresAt then s.members else {}
  }

  /** What is left after removing the scores from 0 to the start of the window. */
  function Pruned(cfg: Config, s: Store, ms: nat): set<int> {
    set t | t in Present(s, ms) && !(0 <= t <= Second(ms) - cfg.windowSecs)
  }

  predicate Allows(cfg: Config, s: Store, ms: nat) {
    |Pruned(cfg, s, ms)| < cfg.maxRequests
  }

  function AfterCall(cfg: Config, s: Store, ms: nat): Store {
    var kept := Pruned(cfg, s, ms);
    if |kept| >= cfg.maxRequests then Store(kept, s.expiresAt)
    else Store(kept + {Second(ms)}, ms + 1000 * cfg.windowSecs)
  }

  function After(cfg: Config, h: History): Store {
    if h == [] then ABSENT else AfterCall(cfg, After(cfg, h[..|h| - 1]), h[|h| - 1].at)
  }

  /** The verdicts are those of the limiter, and the clock never goes back. */
  predicate Genuine(cfg: Config, h: History) {
    h == [] || (
      var before, call := h[..|h| - 1], h[|h| - 1];
      && Genuine(cfg, before)
      && call.allowed == Allows(cfg, After(cfg, before), call.at)
      && LastTime(before) <= call.at)
  }

  function LastTime(h: History): nat {
    if h == [] then 0 else h[|h| - 1].at
  }

  // --------------------------------------------------------------------- the history

  function AllowedSeconds(h: History): set<int> {
    set i | 0 <= i < |h| && h[i].allowed :: Second(h[i].at)
  }

  /** The distinct seconds of the window of length `w` that ends at second `a`. */
  function Window(seconds: set<int>, a: int, w: nat): set<int> {
    set t | t in seconds && a - w < t <= a
  }

  /** The allowed calls of that window, however many share a second. */
  function CallsIn(h: History, a: int, w: nat): nat {
    if h == [] then 0 else
      CallsIn(h[..|h| - 1], a, w) + (if h[|h| - 1].allowed && a - w < Second(h[|h| - 1].at) <= a then 1 else 0)
  }

  // ---------------------------------------------------------------------- the object

  datatype Verdict = Verdict(allowed: bool, remaining: nat, resetAt: nat)

  class Limiter {
    const cfg: Config
    var members: set<int>
    var expiresAt: int
    ghost var history: History

    ghost predicate Valid()
      reads this
    {
      Genuine(cfg, history) && After(cfg, history) == Store(members, expiresAt)
    }

    constructor (cfg: Config)
      ensures Valid() && this.cfg == cfg && history == []
    {
      this.cfg := cfg;
      members, expiresAt, history := {}, 0, [];
    }

    /** A call is allowed exactly if the allowed calls of the past window fill fewer than
        `maxRequests` seconds, and the remainder is what that leaves. */
    method CheckRateLimit(ms: nat) returns (v: Verdict)
      requires Valid() && LastTime(history) <= ms
      modifies this
      ensures Valid() && history == old(history) + [Call(ms, v.allowed)]
      ensures var used := |Window(AllowedSeconds(old(history)), Second(ms), cfg.windowSecs)|;
              && (v.allowed <==> used < cfg.maxRequests)
              && v.remaining == (if v.allowed then cfg.maxRequests - used - 1 else 0)
      ensures v.resetAt == Second(ms) + cfg.windowSecs
    {
      AgreesWithHistory(cfg, history, ms);
      Extend(cfg, history, ms);
      var now := ms / 1000;
      var windowStart := now - cfg.windowSecs;
      if expiresAt <= ms {
        members := {};
      }
      members := set t | t in members && !(0 <= t <= windowStart);
      assert members == Pruned(cfg, After(cfg, history), ms);
      var currentCount := |members|;
      if currentCount >= cfg.maxRequests {
        v := Verdict(false, 0, now + cfg.windowSecs);
      } else {
        members := members + {now};
        expiresAt := ms + 1000 * cfg.windowSecs;
        v := Verdict(true, cfg.maxRequests - currentCount - 1, now + cfg.windowSecs);
      }
      history := history + [Call(ms, v.allowed)];
    }
  }

  lemma {:induction false} Extend(cfg: Config, h: History, ms: nat)
    requires Genuine(cfg, h) && LastTime(h) <= ms
    ensures var g := h + [Call(ms, Allows(cfg, After(cfg, h), ms))];
            Genuine(cfg, g) && After(cfg, g) == AfterCall(cfg, After(cfg, h), ms)
  {
  }

  // ------------------------------------------------------------------------- theorems

  lemma {:induction false} SnocSeconds(h: History, c: Call)
    ensures AllowedSeconds(h + [c]) == if c.allowed then AllowedSeconds(h) + {Second(c.at)} else AllowedSeconds(h)
  {
    var g := h + [c];
    assert forall i :: 0 <= i < |h| ==> g[i] == h[i];
    assert g[|h|] == c;
    forall t | t in AllowedSeconds(h) ensures t in AllowedSeconds(g) {
      var i :| 0 <= i < |h| && h[i].allowed && Second(h[i].at) == t;
      assert g[i].allowed && Second(g[i].at) == t;
    }
  }

  /** Every allowed second is still stored, under a key that outlives its window, or has left the
      window already. */
  ghost predicate Agrees(cfg: Config, h: History, s: Store) {
    && s.members <= AllowedSeconds(h)
    && (forall t :: t in AllowedSeconds(h) ==> 0 <= t <= Second(LastTime(h)))
    && (forall t :: t in AllowedSeconds(h) && t !in s.members ==> t <= Second(LastTime(h)) - cfg.windowSecs)
    && (forall t :: t in s.members ==> 1000 * (t + cfg.windowSecs) <= s.expiresAt)
  }

  lemma {:induction false} Agreement(cfg: Config, h: History)
    requires Genuine(cfg, h)
    ensures Agrees(cfg, h, After(cfg, h))
  {
    if h != [] {
      var before, call := h[..|h| - 1], h[|h| - 1];
      Agreement(cfg, before);
      assert h == before + [call];
      SnocSeconds(before, call);
      StepAgrees(cfg, before, call);
    }
  }

  lemma {:induction false} StepAgrees(cfg: Config, h: History, c: Call)
    requires Agrees(cfg, h, After(cfg, h)) && LastTime(h) <= c.at
    requires c.allowed == Allows(cfg, After(cfg, h), c.at)
    ensures Agrees(cfg, h + [c], AfterCall(cfg, After(cfg, h), c.at))
  {
    var s, s' := After(cfg, h), AfterCall(cfg, After(cfg, h), c.at);
    SnocSeconds(h, c);
    assert LastTime(h + [c]) == c.at;
    forall t | t in AllowedSeconds(h + [c]) && t !in s'.members
      ensures t <= Second(c.at) - cfg.windowSecs
    {
      if t in s.members && c.at >= s.expiresAt {
        assert 1000 * (t + cfg.windowSecs) <= c.at;
      }
    }
  }

  /** The pruned set is exactly the distinct seconds with an allowed call in the past window: neither
      pruning nor expiry drops a second that the window still counts. */
  lemma {:induction false} AgreesWithHistory(cfg: Config, h: History, ms: nat)
    requires Genuine(cfg, h) && LastTime(h) <= ms
    ensures Pruned(cfg, After(cfg, h), ms) == Window(AllowedSeconds(h), Second(ms), cfg.windowSecs)
  {
    Agreement(cfg, h);
    var s := After(cfg, h);
    forall t | t in Window(AllowedSeconds(h), Second(ms), cfg.windowSecs) ensures t in Pruned(cfg, s, ms) {
      assert t in s.members;
      assert ms < 1000 * (t + cfg.windowSecs);
    }
  }

  /** Every window of `windowSecs` seconds holds allowed calls in at most `maxRequests` of them. */
  lemma {:induction false} WindowBound(cfg: Config, h: History, a: int)
    requires Genuine(cfg, h)
    ensures |Window(AllowedSeconds(h), a, cfg.windowSecs)| <= cfg.maxRequests
  {
    if h != [] {
      var before, call := h[..|h| - 1], h[|h| - 1];
      WindowBound(cfg, before, a);
      assert h == before + [call];
      SnocSeconds(before, call);
      var past, all := AllowedSeconds(before), AllowedSeconds(h);
      var s, w := Second(call.at), cfg.windowSecs;
      if !call.allowed || a < s {
        assert Window(all, a, w) == Window(past, a, w);
      } else {
        AgreesWithHistory(cfg, before, call.at);
        Agreement(cfg, before);
        assert Window(all, a, w) <= Window(past, s, w) + {s};
        SubsetSize(Window(all, a, w), Window(past, s, w) + {s});
      }
    }
  }

  // -------------------------------------------------- calls, as opposed to seconds

  /** Every window holds at most `maxRequests` allowed calls. */
  ghost predicate LimitsCalls(cfg: Config) {
    forall h, a :: Genuine(cfg, h) ==> CallsIn(h, a, cfg.windowSecs) <= cfg.maxRequests
  }

  lemma {:induction false} NoCallsBefore(h: History, a: int, w: nat)
    requires forall t :: t in AllowedSeconds(h) ==> !(a - w < t <= a)
    ensures CallsIn(h, a, w) == 0
  {
    if h != [] {
      var before, call := h[..|h| - 1], h[|h| - 1];
      assert h == before + [call];
      SnocSeconds(before, call);
      NoCallsBefore(before, a, w);
    }
  }

  lemma {:induction false} SingleCall(cfg: Config, h: History, a: int)
    requires Genuine(cfg, h) && (cfg.maxRequests <= 1 || cfg.windowSecs == 0)
    ensures CallsIn(h, a, cfg.windowSecs) <= cfg.maxRequests
  {
    if h != [] {
      var before, call := h[..|h| - 1], h[|h| - 1];
      var s, w := Second(call.at), cfg.windowSecs;
      SingleCall(cfg, before, a);
      if call.allowed && a - w < s <= a {
        AgreesWithHistory(cfg, before, call.at);
        Agreement(cfg, before);
        assert Window(AllowedSeconds(before), s, w) == {};
        forall t | t in AllowedSeconds(before) ensures !(a - w < t <= a) {
          assert t !in Window(AllowedSeconds(before), s, w);
        }
        NoCallsBefore(before, a, w);
      }
    }
  }

  /** `n` calls in the same millisecond. */
  function Burst(n: nat): (h: History)
    ensures |h| == n
  {
    if n == 0 then [] else Burst(n - 1) + [Call(0, true)]
  }

  /** A further call in the same second finds at most that second in the set. */
  lemma {:induction false} BurstStep(cfg: Config, s: Store)
    requires cfg.maxRequests >= 2 && cfg.windowSecs >= 1
    requires s == ABSENT || s == Store({0}, 1000 * cfg.windowSecs)
    ensures Allows(cfg, s, 0) && AfterCall(cfg, s, 0) == Store({0}, 1000 * cfg.windowSecs)
  {
    assert Pruned(cfg, s, 0) == s.members;
    assert s.members + {0} == {0};
  }

  lemma {:induction false} BurstCalls(n: nat, w: nat)
    requires w >= 1
    ensures CallsIn(Burst(n), 0, w) == n
  {
    if n > 0 {
      BurstCalls(n - 1, w);
      assert Burst(n)[..n - 1] == Burst(n - 1);
    }
  }

  lemma {:induction false} BurstAllowed(cfg: Config, n: nat)
    requires cfg.maxRequests >= 2 && cfg.windowSecs >= 1
    ensures Genuine(cfg, Burst(n)) && LastTime(Burst(n)) == 0
    ensures After(cfg, Burst(n)) == if n == 0 then ABSENT else Store({0}, 1000 * cfg.windowSecs)
    ensures CallsIn(Burst(n), 0, cfg.windowSecs) == n
  {
    BurstCalls(n, cfg.windowSecs);
    if n > 0 {
      BurstAllowed(cfg, n - 1);
      BurstStep(cfg, After(cfg, Burst(n - 1)));
      Extend(cfg, Burst(n - 1), 0);
    }
  }

  lemma {:induction false} BurstExceeds(cfg: Config)
    requires cfg.maxRequests >= 2 && cfg.windowSecs >= 1
    ensures !LimitsCalls(cfg)
  {
    var n := cfg.maxRequests + 1;
    BurstAllowed(cfg, n);
    var h, a := Burst(n), 0;
    assert Genuine(cfg, h) && CallsIn(h, a, cfg.windowSecs) > cfg.maxRequests;
  }

  /** Members are whole seconds, so calls of one second count once: the limiter bounds the number of
      calls exactly for the degenerate configurations. */
  lemma {:induction false} LimitsCallsExactly(cfg: Config)
    ensures LimitsCalls(cfg) <==> cfg.maxRequests <= 1 || cfg.windowSecs == 0
  {
    if cfg.maxRequests <= 1 || cfg.windowSecs == 0 {
      forall h, a | Genuine(cfg, h) ensures CallsIn(h, a, cfg.windowSecs) <= cfg.maxRequests {
        SingleCall(cfg, h, a);
      }
    } else {
      BurstExceeds(cfg);
    }
  }
}
