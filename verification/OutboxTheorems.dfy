module OutboxTheorems {
  import opened Wrappers
  import opened Backoff
  import opened OutboxSpec

  // ------------------------------------------------------------------- the invariant

  ghost predicate InBatch(s: State, id: Id) {
    exists i :: 0 <= i < |s.batch| && s.batch[i].id == id
  }

  ghost predicate Holds(s: State, id: Id) {
    !s.worker.Between? && s.worker.email.id == id
  }

  /** Batch entries are distinct, current copies of rows that nobody has begun to send. */
  ghost predicate BatchOk(s: State) {
    && (forall i :: 0 <= i < |s.batch| ==>
          && s.batch[i].id in s.rows
          && s.batch[i] == Snapshot(s.rows, s.batch[i].id)
          && (s.rows[s.batch[i].id].status == Queued || s.rows[s.batch[i].id].status == Cancelled)
          && !Holds(s, s.batch[i].id))
    && (forall i, j :: 0 <= i < j < |s.batch| ==> s.batch[i].id != s.batch[j].id)
  }

  /** The email in hand is a current copy of a row marked as sending. */
  ghost predicate WorkerOk(s: State) {
    s.worker.Between? || (
      && s.worker.email.id in s.rows
      && s.worker.email == Snapshot(s.rows, s.worker.email.id)
      && s.rows[s.worker.email.id].status == Sending)
  }

  ghost predicate Untouched(s: State, id: Id)
    requires id in s.rows
  {
    s.rows[id].status == Queued || s.rows[id].status == Cancelled
  }

  /** No accepted delivery yet, or exactly one and the row can no longer be sent. */
  ghost predicate SendOk(es: seq<Event>, s: State, id: Id)
    requires id in s.rows
  {
    || (Accepted(es, id) == 0 && !(Holds(s, id) && s.worker.Recording?))
    || (&& Accepted(es, id) == 1
        && (s.rows[id].status == Sending || s.rows[id].status == Sent)
        && (Holds(s, id) ==> s.worker.Recording?))
  }

  /** The attempt count stays within the bound and counts every provider call but the current one. */
  ghost predicate TriesOk(cfg: Config, es: seq<Event>, s: State, id: Id)
    requires id in s.rows
  {
    && 0 <= s.rows[id].attemptCount <= Bound(cfg, s.rows[id])
    && Tries(es, id) <= s.rows[id].attemptCount + 1
    && ((Untouched(s, id) || (Holds(s, id) && (s.worker.Providing? || s.worker.Delivering?)))
        ==> Tries(es, id) <= s.rows[id].attemptCount)
  }

  /** A requeued row carries the time of its last reschedule. */
  ghost predicate SpacingOk(cfg: Config, es: seq<Event>, s: State, id: Id)
    requires id in s.rows
  {
    s.rows[id].status == Queued && LastSettle(es, id).Some? ==>
      && var e := LastSettle(es, id).value;
      && e.Settle? && e.delay.Some?
      && s.rows[id].nextAttemptAt == Some(e.now + e.delay.value)
      && 1 <= s.rows[id].attemptCount <= cfg.maxRetries
      && MayYield(cfg, s.rows[id].attemptCount - 1, e.now, e.delay)
  }

  ghost predicate RowOk(cfg: Config, es: seq<Event>, s: State, id: Id)
    requires id in s.rows
  {
    SendOk(es, s, id) && TriesOk(cfg, es, s, id) && SpacingOk(cfg, es, s, id)
  }

  ghost predicate Inv(cfg: Config, es: seq<Event>, s: State) {
    && BatchOk(s) && WorkerOk(s)
    && (forall id :: id in s.rows ==> RowOk(cfg, es, s, id))
    && (forall id :: id !in s.rows ==> Accepted(es, id) == 0)
  }

  /** High before normal before low, and older before newer. */
  lemma OrderExactly(a: Order, b: Order)
    ensures NotAfter(a, b) <==>
      || (a.priority == High && b.priority != High)
      || (a.priority == Normal && b.priority == Low)
      || (a.priority == b.priority && a.createdAt <= b.createdAt)
  {
  }

  lemma BatchFetched(cfg: Config, s: State, now: Instant, ids: seq<Id>)
    requires Enabled(cfg, s, Fetch(now, ids))
    ensures BatchOk(Next(cfg, s, Fetch(now, ids)))
  {
  }

  lemma BatchClaimed(cfg: Config, s: State, id: Id, w: Write)
    requires BatchOk(s) && Enabled(cfg, s, Claim(id, w))
    ensures BatchOk(Next(cfg, s, Claim(id, w)))
  {
  }

  lemma BatchKept(cfg: Config, s: State, e: Event)
    requires BatchOk(s) && WorkerOk(s) && Enabled(cfg, s, e)
    ensures BatchOk(Next(cfg, s, e))
  {
    match e {
      case Fetch(now, ids) => BatchFetched(cfg, s, now, ids);
      case Claim(id, w) => BatchClaimed(cfg, s, id, w);
      case _ =>
    }
  }

  lemma InHandKept(cfg: Config, s: State, e: Event)
    requires BatchOk(s) && WorkerOk(s) && Enabled(cfg, s, e)
    ensures WorkerOk(Next(cfg, s, e))
  {
  }

  lemma SendKept(cfg: Config, es: seq<Event>, s: State, e: Event, id: Id)
    requires BatchOk(s) && WorkerOk(s) && Enabled(cfg, s, e)
    requires es != [] && Last(es) == e
    requires if id in s.rows then SendOk(Init(es), s, id) else Accepted(Init(es), id) == 0
    ensures var t := Next(cfg, s, e); if id in t.rows then SendOk(es, t, id) else Accepted(es, id) == 0
  {
  }

  lemma TriesKept(cfg: Config, es: seq<Event>, s: State, e: Event, id: Id)
    requires BatchOk(s) && WorkerOk(s) && Enabled(cfg, s, e)
    requires es != [] && Last(es) == e
    requires id in s.rows ==> TriesOk(cfg, Init(es), s, id)
    ensures var t := Next(cfg, s, e); id in t.rows ==> TriesOk(cfg, es, t, id)
  {
  }

  lemma SpacingSettled(cfg: Config, es: seq<Event>, s: State, e: Event, id: Id)
    requires BatchOk(s) && WorkerOk(s) && Enabled(cfg, s, e)
    requires es != [] && Last(es) == e && e.Settle? && e.id == id
    requires id in s.rows && TriesOk(cfg, Init(es), s, id) && SpacingOk(cfg, Init(es), s, id)
    ensures SpacingOk(cfg, es, Next(cfg, s, e), id)
  {
  }

  lemma SpacingOfOthers(cfg: Config, es: seq<Event>, s: State, e: Event, id: Id)
    requires BatchOk(s) && WorkerOk(s) && Enabled(cfg, s, e)
    requires es != [] && Last(es) == e && !(e.Settle? && e.id == id)
    requires id in s.rows ==> SpacingOk(cfg, Init(es), s, id)
    ensures var t := Next(cfg, s, e); id in t.rows ==> SpacingOk(cfg, es, t, id)
  {
  }

  lemma {:induction false} SpacingKept(cfg: Config, es: seq<Event>, s: State, e: Event, id: Id)
    requires BatchOk(s) && WorkerOk(s) && Enabled(cfg, s, e)
    requires es != [] && Last(es) == e
    requires id in s.rows ==> TriesOk(cfg, Init(es), s, id) && SpacingOk(cfg, Init(es), s, id)
    ensures var t := Next(cfg, s, e); id in t.rows ==> SpacingOk(cfg, es, t, id)
  {
    if e.Settle? && e.id == id {
      SpacingSettled(cfg, es, s, e, id);
    } else {
      SpacingOfOthers(cfg, es, s, e, id);
    }
  }

  /** Every reachable state satisfies the invariant. */
  lemma {:induction false} Invariant(cfg: Config, es: seq<Event>)
    requires IsRun(cfg, es)
    ensures Inv(cfg, es, After(cfg, es))
  {
    if es != [] {
      var s, e := After(cfg, Init(es)), Last(es);
      Invariant(cfg, Init(es));
      BatchKept(cfg, s, e);
      InHandKept(cfg, s, e);
      forall id ensures var t := Next(cfg, s, e); if id in t.rows then RowOk(cfg, es, t, id) else Accepted(es, id) == 0 {
        SendKept(cfg, es, s, e, id);
        TriesKept(cfg, es, s, e, id);
        SpacingKept(cfg, es, s, e, id);
      }
    }
  }

  // ------------------------------------------------------------------- main results

  /** Each email has at most one successful provider call in every run. */
  lemma {:induction false} AtMostOnce(cfg: Config, es: seq<Event>, id: Id)
    requires IsRun(cfg, es)
    ensures Accepted(es, id) <= 1
    ensures Accepted(es, id) == 1 ==>
              && id in After(cfg, es).rows
              && (After(cfg, es).rows[id].status == Sending || After(cfg, es).rows[id].status == Sent)
              && !InBatch(After(cfg, es), id)
  {
    Invariant(cfg, es);
    var s := After(cfg, es);
    if id in s.rows {
      assert RowOk(cfg, es, s, id);
    }
  }

  /** Between enqueue or admin retry and the next terminal status, the provider is called at most
      `min(max_attempts, max_retries) + 1` times, or once if that minimum is negative. */
  lemma {:induction false} BoundedTries(cfg: Config, es: seq<Event>, id: Id)
    requires IsRun(cfg, es) && id in After(cfg, es).rows
    ensures Tries(es, id) <= Bound(cfg, After(cfg, es).rows[id]) + 1
  {
    Invariant(cfg, es);
    assert RowOk(cfg, es, After(cfg, es), id);
  }

  /** The step neither succeeds in delivering nor suffers any fault. */
  predicate PlainFailure(e: Event) {
    match e
    case Claim(_, w) => w.Committed?
    case Provide(_, found) => found
    case Deliver(_, accepted) => !accepted
    case Settle(_, _, delay, w) => w.Committed? && delay.Some?
    case Crash => false
    case _ => true
  }

  ghost predicate AllPlainFailures(es: seq<Event>) {
    forall i :: 0 <= i < |es| ==> PlainFailure(es[i])
  }

  /** The attempt count is exactly the number of finished provider calls. */
  ghost predicate ExactOk(cfg: Config, es: seq<Event>, s: State, id: Id)
    requires id in s.rows
  {
    && s.rows[id].status != Sent
    && (s.rows[id].status == Sending ==> Holds(s, id) && !s.worker.Recording?)
    && Tries(es, id) == s.rows[id].attemptCount
       + (if s.rows[id].status == Failed || (Holds(s, id) && s.worker.Handling?) then 1 else 0)
    && (s.rows[id].status == Failed ==> s.rows[id].attemptCount == Bound(cfg, s.rows[id]))
  }

  lemma ExactKept(cfg: Config, es: seq<Event>, s: State, e: Event, id: Id)
    requires BatchOk(s) && WorkerOk(s) && Enabled(cfg, s, e) && PlainFailure(e)
    requires es != [] && Last(es) == e
    requires id in s.rows ==> ExactOk(cfg, Init(es), s, id) && TriesOk(cfg, Init(es), s, id)
    ensures var t := Next(cfg, s, e); id in t.rows ==> ExactOk(cfg, es, t, id)
  {
  }

  lemma {:induction false} ExactInvariant(cfg: Config, es: seq<Event>)
    requires IsRun(cfg, es) && AllPlainFailures(es)
    ensures forall id :: id in After(cfg, es).rows ==> ExactOk(cfg, es, After(cfg, es), id)
  {
    if es != [] {
      var s, e := After(cfg, Init(es)), Last(es);
      ExactInvariant(cfg, Init(es));
      Invariant(cfg, Init(es));
      assert PlainFailure(es[|es| - 1]);
      forall id | id in Next(cfg, s, e).rows ensures ExactOk(cfg, es, Next(cfg, s, e), id) {
        assert id in s.rows ==> RowOk(cfg, Init(es), s, id);
        ExactKept(cfg, es, s, e, id);
      }
    }
  }

  /** When every delivery fails and nothing else does, a row whose email is not in hand has failed
      exactly when all `Bound + 1` provider calls have been made, and has otherwise one retry left
      for every call still missing. */
  lemma {:induction false} FailsAfterAllTries(cfg: Config, es: seq<Event>, id: Id)
    requires IsRun(cfg, es) && AllPlainFailures(es)
    requires id in After(cfg, es).rows && !Holds(After(cfg, es), id)
    ensures var row := After(cfg, es).rows[id];
            && (row.status == Failed <==> Tries(es, id) == Bound(cfg, row) + 1)
            && (row.status != Failed ==> Tries(es, id) == row.attemptCount <= Bound(cfg, row))
  {
    Invariant(cfg, es);
    ExactInvariant(cfg, es);
    assert RowOk(cfg, es, After(cfg, es), id) && ExactOk(cfg, es, After(cfg, es), id);
  }

  lemma {:induction false} Extend(cfg: Config, es: seq<Event>, e: Event)
    requires IsRun(cfg, es) && Enabled(cfg, After(cfg, es), e)
    ensures IsRun(cfg, es + [e]) && After(cfg, es + [e]) == Next(cfg, After(cfg, es), e)
  {
    assert Init(es + [e]) == es;
  }

  /** The clock after one more step. */
  function Ticked(e: Event, clock: Instant): Instant {
    match e
    case Fetch(now, _) => now
    case Settle(_, now, _, _) => now
    case _ => clock
  }

  lemma {:induction false} ExtendTimely(es: seq<Event>, e: Event, start: Instant)
    requires Timely(es, start) && Clock(es, start) <= Ticked(e, Clock(es, start))
    ensures Timely(es + [e], start) && Clock(es + [e], start) == Ticked(e, Clock(es, start))
  {
    assert Init(es + [e]) == es;
  }

  /** A run in which nothing but deliveries fail, under a clock that never goes back. */
  ghost predicate PlainRun(cfg: Config, es: seq<Event>, start: Instant) {
    IsRun(cfg, es) && AllPlainFailures(es) && Timely(es, start)
  }

  /** A lone email that only ever fails, and that can be fetched at the time `at`. */
  ghost predicate Lone(cfg: Config, es: seq<Event>, row: Row, start: Instant, at: Instant) {
    && PlainRun(cfg, es, start) && After(cfg, es) == State(map[0 := row], Between, [])
    && row.scheduledAt == row.sendAfter == None
    && Clock(es, start) <= at && Reached(row.nextAttemptAt, at)
  }

  lemma {:induction false} Push(cfg: Config, es: seq<Event>, e: Event, start: Instant)
    requires PlainRun(cfg, es, start) && Enabled(cfg, After(cfg, es), e) && PlainFailure(e)
    requires !e.Enqueue? && !e.AdminRetry? && Clock(es, start) <= Ticked(e, Clock(es, start))
    ensures PlainRun(cfg, es + [e], start) && After(cfg, es + [e]) == Next(cfg, After(cfg, es), e)
    ensures Clock(es + [e], start) == Ticked(e, Clock(es, start))
    ensures Tries(es + [e], 0) == Tries(es, 0) + (if e.Deliver? && e.id == 0 then 1 else 0)
  {
    Extend(cfg, es, e);
    ExtendTimely(es, e, start);
    PushPlain(es, e);
  }

  lemma {:induction false} PushPlain(es: seq<Event>, e: Event)
    requires AllPlainFailures(es) && PlainFailure(e) && !e.Enqueue? && !e.AdminRetry?
    ensures AllPlainFailures(es + [e])
    ensures Tries(es + [e], 0) == Tries(es, 0) + (if e.Deliver? && e.id == 0 then 1 else 0)
  {
    assert Last(es + [e]) == e && Init(es + [e]) == es;
  }

  lemma {:induction false} FetchOnce(cfg: Config, es: seq<Event>, row: Row, email: Email, start: Instant, at: Instant)
    returns (fs: seq<Event>)
    requires cfg.batchSize >= 1 && Lone(cfg, es, row, start, at) && row.status == Queued
    requires email == Email(0, row.attemptCount, row.maxAttempts)
    ensures PlainRun(cfg, fs, start) && Clock(fs, start) == at && Tries(fs, 0) == Tries(es, 0)
    ensures After(cfg, fs) == State(map[0 := row], Between, [email])
  {
    Push(cfg, es, Fetch(at, [0]), start);
    fs := es + [Fetch(at, [0])];
    assert Snapshots(map[0 := row], [0]) == [email];
  }

  lemma {:induction false} ClaimOnce(cfg: Config, es: seq<Event>, row: Row, email: Email, start: Instant, at: Instant)
    returns (fs: seq<Event>)
    requires cfg.batchSize >= 1 && Lone(cfg, es, row, start, at) && row.status == Queued
    requires email == Email(0, row.attemptCount, row.maxAttempts)
    ensures PlainRun(cfg, fs, start) && Clock(fs, start) == at && Tries(fs, 0) == Tries(es, 0)
    ensures After(cfg, fs) == State(map[0 := row.(status := Sending)], Providing(email), [])
  {
    fs := FetchOnce(cfg, es, row, email, start, at);
    Push(cfg, fs, Claim(0, Committed), start);
    fs := fs + [Claim(0, Committed)];
    assert After(cfg, fs).rows == map[0 := row.(status := Sending)];
  }

  /** The email is fetched, claimed, and refused by the provider. */
  lemma {:induction false} SendOnce(cfg: Config, es: seq<Event>, row: Row, start: Instant, at: Instant) returns (fs: seq<Event>)
    requires cfg.batchSize >= 1 && Lone(cfg, es, row, start, at) && row.status == Queued
    ensures PlainRun(cfg, fs, start) && Clock(fs, start) == at && Tries(fs, 0) == Tries(es, 0) + 1
    ensures After(cfg, fs)
            == State(map[0 := row.(status := Sending)], Handling(Email(0, row.attemptCount, row.maxAttempts)), [])
  {
    fs := ClaimOnce(cfg, es, row, Email(0, row.attemptCount, row.maxAttempts), start, at);
    Push(cfg, fs, Provide(0, true), start);
    fs := fs + [Provide(0, true)];
    Push(cfg, fs, Deliver(0, false), start);
    fs := fs + [Deliver(0, false)];
  }

  /** One more try, after which the email is due again. */
  lemma {:induction false} TryOnce(cfg: Config, es: seq<Event>, row: Row, start: Instant, at: Instant)
    returns (fs: seq<Event>, next: Row)
    requires cfg.batchSize >= 1 && Lone(cfg, es, row, start, at) && row.status == Queued
    requires row.attemptCount < Min(row.maxAttempts, cfg.maxRetries) && !Hopeless(cfg.delays, AsU32(row.attemptCount), at)
    ensures Lone(cfg, fs, next, start, NextFetch(cfg.delays, AsU32(row.attemptCount), at))
    ensures Tries(fs, 0) == Tries(es, 0) + 1 && next.maxAttempts == row.maxAttempts
    ensures next.status == Queued && next.attemptCount == row.attemptCount + 1
  {
    var gs := SendOnce(cfg, es, row, start, at);
    var r := HopefulDraw(cfg.delays, row.attemptCount, at);
    var now := FirstHope(cfg.delays, AsU32(row.attemptCount), at);
    var delay := CalculateBackoff(cfg.delays, row.attemptCount, r, now);
    Push(cfg, gs, Settle(0, now, delay, Committed), start);
    fs, next := gs + [Settle(0, now, delay, Committed)], Rescheduled(row, now + delay.value);
    assert After(cfg, fs).rows == map[0 := next];
  }

  /** The last try, after which the email has failed. */
  lemma {:induction false} TryLast(cfg: Config, es: seq<Event>, row: Row, start: Instant, at: Instant) returns (fs: seq<Event>)
    requires cfg.batchSize >= 1 && Lone(cfg, es, row, start, at) && row.status == Queued
    requires row.attemptCount >= Min(row.maxAttempts, cfg.maxRetries)
    ensures Lone(cfg, fs, row.(status := Failed), start, at) && Tries(fs, 0) == Tries(es, 0) + 1
  {
    var gs := SendOnce(cfg, es, row, start, at);
    Push(cfg, gs, Settle(0, at, Some(0), Committed), start);
    fs := gs + [Settle(0, at, Some(0), Committed)];
    assert After(cfg, fs).rows == map[0 := row.(status := Failed)];
  }

  /** The remaining tries can all be made. */
  lemma {:induction false} TryOn(cfg: Config, es: seq<Event>, row: Row, start: Instant, at: Instant) returns (fs: seq<Event>)
    requires cfg.batchSize >= 1 && Lone(cfg, es, row, start, at) && row.status == Queued
    requires 0 <= row.attemptCount == Tries(es, 0) <= Bound(cfg, row)
    requires Feasible(cfg.delays, row.attemptCount, Min(row.maxAttempts, cfg.maxRetries), at)
    ensures PlainRun(cfg, fs, start) && 0 in After(cfg, fs).rows
    ensures After(cfg, fs).rows[0].status == Failed && After(cfg, fs).rows[0].maxAttempts == row.maxAttempts
    ensures Tries(fs, 0) == Bound(cfg, row) + 1
    decreases Bound(cfg, row) - row.attemptCount
  {
    if row.attemptCount < Min(row.maxAttempts, cfg.maxRetries) {
      assert AsU32(row.attemptCount) == row.attemptCount;
      var gs, next := TryOnce(cfg, es, row, start, at);
      fs := TryOn(cfg, gs, next, start, NextFetch(cfg.delays, row.attemptCount, at));
    } else {
      fs := TryLast(cfg, es, row, start, at);
    }
  }

  /** The bound is tight: if the calendar allows the retries, an email can be sent `Bound + 1` times. */
  lemma {:induction false} AllTriesReached(cfg: Config, order: Order, m: int, start: Instant) returns (es: seq<Event>)
    requires cfg.batchSize >= 1 && Feasible(cfg.delays, 0, Min(m, cfg.maxRetries), start)
    ensures PlainRun(cfg, es, start) && 0 in After(cfg, es).rows
    ensures After(cfg, es).rows[0].status == Failed && After(cfg, es).rows[0].maxAttempts == m
    ensures Tries(es, 0) == Bound(cfg, After(cfg, es).rows[0]) + 1
  {
    var e := Enqueue(0, order, m, None, None);
    Extend(cfg, [], e);
    ExtendTimely([], e, start);
    assert [] + [e] == [e];
    es := TryOn(cfg, [e], Row(order, Queued, 0, m, None, None, None), start, start);
  }

  // ------------------------------------------------------------------ retry spacing

  /** In every reachable state the backoff is computed only for attempts below `max_retries`, so
      settings that are safe for those never panic the worker there. */
  lemma BackoffNeverFaults(cfg: Config, es: seq<Event>, r: int, now: Instant)
    requires IsRun(cfg, es)
    requires After(cfg, es).worker.Handling? && ShouldRetry(cfg, After(cfg, es).worker.email)
    ensures var n := After(cfg, es).worker.email.attemptCount;
            && 0 <= n < cfg.maxRetries
            && (AllSafe(cfg.delays, cfg.maxRetries, now) ==> CalculateBackoff(cfg.delays, n, r, now).Some?)
  {
    Invariant(cfg, es);
    var s := After(cfg, es);
    var n := s.worker.email.attemptCount;
    assert RowOk(cfg, es, s, s.worker.email.id);
    if AllSafe(cfg.delays, cfg.maxRetries, now) {
      SafeYields(cfg.delays, n, r, now);
    }
  }

  lemma {:induction false} YieldedDelay(cfg: Config, n: nat, now: Instant, delay: Option<int>)
    requires n < cfg.maxRetries && NeverWraps(cfg.delays, cfg.maxRetries) && MayYield(cfg, n, now, delay) && delay.Some?
    ensures WithinTenth(cfg.delays, n, delay.value)
  {
    var r :| CalculateBackoff(cfg.delays, n, r, now) == delay;
    if !cfg.delays.checked {
      DoubledMonotone(cfg.delays.base, n, cfg.maxRetries - 1);
    }
    DelayRange(cfg.delays, n, r, now);
  }

  lemma {:induction false} RetryWait(cfg: Config, es: seq<Event>, now: Instant, ids: seq<Id>, i: nat) returns (delay: int)
    requires NeverWraps(cfg.delays, cfg.maxRetries) && IsRun(cfg, es) && Enabled(cfg, After(cfg, es), Fetch(now, ids))
    requires i < |ids| && LastSettle(es, ids[i]).Some?
    ensures LastSettle(es, ids[i]).value.Settle? && now - LastSettle(es, ids[i]).value.now >= delay
    ensures var attempts := After(cfg, es).rows[ids[i]].attemptCount;
            1 <= attempts <= cfg.maxRetries && WithinTenth(cfg.delays, attempts - 1, delay)
  {
    Invariant(cfg, es);
    var s, id := After(cfg, es), ids[i];
    assert Due(s.rows[id], now) && RowOk(cfg, es, s, id);
    var e := LastSettle(es, id).value;
    YieldedDelay(cfg, s.rows[id].attemptCount - 1, e.now, e.delay);
    delay := e.delay.value;
  }

  /** A failed email is never fetched again sooner than nine tenths of its plain delay. */
  lemma {:induction false} RetrySpacing(cfg: Config, es: seq<Event>, now: Instant, ids: seq<Id>, i: nat)
    requires NeverWraps(cfg.delays, cfg.maxRetries) && IsRun(cfg, es) && Enabled(cfg, After(cfg, es), Fetch(now, ids))
    requires i < |ids| && LastSettle(es, ids[i]).Some?
    ensures var attempts := After(cfg, es).rows[ids[i]].attemptCount;
            && LastSettle(es, ids[i]).value.Settle?
            && 1 <= attempts <= cfg.maxRetries
            && var d := Min(cfg.delays.base * Pow2(attempts - 1), cfg.delays.cap);
            && var waited := now - LastSettle(es, ids[i]).value.now;
            && waited >= d - Tenth(d)
            && (cfg.delays.base > 0 && cfg.delays.cap > 0 ==> waited >= d - d / 10 >= 9)
  {
    var delay := RetryWait(cfg, es, now, ids, i);
    PlainDelayIs(cfg.delays, After(cfg, es).rows[ids[i]].attemptCount - 1);
  }

  // ---------------------------------------------------------------------- schedules

  /** The email is in the fetched batch or in hand. */
  ghost predicate InPossession(s: State, id: Id) { InBatch(s, id) || Holds(s, id) }

  /** Step `k` fetched `id`, whose schedule, quiet time and retry time had been reached, and from then up
      to the end of `es` the worker has not lost it. */
  ghost predicate FetchedAndKept(cfg: Config, es: seq<Event>, k: nat, id: Id) {
    && k < |es| && IsRun(cfg, es[..k]) && es[k].Fetch? && id in es[k].ids && id in After(cfg, es[..k]).rows
    && var row, now := After(cfg, es[..k]).rows[id], es[k].now;
    && row.status == Queued
    && (row.scheduledAt.Some? ==> row.scheduledAt.value <= now)
    && (row.sendAfter.Some? ==> row.sendAfter.value <= now)
    && (row.nextAttemptAt.Some? ==> row.nextAttemptAt.value <= now)
    && forall j :: k < j <= |es| ==> IsRun(cfg, es[..j]) && InPossession(After(cfg, es[..j]), id)
  }

  /** Only a fetch gives the worker an email. */
  lemma {:induction false} PossessionStarts(cfg: Config, s: State, e: Event, id: Id)
    requires Enabled(cfg, s, e) && InPossession(Next(cfg, s, e), id)
    ensures InPossession(s, id) || (e.Fetch? && id in e.ids)
  {
    if e.Claim? {
      assert s.batch[0] in s.batch;
    }
  }

  lemma {:induction false} KeptOn(cfg: Config, es: seq<Event>, k: nat, id: Id)
    requires es != [] && IsRun(cfg, es) && FetchedAndKept(cfg, Init(es), k, id) && InPossession(After(cfg, es), id)
    ensures FetchedAndKept(cfg, es, k, id)
  {
    assert Init(es)[..k] == es[..k] && Init(es)[k] == es[k];
    forall j | k < j <= |es| ensures IsRun(cfg, es[..j]) && InPossession(After(cfg, es[..j]), id) {
      if j < |es| {
        assert Init(es)[..j] == es[..j];
      } else {
        assert es[..j] == es;
      }
    }
  }

  lemma {:induction false} FetchedNow(cfg: Config, es: seq<Event>, id: Id)
    requires es != [] && IsRun(cfg, es) && Last(es).Fetch? && id in Last(es).ids && InPossession(After(cfg, es), id)
    ensures FetchedAndKept(cfg, es, |es| - 1, id)
  {
    var k, s, e := |es| - 1, After(cfg, Init(es)), Last(es);
    assert es[..k] == Init(es) && es[..|es|] == es;
    var i :| 0 <= i < |e.ids| && e.ids[i] == id;
    assert Due(s.rows[e.ids[i]], e.now);
  }

  /** Every email that the worker has was fetched when it was due, and has not been lost since. */
  lemma {:induction false} FetchedWhenDue(cfg: Config, es: seq<Event>, id: Id) returns (k: nat)
    requires IsRun(cfg, es) && InPossession(After(cfg, es), id)
    ensures FetchedAndKept(cfg, es, k, id)
  {
    var s, e := After(cfg, Init(es)), Last(es);
    if InPossession(s, id) {
      k := FetchedWhenDue(cfg, Init(es), id);
      KeptOn(cfg, es, k, id);
    } else {
      PossessionStarts(cfg, s, e, id);
      FetchedNow(cfg, es, id);
      k := |es| - 1;
    }
  }

  lemma {:induction false} PrefixRun(cfg: Config, es: seq<Event>, n: nat)
    requires IsRun(cfg, es) && n <= |es|
    ensures IsRun(cfg, es[..n])
  {
    if n < |es| {
      PrefixRun(cfg, Init(es), n);
      assert Init(es)[..n] == es[..n];
    } else {
      assert es[..n] == es;
    }
  }

  /** No email is sent before its time: each provider call follows a fetch at which the times of the row
      had been reached, and the worker has held on to the email since that fetch. */
  lemma {:induction false} SentWhenDue(cfg: Config, es: seq<Event>, i: nat) returns (k: nat)
    requires IsRun(cfg, es) && i < |es| && es[i].Deliver?
    ensures FetchedAndKept(cfg, es[..i], k, es[i].id)
  {
    PrefixRun(cfg, es, i + 1);
    var fs := es[..i + 1];
    assert Init(fs) == es[..i] && Last(fs) == es[i];
    k := FetchedWhenDue(cfg, es[..i], es[i].id);
  }

  // ------------------------------------------------------------------- cancellation

  /** The worker is bound to panic before it returns to the batch. */
  predicate Doomed(cfg: Config, s: State, clock: Instant) {
    && s.worker.Handling? && ShouldRetry(cfg, s.worker.email)
    && Hopeless(cfg.delays, AsU32(s.worker.email.attemptCount), clock)
  }

  /** What a doomed worker does when it comes to compute the backoff. */
  lemma {:induction false} DoomedPanics(cfg: Config, s: State, e: Event, clock: Instant)
    requires Doomed(cfg, s, clock) && Enabled(cfg, s, e) && e.Settle? && clock <= e.now
    ensures Next(cfg, s, e) == Restart(s)
  {
    HopelessExactly(cfg.delays, s.worker.email.attemptCount, clock);
  }

  /** No provider call for `id` in `es` from position `from` on. */
  ghost predicate Silent(es: seq<Event>, from: nat, id: Id) {
    forall i :: from <= i < |es| && es[i].Deliver? ==> es[i].id != id
  }

  lemma {:induction false} StillSilent(es: seq<Event>, from: nat, id: Id)
    requires es != [] && Silent(Init(es), from, id) && !(Last(es).Deliver? && Last(es).id == id)
    ensures Silent(es, from, id)
  {
    forall i | from <= i < |es| && es[i].Deliver? ensures es[i].id != id {
      assert i < |es| - 1 ==> es[i] == Init(es)[i];
    }
  }

  ghost predicate OutOfReach(cfg: Config, s: State, id: Id, clock: Instant) {
    && id in s.rows && s.rows[id].status == Cancelled && !Holds(s, id)
    && (!InBatch(s, id) || Doomed(cfg, s, clock))
  }

  lemma {:induction false} OutOfReachKept(cfg: Config, s: State, e: Event, id: Id, clock: Instant)
    requires BatchOk(s) && WorkerOk(s) && Enabled(cfg, s, e) && OutOfReach(cfg, s, id, clock)
    requires InBatch(s, id) ==> clock <= Ticked(e, clock)
    ensures OutOfReach(cfg, Next(cfg, s, e), id, Ticked(e, clock)) && !(e.Deliver? && e.id == id)
    ensures InBatch(Next(cfg, s, e), id) ==> InBatch(s, id)
  {
    var t := Next(cfg, s, e);
    match e {
      case Fetch(now, ids) =>
        forall i | 0 <= i < |t.batch| ensures t.batch[i].id != id {
          assert Due(s.rows[ids[i]], now);
        }
      case Claim(_, _) =>
        assert s.batch[0].id != id;
        forall i | 0 <= i < |t.batch| ensures t.batch[i].id != id {
          assert t.batch[i] == s.batch[i + 1];
        }
      case Settle(_, _, _, _) =>
        if InBatch(s, id) {
          DoomedPanics(cfg, s, e, clock);
        }
      case _ =>
        assert t.batch == s.batch || t.batch == [];
    }
  }

  /** A cancelled row out of the worker's reach stays so. The clock matters only to a row in the batch. */
  lemma {:induction false} CancelledStays(cfg: Config, es: seq<Event>, n: nat, id: Id, start: Instant)
    requires n <= |es| && IsRun(cfg, es) && IsRun(cfg, es[..n])
    requires OutOfReach(cfg, After(cfg, es[..n]), id, Clock(es[..n], start))
    requires InBatch(After(cfg, es[..n]), id) ==> Timely(es, start)
    ensures OutOfReach(cfg, After(cfg, es), id, Clock(es, start)) && Silent(es, n, id)
    ensures InBatch(After(cfg, es), id) ==> InBatch(After(cfg, es[..n]), id)
  {
    if n == |es| {
      assert es[..n] == es;
    } else {
      assert Init(es)[..n] == es[..n];
      CancelledStays(cfg, Init(es), n, id, start);
      Invariant(cfg, Init(es));
      OutOfReachKept(cfg, After(cfg, Init(es)), Last(es), id, Clock(Init(es), start));
      StillSilent(es, n, id);
    }
  }

  lemma {:induction false} Add(cfg: Config, es: seq<Event>, e: Event, start: Instant) returns (fs: seq<Event>)
    requires IsRun(cfg, es) && Timely(es, start) && Enabled(cfg, After(cfg, es), e)
    requires Clock(es, start) <= Ticked(e, Clock(es, start))
    ensures fs == es + [e] && IsRun(cfg, fs) && Timely(fs, start) && After(cfg, fs) == Next(cfg, After(cfg, es), e)
    ensures Clock(fs, start) == Ticked(e, Clock(es, start)) && Last(fs) == e
    ensures !e.Deliver? ==> forall id :: Accepted(fs, id) == Accepted(es, id)
  {
    Extend(cfg, es, e);
    ExtendTimely(es, e, start);
    fs := es + [e];
    assert Init(fs) == es;
  }

  /** A run in which one email has been fetched. */
  lemma {:induction false} FetchedRun(cfg: Config, order: Order, start: Instant) returns (es: seq<Event>)
    requires cfg.batchSize >= 1
    ensures IsRun(cfg, es) && Timely(es, start) && Clock(es, start) == start && Accepted(es, 0) == 0
    ensures After(cfg, es) == State(map[0 := Row(order, Queued, 0, 1, None, None, None)], Between, [Email(0, 0, 1)])
  {
    var fs := Add(cfg, [], Enqueue(0, order, 1, None, None), start);
    assert After(cfg, fs).rows == map[0 := Row(order, Queued, 0, 1, None, None, None)];
    es := Add(cfg, fs, Fetch(start, [0]), start);
    assert Snapshots(After(cfg, fs).rows, [0]) == [Email(0, 0, 1)];
  }

  /** The worker can always settle the email in hand and come back to the batch, unless it is doomed. */
  lemma {:induction false} SettleInHand(cfg: Config, es: seq<Event>, start: Instant) returns (fs: seq<Event>)
    requires IsRun(cfg, es) && Timely(es, start) && After(cfg, es).worker.Handling?
    requires !Doomed(cfg, After(cfg, es), Clock(es, start))
    ensures IsRun(cfg, fs) && Timely(fs, start) && es <= fs
    ensures After(cfg, fs).worker == Between && After(cfg, fs).batch == After(cfg, es).batch
    ensures var id := After(cfg, es).worker.email.id; id in After(cfg, fs).rows && After(cfg, fs).rows[id].status != Sending
  {
    Invariant(cfg, es);
    var email, now, delay := After(cfg, es).worker.email, Clock(es, start), Some(0);
    if ShouldRetry(cfg, email) {
      var r := HopefulDraw(cfg.delays, email.attemptCount, now);
      now := FirstHope(cfg.delays, AsU32(email.attemptCount), now);
      delay := CalculateBackoff(cfg.delays, email.attemptCount, r, now);
    }
    fs := Add(cfg, es, Settle(email.id, now, delay, Committed), start);
  }

  lemma {:induction false} FinishInHand(cfg: Config, es: seq<Event>, start: Instant) returns (fs: seq<Event>)
    requires IsRun(cfg, es) && Timely(es, start) && !Doomed(cfg, After(cfg, es), Clock(es, start))
    ensures IsRun(cfg, fs) && Timely(fs, start) && es <= fs
    ensures After(cfg, fs).worker == Between && After(cfg, fs).batch == After(cfg, es).batch
    ensures var w := After(cfg, es).worker;
            !w.Between? ==> w.email.id in After(cfg, fs).rows && After(cfg, fs).rows[w.email.id].status != Sending
  {
    Invariant(cfg, es);
    var w := After(cfg, es).worker;
    fs := es;
    if w.Handling? {
      fs := SettleInHand(cfg, es, start);
    } else if !w.Between? {
      var id := w.email.id;
      if w.Providing? {
        fs := Add(cfg, fs, Provide(id, true), start);
      }
      if !w.Recording? {
        fs := Add(cfg, fs, Deliver(id, true), start);
      }
      fs := Add(cfg, fs, MarkSent(id, Committed), start);
    }
  }

  /** A batch entry can be reached by failing to claim those before it. */
  lemma {:induction false} ReachEntry(cfg: Config, es: seq<Event>, k: nat, start: Instant) returns (fs: seq<Event>)
    requires IsRun(cfg, es) && Timely(es, start) && After(cfg, es).worker == Between && k < |After(cfg, es).batch|
    ensures IsRun(cfg, fs) && Timely(fs, start) && es <= fs && fs != es
    ensures Last(fs) == Deliver(After(cfg, es).batch[k].id, true)
    decreases k
  {
    Invariant(cfg, es);
    var first := After(cfg, es).batch[0].id;
    if k > 0 {
      fs := Add(cfg, es, Claim(first, Rejected), start);
      fs := ReachEntry(cfg, fs, k - 1, start);
    } else {
      fs := Add(cfg, es, Claim(first, Committed), start);
      fs := Add(cfg, fs, Provide(first, true), start);
      fs := Add(cfg, fs, Deliver(first, true), start);
    }
  }

  /** No continuation of `es` calls the provider for `id`. */
  ghost predicate NeverSentAfter(cfg: Config, es: seq<Event>, id: Id, start: Instant) {
    forall fs :: IsRun(cfg, fs) && Timely(fs, start) && es <= fs ==> Silent(fs, |es|, id)
  }

  lemma {:induction false} StillSent(cfg: Config, c: seq<Event>, k: nat, start: Instant)
    requires IsRun(cfg, c) && Timely(c, start) && !Doomed(cfg, After(cfg, c), Clock(c, start)) && k < |After(cfg, c).batch|
    ensures !NeverSentAfter(cfg, c, After(cfg, c).batch[k].id, start)
  {
    var fs := FinishInHand(cfg, c, start);
    var gs := ReachEntry(cfg, fs, k, start);
    assert gs[|gs| - 1] == Deliver(After(cfg, c).batch[k].id, true) && |c| <= |gs| - 1;
    assert !Silent(gs, |c|, After(cfg, c).batch[k].id);
  }

  /** An admin's cancellation is final exactly when the row is not in the fetched batch, or the
      worker is about to lose that batch. Otherwise some run still sends the email. */
  lemma {:induction false} CancellationFinalExactly(cfg: Config, es: seq<Event>, id: Id, start: Instant)
    requires IsRun(cfg, es) && Timely(es, start) && Enabled(cfg, After(cfg, es), Cancel(id))
    ensures NeverSentAfter(cfg, es + [Cancel(id)], id, start)
            <==> (!InBatch(After(cfg, es), id) || Doomed(cfg, After(cfg, es), Clock(es, start)))
  {
    Invariant(cfg, es);
    var s := After(cfg, es);
    var c := Add(cfg, es, Cancel(id), start);
    assert After(cfg, c).batch == s.batch && After(cfg, c).worker == s.worker && Clock(c, start) == Clock(es, start);
    if !InBatch(s, id) || Doomed(cfg, s, Clock(es, start)) {
      assert OutOfReach(cfg, After(cfg, c), id, Clock(c, start));
      forall fs | IsRun(cfg, fs) && Timely(fs, start) && c <= fs ensures Silent(fs, |c|, id) {
        assert fs[..|c|] == c;
        CancelledStays(cfg, fs, |c|, id, start);
      }
    } else {
      var k :| 0 <= k < |s.batch| && s.batch[k].id == id;
      StillSent(cfg, c, k, start);
    }
  }

  /** The failing case is reachable: a cancellation that comes after the fetch. */
  lemma {:induction false} LateCancel(cfg: Config, order: Order, start: Instant) returns (es: seq<Event>)
    requires cfg.batchSize >= 1
    ensures IsRun(cfg, es) && Timely(es, start) && Enabled(cfg, After(cfg, es), Cancel(0))
    ensures !NeverSentAfter(cfg, es + [Cancel(0)], 0, start)
  {
    es := FetchedRun(cfg, order, start);
    assert After(cfg, es).batch[0].id == 0;
    CancellationFinalExactly(cfg, es, 0, start);
  }

  // --------------------------------------------------------------------- stuck emails

  /** The row is marked as sending, but the worker does not hold the email or is about to lose it. */
  ghost predicate Stuck(cfg: Config, s: State, id: Id, clock: Instant) {
    && id in s.rows && s.rows[id].status == Sending
    && (!Holds(s, id) || Doomed(cfg, s, clock))
  }

  lemma {:induction false} StuckKept(cfg: Config, s: State, e: Event, id: Id, clock: Instant)
    requires BatchOk(s) && WorkerOk(s) && Enabled(cfg, s, e) && Stuck(cfg, s, id, clock)
    requires Holds(s, id) ==> clock <= Ticked(e, clock)
    ensures Stuck(cfg, Next(cfg, s, e), id, Ticked(e, clock)) && !(e.Deliver? && e.id == id)
    ensures Holds(Next(cfg, s, e), id) ==> Holds(s, id)
  {
    if e.Settle? && Holds(s, id) {
      DoomedPanics(cfg, s, e, clock);
    }
  }

  /** A stuck email is never sent, requeued, failed or retried: no step, an admin's included, takes its
      row out of Sending. */
  lemma {:induction false} StuckForever(cfg: Config, es: seq<Event>, n: nat, id: Id, start: Instant)
    requires n <= |es| && IsRun(cfg, es) && IsRun(cfg, es[..n])
    requires Stuck(cfg, After(cfg, es[..n]), id, Clock(es[..n], start))
    requires Holds(After(cfg, es[..n]), id) ==> Timely(es, start)
    ensures Stuck(cfg, After(cfg, es), id, Clock(es, start)) && Silent(es, n, id)
    ensures Holds(After(cfg, es), id) ==> Holds(After(cfg, es[..n]), id)
  {
    if n == |es| {
      assert es[..n] == es;
    } else {
      assert Init(es)[..n] == es[..n];
      StuckForever(cfg, Init(es), n, id, start);
      Invariant(cfg, Init(es));
      StuckKept(cfg, After(cfg, Init(es)), Last(es), id, Clock(Init(es), start));
      StillSilent(es, n, id);
    }
  }

  ghost predicate SendingForever(cfg: Config, es: seq<Event>, id: Id, start: Instant) {
    forall fs :: IsRun(cfg, fs) && Timely(fs, start) && es <= fs ==>
      id in After(cfg, fs).rows && After(cfg, fs).rows[id].status == Sending
  }

  /** A row stays in Sending in every continuation exactly when it is stuck. */
  lemma {:induction false} StuckExactly(cfg: Config, es: seq<Event>, id: Id, start: Instant)
    requires IsRun(cfg, es) && Timely(es, start)
    ensures SendingForever(cfg, es, id, start) <==> Stuck(cfg, After(cfg, es), id, Clock(es, start))
  {
    var s := After(cfg, es);
    if Stuck(cfg, s, id, Clock(es, start)) {
      forall fs | IsRun(cfg, fs) && Timely(fs, start) && es <= fs
        ensures id in After(cfg, fs).rows && After(cfg, fs).rows[id].status == Sending
      {
        assert fs[..|es|] == es;
        StuckForever(cfg, fs, |es|, id, start);
      }
    } else if id in s.rows && s.rows[id].status == Sending {
      var fs := FinishInHand(cfg, es, start);
      assert After(cfg, fs).rows[id].status != Sending;
    } else {
      assert es <= es;
    }
  }

  /** A crash after the claim leaves an email stuck that no provider has seen. */
  lemma {:induction false} StuckReached(cfg: Config, order: Order, start: Instant) returns (es: seq<Event>)
    requires cfg.batchSize >= 1
    ensures IsRun(cfg, es) && Timely(es, start) && Stuck(cfg, After(cfg, es), 0, Clock(es, start)) && Accepted(es, 0) == 0
  {
    es := FetchedRun(cfg, order, start);
    es := Add(cfg, es, Claim(0, Committed), start);
    es := Add(cfg, es, Crash, start);
  }
}
