/**
  The email outbox: the worker of `backend/src/jobs/email_worker.rs` and the cancel and retry
  handlers of `backend/src/api/admin_email.rs`, as a transition system.

  Each SQL statement, provider lookup and provider call is one atomic step. One worker takes its
  steps in program order; enqueues, admin actions and worker crashes come between any two of them,
  and every write may fail before or after it takes effect.
 */
module OutboxSpec {
  import opened Wrappers
  import opened Backoff

  type Id = nat

  datatype Status = Queued | Sending | Sent | Failed | Cancelled

  datatype Priority = High | Normal | Low

  datatype Order = Order(priority: Priority, createdAt: int)

  datatype Row = Row(
    order: Order,
    status: Status,
    attemptCount: int,
    maxAttempts: int,
    scheduledAt: Option<int>,
    sendAfter: Option<int>,
    nextAttemptAt: Option<int>)

  /** The part of a fetched row that the worker goes on to use. It is a copy, not the row. */
  datatype Email = Email(id: Id, attemptCount: int, maxAttempts: int)

  datatype Config = Config(batchSize: nat, maxRetries: i32, delays: Delays)

  /** Where the worker is in `process_email`: between emails, or holding one email before the
      provider lookup, the provider call, `mark_sent`, or `handle_delivery_error`. */
  datatype Worker =
    | Between
    | Providing(email: Email)
    | Delivering(email: Email)
    | Recording(email: Email)
    | Handling(email: Email)

  datatype State = State(rows: map<Id, Row>, worker: Worker, batch: seq<Email>)

  const EMPTY := State(map[], Between, [])

  /** How a write ends: it commits; it commits but the client sees an error; or it does not commit. */
  datatype Write = Committed | CommittedWithError | Rejected

  /** `Settle` is `handle_delivery_error`: its `delay` is the backoff, absent if computing it panics
      and irrelevant if the worker gives up. */
  datatype Event =
    | Enqueue(id: Id, order: Order, maxAttempts: int, scheduledAt: Option<int>, sendAfter: Option<int>)
    | Cancel(id: Id)
    | AdminRetry(id: Id)
    | Fetch(now: Instant, ids: seq<Id>)
    | Claim(id: Id, write: Write)
    | Provide(id: Id, found: bool)
    | Deliver(id: Id, accepted: bool)
    | MarkSent(id: Id, write: Write)
    | Settle(id: Id, now: Instant, delay: Option<int>, write: Write)
    | Crash

  /** What the worker may obtain at the time `now`. */
  ghost predicate MayYield(cfg: Config, attempt: int, now: Instant, delay: Option<int>) {
    exists r :: CalculateBackoff(cfg.delays, attempt, r, now) == delay
  }

  // ----------------------------------------------------------------------- steps

  function Number(p: Priority): nat {
    match p
    case High => 1
    case Normal => 2
    case Low => 3
  }

  /** The order in which due rows are fetched. */
  predicate NotAfter(a: Order, b: Order) {
    Number(a.priority) < Number(b.priority) || (a.priority == b.priority && a.createdAt <= b.createdAt)
  }

  predicate Reached(t: Option<int>, now: int) { t.Some? ==> t.value <= now }

  predicate Due(row: Row, now: int) {
    row.status == Queued && Reached(row.scheduledAt, now) && Reached(row.sendAfter, now) && Reached(row.nextAttemptAt, now)
  }

  function Snapshot(rows: map<Id, Row>, id: Id): Email
    requires id in rows
  {
    Email(id, rows[id].attemptCount, rows[id].maxAttempts)
  }

  function Snapshots(rows: map<Id, Row>, ids: seq<Id>): (b: seq<Email>)
    requires forall i :: 0 <= i < |ids| ==> ids[i] in rows
    ensures |b| == |ids| && forall i :: 0 <= i < |ids| ==> b[i] == Snapshot(rows, ids[i])
  {
    seq(|ids|, i requires 0 <= i < |ids| => Snapshot(rows, ids[i]))
  }

  ghost predicate Distinct(ids: seq<Id>) {
    forall i, j :: 0 <= i < j < |ids| ==> ids[i] != ids[j]
  }

  predicate ShouldRetry(cfg: Config, e: Email) {
    e.attemptCount < Min(e.maxAttempts, cfg.maxRetries)
  }

  ghost predicate Enabled(cfg: Config, s: State, e: Event) {
    match e
    case Enqueue(id, _, _, _, _) => id !in s.rows
    case Cancel(id) => id in s.rows && s.rows[id].status == Queued
    case AdminRetry(id) => id in s.rows && s.rows[id].status == Failed
    case Fetch(now, ids) =>
      && s.worker == Between && s.batch == [] && |ids| <= cfg.batchSize && Distinct(ids)
      && forall i :: 0 <= i < |ids| ==> ids[i] in s.rows && Due(s.rows[ids[i]], now)
    case Claim(id, _) => s.worker == Between && s.batch != [] && s.batch[0].id == id && id in s.rows
    case Provide(id, _) => s.worker.Providing? && s.worker.email.id == id
    case Deliver(id, _) => s.worker.Delivering? && s.worker.email.id == id
    case MarkSent(id, _) => s.worker.Recording? && s.worker.email.id == id && id in s.rows
    case Settle(id, now, delay, _) =>
      && s.worker.Handling? && s.worker.email.id == id && id in s.rows
      && (ShouldRetry(cfg, s.worker.email) ==> MayYield(cfg, s.worker.email.attemptCount, now, delay))
    case Crash => true
  }

  /** The row that a retry write leaves; the count is incremented in SQL, not from the snapshot. */
  function Rescheduled(row: Row, at: int): Row {
    row.(status := Queued, attemptCount := row.attemptCount + 1, nextAttemptAt := Some(at))
  }

  function Put(s: State, id: Id, row: Row, write: Write): State {
    if write.Rejected? then s else s.(rows := s.rows[id := row])
  }

  function Restart(s: State): State { s.(worker := Between, batch := []) }

  function Next(cfg: Config, s: State, e: Event): State
    requires Enabled(cfg, s, e)
  {
    match e
    case Enqueue(id, order, m, at, after) => s.(rows := s.rows[id := Row(order, Queued, 0, m, at, after, None)])
    case Cancel(id) => s.(rows := s.rows[id := s.rows[id].(status := Cancelled)])
    case AdminRetry(id) =>
      s.(rows := s.rows[id := s.rows[id].(status := Queued, attemptCount := 0, nextAttemptAt := None)])
    case Fetch(_, ids) => s.(batch := Snapshots(s.rows, ids))
    case Claim(id, w) =>
      Put(s, id, s.rows[id].(status := Sending), w)
      .(worker := if w.Committed? then Providing(s.batch[0]) else Between, batch := s.batch[1..])
    case Provide(_, found) =>
      s.(worker := if found then Delivering(s.worker.email) else Handling(s.worker.email))
    case Deliver(_, accepted) =>
      s.(worker := if accepted then Recording(s.worker.email) else Handling(s.worker.email))
    case MarkSent(id, w) => Put(s, id, s.rows[id].(status := Sent), w).(worker := Between)
    case Settle(id, now, delay, w) =>
      if !ShouldRetry(cfg, s.worker.email) then
        Put(s, id, s.rows[id].(status := Failed), w).(worker := Between)
      else if delay.None? then Restart(s)
      else Put(s, id, Rescheduled(s.rows[id], now + delay.value), w).(worker := Between)
    case Crash => Restart(s)
  }

  // ------------------------------------------------------------------------ runs

  ghost predicate IsRun(cfg: Config, es: seq<Event>)
    decreases |es|, 0
  {
    es == [] || (IsRun(cfg, Init(es)) && Enabled(cfg, After(cfg, Init(es)), Last(es)))
  }

  ghost function After(cfg: Config, es: seq<Event>): State
    requires IsRun(cfg, es)
    decreases |es|, 1
  {
    if es == [] then EMPTY else Next(cfg, After(cfg, Init(es)), Last(es))
  }

  /** The latest reading of the worker's clock, which shows `start` before the first. */
  function Clock(es: seq<Event>, start: Instant): Instant {
    if es == [] then start else
      match Last(es)
      case Fetch(now, _) => now
      case Settle(_, now, _, _) => now
      case _ => Clock(Init(es), start)
  }

  /** The clock never goes back. Runs in general may also use one that does. */
  ghost predicate Timely(es: seq<Event>, start: Instant) {
    es == [] || (Timely(Init(es), start) && Clock(Init(es), start) <= Clock(es, start))
  }

  function Init<T>(es: seq<T>): seq<T>
    requires es != []
  {
    es[..|es| - 1]
  }

  function Last<T>(es: seq<T>): T
    requires es != []
  {
    es[|es| - 1]
  }

  // ----------------------------------------------------- what a run says about an email

  /** Provider calls for `id` that returned success. */
  function Accepted(es: seq<Event>, id: Id): nat {
    if es == [] then 0 else Accepted(Init(es), id) + (if Last(es) == Deliver(id, true) then 1 else 0)
  }

  /** Provider calls for `id`, successful or not, since it was enqueued or last retried by an admin. */
  function Tries(es: seq<Event>, id: Id): nat {
    if es == [] then 0 else
      match Last(es)
      case Enqueue(i, _, _, _, _) => if i == id then 0 else Tries(Init(es), id)
      case AdminRetry(i) => if i == id then 0 else Tries(Init(es), id)
      case Deliver(i, _) => Tries(Init(es), id) + (if i == id then 1 else 0)
      case _ => Tries(Init(es), id)
  }

  /** The latest step that may have rescheduled `id` since it was enqueued or retried by an admin. */
  function LastSettle(es: seq<Event>, id: Id): Option<Event> {
    if es == [] then None else
      match Last(es)
      case Enqueue(i, _, _, _, _) => if i == id then None else LastSettle(Init(es), id)
      case AdminRetry(i) => if i == id then None else LastSettle(Init(es), id)
      case Settle(i, _, _, w) => if i == id && !w.Rejected? then Some(Last(es)) else LastSettle(Init(es), id)
      case _ => LastSettle(Init(es), id)
  }

  /** The retries that a row is allowed. */
  function Bound(cfg: Config, row: Row): nat {
    Max(0, Min(row.maxAttempts, cfg.maxRetries))
  }
}
