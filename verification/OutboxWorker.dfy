/**
  The same protocol as code over one mutable table: the admin handlers, and the worker's
  `process_batch`, `process_email` and `handle_delivery_error`. Every object is proved to move only
  along runs of `OutboxSpec`, so the theorems about runs are theorems about this code.
 */
module OutboxWorker {
  import opened Wrappers
  import opened Backoff
  import opened OutboxSpec
  import opened OutboxTheorems

  datatype AdminAction =
    | DoEnqueue(id: Id, order: Order, maxAttempts: int, scheduledAt: Option<int>, sendAfter: Option<int>)
    | DoCancel(id: Id)
    | DoRetry(id: Id)

  /** What the outside world does to one email: how each write, lookup and call ends, the clock and
      random values, and the admin actions that come before each step. */
  datatype Script = Script(
    claim: Write, found: bool, accepted: bool, mark: Write,
    now: Instant, random: int, settle: Write,
    beforeClaim: seq<AdminAction>, beforeLookup: seq<AdminAction>, beforeCall: seq<AdminAction>, beforeWrite: seq<AdminAction>)

  datatype Outcome = Delivered | Errored | Panicked

  datatype Stats = Stats(processed: nat, sent: nat, failed: nat)

  class Outbox {
    const cfg: Config
    var rows: map<Id, Row>
    ghost var stage: Worker
    ghost var pending: seq<Email>
    ghost var trace: seq<Event>

    ghost predicate Valid()
      reads this
    {
      IsRun(cfg, trace) && After(cfg, trace) == State(rows, stage, pending)
    }

    constructor (cfg: Config)
      ensures Valid() && this.cfg == cfg && trace == [] && stage == Between && pending == []
    {
      this.cfg := cfg;
      rows, stage, pending, trace := map[], Between, [], [];
    }

    ghost method Record(e: Event)
      requires Valid() && Enabled(cfg, After(cfg, trace), e)
      modifies this`trace, this`stage, this`pending
      ensures trace == old(trace) + [e] && Init(trace) == old(trace) && IsRun(cfg, trace)
      ensures After(cfg, trace) == Next(cfg, State(rows, old(stage), old(pending)), e)
      ensures stage == After(cfg, trace).worker && pending == After(cfg, trace).batch
    {
      Extend(cfg, trace, e);
      trace := trace + [e];
      stage, pending := After(cfg, trace).worker, After(cfg, trace).batch;
    }

    // -------------------------------------------------------------- admin handlers

    method CancelOutboxEntry(id: Id) returns (affected: bool)
      requires Valid()
      modifies this
      ensures Valid() && stage == old(stage) && pending == old(pending)
      ensures affected <==> id in old(rows) && old(rows)[id].status == Queued
      ensures trace == if affected then old(trace) + [Cancel(id)] else old(trace)
      ensures rows == if affected then old(rows)[id := old(rows)[id].(status := Cancelled)] else old(rows)
    {
      affected := id in rows && rows[id].status == Queued;
      if affected {
        Record(Cancel(id));
        rows := rows[id := rows[id].(status := Cancelled)];
      }
    }

    method RetryOutboxEntry(id: Id) returns (affected: bool)
      requires Valid()
      modifies this
      ensures Valid() && stage == old(stage) && pending == old(pending)
      ensures affected <==> id in old(rows) && old(rows)[id].status == Failed
      ensures trace == if affected then old(trace) + [AdminRetry(id)] else old(trace)
      ensures rows == if affected
                      then old(rows)[id := old(rows)[id].(status := Queued, attemptCount := 0, nextAttemptAt := None)]
                      else old(rows)
      ensures affected ==> Tries(trace, id) == 0
    {
      affected := id in rows && rows[id].status == Failed;
      if affected {
        Record(AdminRetry(id));
        rows := rows[id := rows[id].(status := Queued, attemptCount := 0, nextAttemptAt := None)];
        assert Last(trace) == AdminRetry(id);
      }
    }

    method AddEmail(id: Id, order: Order, maxAttempts: int, scheduledAt: Option<int>, sendAfter: Option<int>)
      requires Valid() && id !in rows
      modifies this
      ensures Valid() && stage == old(stage) && pending == old(pending)
      ensures trace == old(trace) + [Enqueue(id, order, maxAttempts, scheduledAt, sendAfter)]
      ensures rows == old(rows)[id := Row(order, Queued, 0, maxAttempts, scheduledAt, sendAfter, None)]
    {
      Record(Enqueue(id, order, maxAttempts, scheduledAt, sendAfter));
      rows := rows[id := Row(order, Queued, 0, maxAttempts, scheduledAt, sendAfter, None)];
    }

    /** The environment's actions, each of which only changes rows and extends the trace. */
    method Interfere(actions: seq<AdminAction>)
      requires Valid()
      modifies this
      ensures Valid() && stage == old(stage) && pending == old(pending)
      ensures old(trace) <= trace && NoWorkerStep(trace, |old(trace)|)
    {
      for i := 0 to |actions|
        invariant Valid() && stage == old(stage) && pending == old(pending)
        invariant old(trace) <= trace && NoWorkerStep(trace, |old(trace)|)
      {
        match actions[i] {
          case DoCancel(id) => var _ := CancelOutboxEntry(id);
          case DoRetry(id) => var _ := RetryOutboxEntry(id);
          case DoEnqueue(id, order, m, at, after) =>
            if id !in rows {
              AddEmail(id, order, m, at, after);
            }
        }
      }
    }

    // -------------------------------------------------------------------- the worker

    /** The first of some rows, by priority and then by age. */
    method FirstOf(candidates: set<Id>) returns (first: Id)
      requires candidates != {} && candidates <= rows.Keys
      ensures first in candidates
      ensures forall id :: id in candidates ==> NotAfter(rows[first].order, rows[id].order)
    {
      first :| first in candidates;
      var rest := candidates;
      while rest != {}
        invariant rest <= candidates && first in candidates
        invariant forall id :: id in candidates - rest ==> NotAfter(rows[first].order, rows[id].order)
        decreases rest
      {
        var id :| id in rest;
        rest := rest - {id};
        if !NotAfter(rows[first].order, rows[id].order) {
          first := id;
        }
      }
    }

    /** The first due rows by priority and age, as many as the batch holds. */
    method SelectDue(now: int) returns (ids: seq<Id>)
      ensures |ids| <= cfg.batchSize && Distinct(ids)
      ensures forall i :: 0 <= i < |ids| ==> ids[i] in rows && Due(rows[ids[i]], now)
      ensures forall i :: 0 <= i < |ids| ==>
                && rows[ids[i]].status == Queued
                && (rows[ids[i]].scheduledAt.Some? ==> rows[ids[i]].scheduledAt.value <= now)
                && (rows[ids[i]].sendAfter.Some? ==> rows[ids[i]].sendAfter.value <= now)
                && (rows[ids[i]].nextAttemptAt.Some? ==> rows[ids[i]].nextAttemptAt.value <= now)
      ensures |ids| < cfg.batchSize ==>
                forall id :: id in rows && rows[id].status == Queued
                  && (rows[id].scheduledAt.Some? ==> rows[id].scheduledAt.value <= now)
                  && (rows[id].sendAfter.Some? ==> rows[id].sendAfter.value <= now)
                  && (rows[id].nextAttemptAt.Some? ==> rows[id].nextAttemptAt.value <= now)
                  ==> id in ids
      ensures forall i, j :: 0 <= i < j < |ids| ==> NotAfter(rows[ids[i]].order, rows[ids[j]].order)
      ensures forall i, id :: 0 <= i < |ids| && id in rows && Due(rows[id], now) && id !in ids ==>
                NotAfter(rows[ids[i]].order, rows[id].order)
    {
      var candidates := set id | id in rows && Due(rows[id], now);
      ids := [];
      while candidates != {} && |ids| < cfg.batchSize
        invariant |ids| <= cfg.batchSize && Distinct(ids)
        invariant forall id :: id in candidates <==> id in rows && Due(rows[id], now) && id !in ids
        invariant forall i :: 0 <= i < |ids| ==> ids[i] in rows && Due(rows[ids[i]], now)
        invariant forall i, j :: 0 <= i < j < |ids| ==> NotAfter(rows[ids[i]].order, rows[ids[j]].order)
        invariant forall i, id :: 0 <= i < |ids| && id in candidates ==> NotAfter(rows[ids[i]].order, rows[id].order)
        decreases candidates
      {
        var id := FirstOf(candidates);
        candidates := candidates - {id};
        ids := ids + [id];
      }
    }

    /** The batch is a copy of the rows selected. */
    method GetPendingEmails(now: Instant) returns (emails: seq<Email>)
      requires Valid() && stage == Between && pending == []
      modifies this`trace, this`stage, this`pending
      ensures Valid() && stage == Between && pending == emails
      ensures |emails| <= cfg.batchSize && |trace| == |old(trace)| + 1 && old(trace) < trace
      ensures Last(trace).Fetch? && Last(trace).now == now
      ensures forall i :: 0 <= i < |emails| ==> emails[i].id in rows && Due(rows[emails[i].id], now)
      ensures |emails| < cfg.batchSize ==>
                forall id :: id in rows && Due(rows[id], now) ==> Among(emails, id)
      ensures forall i, j :: 0 <= i < j < |emails| ==> NotAfter(rows[emails[i].id].order, rows[emails[j].id].order)
      ensures forall i, id :: 0 <= i < |emails| && id in rows && Due(rows[id], now) && !Among(emails, id) ==>
                NotAfter(rows[emails[i].id].order, rows[id].order)
    {
      var ids := SelectDue(now);
      emails := Snapshots(rows, ids);
      Record(Fetch(now, ids));
      assert Last(trace) == Fetch(now, ids);
      forall id | id in ids ensures Among(emails, id) {
        var i :| 0 <= i < |ids| && ids[i] == id;
        assert emails[i].id == id;
      }
    }

    method ScheduleRetry(email: Email, s: Script, delay: int)
      requires Valid() && stage == Handling(email) && ShouldRetry(cfg, email)
      requires MayYield(cfg, email.attemptCount, s.now, Some(delay))
      modifies this
      ensures Valid() && stage == Between && pending == old(pending)
      ensures trace == old(trace) + [Settle(email.id, s.now, Some(delay), s.settle)]
      ensures email.id in old(rows)
      ensures rows == if s.settle.Rejected? then old(rows) else
                old(rows)[email.id := old(rows)[email.id].(
                  status := Queued,
                  attemptCount := old(rows)[email.id].attemptCount + 1,
                  nextAttemptAt := Some(s.now + delay))]
    {
      Invariant(cfg, trace);
      Record(Settle(email.id, s.now, Some(delay), s.settle));
      if !s.settle.Rejected? {
        rows := rows[email.id := Rescheduled(rows[email.id], s.now + delay)];
      }
    }

    method MarkFailed(email: Email, s: Script)
      requires Valid() && stage == Handling(email) && !ShouldRetry(cfg, email)
      modifies this
      ensures Valid() && stage == Between && pending == old(pending)
      ensures trace == old(trace) + [Settle(email.id, s.now, Some(0), s.settle)]
      ensures email.id in old(rows)
      ensures rows == if s.settle.Rejected? then old(rows) else
                old(rows)[email.id := old(rows)[email.id].(status := Failed)]
    {
      Invariant(cfg, trace);
      Record(Settle(email.id, s.now, Some(0), s.settle));
      if !s.settle.Rejected? {
        rows := rows[email.id := rows[email.id].(status := Failed)];
      }
    }

    /** The panic of `calculate_backoff` ends the worker, which restarts with an empty batch. */
    ghost method Panic(email: Email, s: Script)
      requires Valid() && stage == Handling(email) && ShouldRetry(cfg, email)
      requires CalculateBackoff(cfg.delays, email.attemptCount, s.random, s.now).None?
      modifies this`trace, this`stage, this`pending
      ensures Valid() && stage == Between && pending == []
      ensures trace == old(trace) + [Settle(email.id, s.now, None, s.settle)]
    {
      Invariant(cfg, trace);
      Record(Settle(email.id, s.now, None, s.settle));
    }

    method HandleDeliveryError(email: Email, s: Script) returns (panicked: bool)
      requires Valid() && stage == Handling(email)
      modifies this
      ensures Valid() && stage == Between
      ensures old(trace) < trace && Last(trace) == Settle(email.id, s.now, Drawn(cfg, email, s), s.settle)
      ensures Accepted(trace, email.id) == Accepted(old(trace), email.id)
      ensures panicked <==> Drawn(cfg, email, s).None?
      ensures pending == if panicked then [] else old(pending)
    {
      ghost var start := trace;
      Interfere(s.beforeWrite);
      NoDeliveries(start, trace, email.id);
      start, panicked := trace, false;
      if email.attemptCount < Min(email.maxAttempts, cfg.maxRetries) {
        var delay := CalculateBackoff(cfg.delays, email.attemptCount, s.random, s.now);
        if delay.Some? {
          ScheduleRetry(email, s, delay.value);
        } else {
          Panic(email, s);
          panicked := true;
        }
      } else {
        MarkFailed(email, s);
      }
      assert Init(trace) == start;
      Unaccepted(trace, email.id);
    }

    /** The unguarded status write that opens `process_email`. */
    method MarkSending(email: Email, write: Write, before: seq<AdminAction>)
      requires Valid() && stage == Between && pending != [] && pending[0] == email
      modifies this
      ensures Valid() && pending == old(pending)[1..]
      ensures old(trace) < trace && Last(trace) == Claim(email.id, write)
      ensures stage == if write.Committed? then Providing(email) else Between
      ensures !write.Rejected? ==> email.id in rows && rows[email.id].status == Sending
      ensures Accepted(trace, email.id) == Accepted(old(trace), email.id)
    {
      ghost var start := trace;
      Interfere(before);
      NoDeliveries(start, trace, email.id);
      Invariant(cfg, trace);
      Record(Claim(email.id, write));
      Unaccepted(trace, email.id);
      if !write.Rejected? {
        rows := rows[email.id := rows[email.id].(status := Sending)];
      }
    }

    method GetOrCreateProvider(email: Email, found: bool, before: seq<AdminAction>)
      requires Valid() && stage == Providing(email)
      modifies this
      ensures Valid() && pending == old(pending)
      ensures old(trace) < trace && Last(trace) == Provide(email.id, found)
      ensures stage == if found then Delivering(email) else Handling(email)
      ensures Accepted(trace, email.id) == Accepted(old(trace), email.id)
    {
      ghost var start := trace;
      Interfere(before);
      NoDeliveries(start, trace, email.id);
      Record(Provide(email.id, found));
      Unaccepted(trace, email.id);
    }

    method SendEmail(email: Email, accepted: bool, before: seq<AdminAction>)
      requires Valid() && stage == Delivering(email)
      modifies this
      ensures Valid() && pending == old(pending)
      ensures old(trace) < trace && Last(trace) == Deliver(email.id, accepted)
      ensures stage == if accepted then Recording(email) else Handling(email)
      ensures Accepted(trace, email.id) == Accepted(old(trace), email.id) + (if accepted then 1 else 0)
    {
      ghost var start := trace;
      Interfere(before);
      NoDeliveries(start, trace, email.id);
      Record(Deliver(email.id, accepted));
    }

    method MarkAsSent(email: Email, write: Write, before: seq<AdminAction>)
      requires Valid() && stage == Recording(email)
      modifies this
      ensures Valid() && pending == old(pending) && stage == Between
      ensures old(trace) < trace && Last(trace) == MarkSent(email.id, write)
      ensures email.id in rows && rows[email.id].status == if write.Rejected? then Sending else Sent
      ensures Accepted(trace, email.id) == Accepted(old(trace), email.id)
    {
      ghost var start := trace;
      Interfere(before);
      NoDeliveries(start, trace, email.id);
      Invariant(cfg, trace);
      Record(MarkSent(email.id, write));
      Unaccepted(trace, email.id);
      if !write.Rejected? {
        rows := rows[email.id := rows[email.id].(status := Sent)];
      }
    }

    /** Processes the first pending email. It reports a delivery only if the provider accepted the
        email, and makes at most one provider call for it. */
    method ProcessEmail(email: Email, s: Script) returns (outcome: Outcome)
      requires Valid() && stage == Between && pending != [] && pending[0] == email
      modifies this
      ensures Valid() && stage == Between && old(trace) < trace
      ensures pending == if outcome == Panicked then [] else old(pending)[1..]
      ensures Accepted(trace, email.id) == Accepted(old(trace), email.id) + (if Provided(s) && s.accepted then 1 else 0)
      ensures outcome == Delivered <==> Provided(s) && s.accepted && s.mark.Committed?
    {
      MarkSending(email, s.claim, s.beforeClaim);
      if !s.claim.Committed? {
        return Errored;
      }
      GetOrCreateProvider(email, s.found, s.beforeLookup);
      if s.found {
        SendEmail(email, s.accepted, s.beforeCall);
      }
      if s.found && s.accepted {
        MarkAsSent(email, s.mark, s.beforeWrite);
        return if s.mark.Committed? then Delivered else Errored;
      }
      var panicked := HandleDeliveryError(email, s);
      return if panicked then Panicked else Errored;
    }

    /** One poll. Without a panic every fetched email is counted exactly once, as sent or as failed. */
    method ProcessBatch(now: Instant, script: nat -> Script) returns (stats: Stats, panicked: bool, fetched: nat)
      requires Valid() && stage == Between && pending == []
      modifies this
      ensures Valid() && stage == Between && pending == [] && old(trace) < trace
      ensures fetched <= cfg.batchSize && stats.processed == stats.sent
      ensures !panicked ==> stats.sent + stats.failed == fetched
      ensures panicked ==> stats.sent + stats.failed < fetched
      ensures stats.sent == DeliveredAmong(script, stats.sent + stats.failed)
    {
      var emails := GetPendingEmails(now);
      fetched, panicked, stats := |emails|, false, Stats(0, 0, 0);
      var i := 0;
      while i < |emails|
        invariant 0 <= i <= |emails| == fetched && !panicked
        invariant Valid() && stage == Between && pending == emails[i..] && old(trace) < trace
        invariant stats.processed == stats.sent && stats.sent + stats.failed == i
        invariant stats.sent == DeliveredAmong(script, i)
      {
        var outcome := ProcessEmail(emails[i], script(i));
        assert emails[i..][1..] == emails[i + 1..];
        match outcome {
          case Delivered => stats := stats.(processed := stats.processed + 1, sent := stats.sent + 1);
          case Errored => stats := stats.(failed := stats.failed + 1);
          case Panicked =>
            panicked := true;
            return;
        }
        i := i + 1;
      }
    }
  }

  /** The backoff the worker computes for a failed email; it computes none when it gives up. */
  function Drawn(cfg: Config, email: Email, s: Script): Option<int> {
    if ShouldRetry(cfg, email) then CalculateBackoff(cfg.delays, email.attemptCount, s.random, s.now) else Some(0)
  }

  ghost predicate Among(emails: seq<Email>, id: Id) {
    exists i :: 0 <= i < |emails| && emails[i].id == id
  }

  predicate Provided(s: Script) { s.claim.Committed? && s.found }

  /** How many of the first `n` scripts end in a recorded delivery. */
  function DeliveredAmong(script: nat -> Script, n: nat): nat {
    if n == 0 then 0 else
      DeliveredAmong(script, n - 1)
      + (if Provided(script(n - 1)) && script(n - 1).accepted && script(n - 1).mark.Committed? then 1 else 0)
  }

  ghost predicate NoWorkerStep(es: seq<Event>, from: nat) {
    forall i :: from <= i < |es| ==> es[i].Enqueue? || es[i].Cancel? || es[i].AdminRetry?
  }

  lemma Unaccepted(es: seq<Event>, id: Id)
    requires es != [] && Last(es) != Deliver(id, true)
    ensures Accepted(es, id) == Accepted(Init(es), id)
  {
  }

  lemma {:induction false} NoDeliveries(es: seq<Event>, fs: seq<Event>, id: Id)
    requires es <= fs && NoWorkerStep(fs, |es|)
    ensures Accepted(fs, id) == Accepted(es, id)
  {
    if es != fs {
      assert !Last(fs).Deliver?;
      NoDeliveries(es, Init(fs), id);
    } else {
      assert es == fs;
    }
  }
}
