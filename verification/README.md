# Verified core of the chat server

Dafny models of the stateful and codec parts of the server, with proofs of what they are for. Each
module takes the form of the code it models: an object whose fields the code updates is a class,
proved to follow a specification function of its history; the theorems are about all histories,
runs, strings or trees of that specification.

- **Circuit breaker and retry** (`CircuitBreaker.dfy`, `Retry.dfy`). `check_state`, `on_success` and
  `on_failure` each hold the state mutex for their whole body, so any interleaving of requests is a
  sequence of these three steps. The fields are shown to be functions of that sequence alone.
- **Email outbox** (`Backoff.dfy`, `Outbox.dfy`, `OutboxTheorems.dfy`, `OutboxWorker.dfy`). Rows, one worker with a
  fetched snapshot, and admin actions, write errors and crashes between any two of its steps. The
  worker code is shown to move only along runs of this system. The backoff is computed in 64-bit
  integers, wrapping or checked, and ends in a date of limited range.
- **Mattermost identifiers** (`Digits.dfy`, `MmId.dfy`, `Uuids.dfy`). The bit-buffer loops of the
  base-32 codec against a positional numeral, down to the bits that the 32-bit word loses.
- **Rate limiter** (`RateLimiter.dfy`). The pruned, expiring sorted set against the history of calls.
- **Single sign-on** (`SsoIdentity.dfy`, `Strings.dfy`). Lookup, link and create over user rows, and
  the username search.
- **Direct channels** (`DirectChannels.dfy`). Two name printers, one parser, and the two
  get-or-creates, the soft delete and the restore that depend on them.
- **Response differ** (`JsonDiff.dfy`). Normalising and comparing JSON trees of any depth.
- **Presence registry** and **policy engine** (`Presence.dfy`, `Policy.dfy`).

`dafny verify dfyconfig.toml` checks everything.

## Where the code does less than its documentation suggests

Each of these is stated as an exact condition, with the failing case proved.

- The limiter counts distinct seconds, not calls (`RateLimiter.LimitsCallsExactly`).
- Cancelling an email that is already in the fetched batch does not stop it
  (`OutboxTheorems.CancellationFinalExactly`).
- A deleted direct channel with the canonical name cannot be opened again by `create_channel` until
  it is restored, since the uniqueness constraint also covers deleted rows
  (`DirectStore.FailsUntilRestored`); the version 4 interface hands out the deleted row
  (`DirectStore.V4OpensGone`).
- A restore can leave a pair with two live channels (`DirectStore.OneLiveExactly`), and so can a direct
  channel that an administrator inserts (`DirectStore.InsertKeepsExactly`, `DirectStore.AdminMakesTwo`).
- A crash between the claim and the end of an email leaves it in Sending for good, since only failed
  rows can be retried (`OutboxTheorems.StuckExactly`, `OutboxTheorems.StuckReached`).
- `calculate_backoff` panics for delays that leave the range of dates, and for powers that overflow in a
  build with overflow checks (`Backoff.NeverFaultsExactly` for either build, `Backoff.HugeDelayFaults`,
  `Backoff.BuildsDiffer`).
- The breaker's failure counter is a `u32` that a release build lets wrap (`BreakerTheorems.CounterWraps`).
  The state machine is not affected, and `BreakerTheorems.TrippedCounter` gives the counter's exact value.
- The first retry sleep is not clamped to the maximal delay (`Retry.FirstSleepCapped`).
- The username fallback is not checked against the table (`Usernames.TakenExactly`).
- A comparison reports a difference for NaN even against itself (`JsonDiff.CompareResponses`).

## Model

| member | source | states |
|---|---|---|
| `BreakerTheorems.HistoryRefinement` | backend/src/middleware/reliability.rs:99-185 | For every history of atomic steps of any number of requests: `lastFailure` is the time of the latest failure completion; while Closed, `failures` is the number of failures since the last success and is below the threshold; while Open or HalfOpen a failure time is recorded; while HalfOpen, `successes` counts the successes since the probe and is below its threshold. |
| `BreakerTheorems.TrippedCounter` | backend/src/middleware/reliability.rs:129-185 | In every reachable state the failure counter equals, modulo 2^32, the failures since a success last left the breaker closed, and while it is not closed that number is at least the threshold: the counter stands below the threshold exactly when it has wrapped there. |
| `BreakerTheorems.TrippedBelowWrap` | backend/src/middleware/reliability.rs:158-185 | An Open or HalfOpen breaker has `failures >= failure_threshold` in every history with fewer than 2^32 failures. |
| `BreakerTheorems.CounterWraps` | backend/src/middleware/reliability.rs:158-185 | That bound is sharp: after 2^32 failures an open breaker counts none. |
| `BreakerTheorems.OpensExactly` | backend/src/middleware/reliability.rs:158-185 | A closed breaker opens on a step if and only if the step is the failure that completes an unbroken run of `failure_threshold` failures. |
| `BreakerTheorems.ClosesExactly` | backend/src/middleware/reliability.rs:129-185 | A half-open breaker closes on a step if and only if it is the `success_threshold`-th success since the probe, and reopens if and only if it is a failure. |
| `BreakerTheorems.RefusesExactly` | backend/src/middleware/reliability.rs:99-126 | For every history and time: a request is refused if and only if the breaker is Open and less than `recovery_timeout` has passed since the latest failure of the whole history, late ones included; Closed and HalfOpen always admit. |
| `BreakerTheorems.AdmitsExactly` | backend/src/middleware/reliability.rs:99-126 | An open breaker has a recorded failure, so the default for a missing time is unreachable; a check makes it half-open if and only if the timeout has passed, and completions never move it. |
| `BreakerTheorems.CoolDown` | backend/src/middleware/reliability.rs:99-185 | Over any segment of steps within the timeout, whatever late completions it holds, the breaker stays open and admits nothing. |
| `BreakerTheorems.CoolDownDrains` | backend/src/middleware/reliability.rs:74-126 | During the cool-down completions equal the decrease of requests in flight, so the failures that can prolong it are at most the requests in flight when it began. |
| `BreakerTheorems.RecoveryRun` | backend/src/middleware/reliability.rs:129-155 | Over any failure-free segment a half-open breaker ends closed exactly when the successes reach what the probe still needs. |
| `BreakerTheorems.TripRun` | backend/src/middleware/reliability.rs:158-185 | Over any success-free segment a closed breaker stays closed exactly while the unbroken run of failures is below the threshold, however many checks come between. |
| `Breaker.CircuitBreaker.CheckState` | backend/src/middleware/reliability.rs:99-126 | Refuses exactly an Open breaker within `recovery_timeout` of the latest failure of its history, and follows the replay of the history by one check. |
| `Breaker.CircuitBreaker.OnSuccess` | backend/src/middleware/reliability.rs:129-155 | The object follows the replay of its history by one success. |
| `Breaker.CircuitBreaker.OnFailure` | backend/src/middleware/reliability.rs:158-185 | The object follows the replay of its history by one failure. |
| `Breaker.CircuitBreaker.Execute` | backend/src/middleware/reliability.rs:74-96 | One check, any steps of other requests during the protected call, one completion exactly if admitted, and the inner result or the circuit-open error. |
| `Retry.WithRetry` | backend/src/middleware/reliability.rs:266-319 | Between 1 and `max(1, max_attempts)` calls; returns the first success or the last error, an error only after `max(1, max_attempts)` calls, or one call if retrying is off; sleep number k is the closed form of the clamped exponential backoff. |
| `Retry.SleepsAre` | backend/src/middleware/reliability.rs:266-319 | That form spelled out: the first sleep is the initial delay, and sleep k + 1 is `initial * m^(k+1)` clamped to the maximal delay. |
| `Retry.BackoffStep` | backend/src/middleware/reliability.rs:266-319 | Multiplying the clamped delay and clamping again is one step of the closed form, for every multiplier including 0 and every initial delay. |
| `Retry.FirstSleepCapped` | backend/src/middleware/reliability.rs:266-319 | All sleeps are `min(initial * m^k, max_delay)` if and only if `initial_delay <= max_delay`; otherwise the first sleep escapes the cap. |
| `Resilience.WithResilience` | backend/src/middleware/reliability.rs:352-379 | A call adds one check and, exactly if admitted, one completion, however many inner retries it makes and whatever other requests do meanwhile; the inner calls and the result are those of the retry loop. |
| `ResilienceTheorems.FreshBreakerOpens` | backend/src/middleware/reliability.rs:352-379 | Sequential all-failing calls keep a fresh breaker closed until the `failure_threshold`-th, which opens it when exactly threshold times attempts inner calls have been made. |
| `ResilienceTheorems.OpenBreakerRecovers` | backend/src/middleware/reliability.rs:352-379 | On an open breaker whose timeout has passed, sequential succeeding calls are all admitted, and the `success_threshold`-th closes it. |
| `OutboxTheorems.Invariant` | backend/src/jobs/email_worker.rs:149-264 | Every reachable state of worker, admin, write-error and crash steps: the batch holds distinct, current copies of rows that are Queued or Cancelled; the email in hand is a current copy of a row in Sending; every row satisfies the send, attempt and spacing invariants. |
| `OutboxTheorems.AtMostOnce` | backend/src/jobs/email_worker.rs:179-227 | In every run each row has at most one successful provider call, and after it the row is Sending or Sent and not in the batch. |
| `OutboxTheorems.BoundedTries` | backend/src/jobs/email_worker.rs:229-264 | Between enqueue or admin retry and the next terminal status a row is sent at most `max(0, min(max_attempts, max_retries)) + 1` times. |
| `OutboxTheorems.ExactInvariant` | backend/src/jobs/email_worker.rs:179-264 | In runs where every delivery fails and nothing else does, the attempt count of every row is exactly its number of finished provider calls. |
| `OutboxTheorems.FailsAfterAllTries` | backend/src/jobs/email_worker.rs:229-264 | In such runs a row not in hand is Failed if and only if all `Bound + 1` sends have been made. |
| `OutboxTheorems.AllTriesReached` | backend/src/jobs/email_worker.rs:179-264 | The bound is tight: from any start of a clock that never goes back, if the calendar is long enough for the retries, a run in which every delivery fails makes all `Bound + 1` sends and ends in Failed. |
| `Backoff.CalendarSuffices` | backend/src/jobs/email_worker.rs:606-619 | The calendar is long enough if base and cap are at least 10, the last power fits, and the number of retries times the cap ends before the last date. |
| `Backoff.BackoffSafeExactly` | backend/src/jobs/email_worker.rs:606-619 | In a build that checks overflow and in one that wraps, `calculate_backoff` panics for no random draw if and only if the delay that the build computes has a jitter and its earliest and latest result are dates. |
| `Backoff.BuildsAgree` | backend/src/jobs/email_worker.rs:606-619 | Unless the power overflows, both builds compute the same delays from safe settings. |
| `Backoff.NeverFaultsExactly` | backend/src/jobs/email_worker.rs:606-619 | For every base, cap, limit and build: no attempt below the limit panics for any draw if and only if each of them meets that condition. |
| `Backoff.FirstAndLastDecide` | backend/src/jobs/email_worker.rs:606-619 | Where no power can wrap, which a checked build guarantees, the first and the last attempt decide for all. |
| `Backoff.MiddleFaults` | backend/src/jobs/email_worker.rs:606-619 | Where one can wrap they do not: settings for which only the attempt between them panics. |
| `Backoff.BuildsDiffer` | backend/src/jobs/email_worker.rs:606-619 | Settings that separate the builds: in the wrapping one both attempts are safe, in the checking one the second is not. |
| `Backoff.LargestDelayDecides` | backend/src/jobs/email_worker.rs:606-619 | With base and cap at least 10, in either build: the last power fits and the first and the last attempt are safe if and only if `max_retries` is at most 63, `base * 2^(max_retries-1)` is within i64, and `d + d/10 - 1` seconds from now is still a date, for the largest delay d. |
| `Backoff.HugeDelayFaults` | backend/src/jobs/email_worker.rs:606-619 | Base and cap at least 10 and a power within i64 are not enough: base 14 with an unbounded cap panics at attempt 59 for every draw and clock. |
| `Backoff.DefaultsAreSafe` | backend/src/jobs/email_worker.rs:33-45 | The default settings are safe at every time but the last minutes of the calendar. |
| `Backoff.HopelessExactly` | backend/src/jobs/email_worker.rs:606-619 | From a given reading of the clock on, an attempt panics for every draw if and only if its delay overflows in a checked build, has no jitter, or leaves the range of dates at its best draw. |
| `Backoff.BackoffRange` | backend/src/jobs/email_worker.rs:606-619 | Unless the power wraps, every delay is at least `d - d/10`, and for positive base and cap lies in `[d - d/10, d + d/10)` with d at least 10, for `d = min(base * 2^attempt, cap)`. |
| `Backoff.DefaultSecondRetry` | backend/src/jobs/email_worker.rs:606-619 | The second retry of the default settings waits 108 seconds plus the random value modulo 24. |
| `Backoff.PowerOverflowsExactly` | backend/src/jobs/email_worker.rs:606-619 | The power overflows if and only if `2^attempt` or its product with the base leaves i64. |
| `Backoff.RemainderIs` | backend/src/jobs/email_worker.rs:606-619 | The remainder used for the jitter is the Euclidean one. |
| `Backoff.WrapIs` | backend/src/jobs/email_worker.rs:606-619 | A wrapped value differs from the true one by a multiple of 2^64. |
| `Backoff.WrappedDelay` | backend/src/jobs/email_worker.rs:606-619 | The hypothesis is needed: a wrapped power gives a negative delay. |
| `OutboxTheorems.BackoffNeverFaults` | backend/src/jobs/email_worker.rs:229-264 | In every reachable state the backoff is computed only with `0 <= attempt_count < max_retries`, so settings that are safe for those never panic there, overflow and dates included. |
| `OutboxTheorems.RetrySpacing` | backend/src/jobs/email_worker.rs:149-176 | In every run, for every base and cap whose powers cannot wrap, a failed row is never fetched again sooner than `d - d/10` seconds after the failure was handled, for `d = min(base * 2^attempt, cap)`. |
| `OutboxTheorems.SentWhenDue` | backend/src/jobs/email_worker.rs:149-227 | In every run each provider call follows a fetch at which the row was Queued and its `scheduled_at`, `send_after` and `next_attempt_at` were each absent or reached, and the worker has had the email ever since. |
| `OutboxTheorems.CancelledStays` | backend/src/api/admin_email.rs:989-1010 | A cancelled row out of reach of the worker stays cancelled and is never sent in any continuation. |
| `OutboxTheorems.CancellationFinalExactly` | backend/src/jobs/email_worker.rs:179-190 | Under a clock that never goes back, a cancellation is final in every continuation if and only if the row is not in the fetched batch or the worker is bound to lose that batch; otherwise a continuation that still sends the email is constructed. |
| `OutboxTheorems.ReachEntry` | backend/src/jobs/email_worker.rs:108-190 | From every reachable state between emails any batch entry can still be sent, cancelled or not. |
| `OutboxTheorems.LateCancel` | backend/src/jobs/email_worker.rs:149-190 | The failing case is reachable: a cancellation between fetch and claim, after which a run still sends the email. |
| `OutboxTheorems.StuckForever` | backend/src/api/admin_email.rs:1012-1041 | A row in Sending whose email the worker does not hold, or is bound to lose, is never sent, requeued, failed or retried in any continuation, whatever administrators do. |
| `OutboxTheorems.StuckExactly` | backend/src/jobs/email_worker.rs:149-227 | A row stays in Sending in every continuation if and only if it is so stuck. |
| `OutboxTheorems.StuckReached` | backend/src/jobs/email_worker.rs:179-183 | A crash right after the claim leaves an email stuck that no provider has seen. |
| `OutboxWorker.Outbox.CancelOutboxEntry` | backend/src/api/admin_email.rs:989-1010 | Changes exactly a Queued row to Cancelled and reports whether it did; the table stays on a run. |
| `OutboxWorker.Outbox.RetryOutboxEntry` | backend/src/api/admin_email.rs:1012-1041 | Requeues exactly a Failed row with attempt count 0 and no next attempt time; the count of tries restarts at 0. |
| `OutboxWorker.Outbox.SelectDue` | backend/src/jobs/email_worker.rs:149-176 | Distinct queued rows whose schedule, quiet time and retry time are each absent or reached, in order of priority and age, at most the batch size; no such row left out comes before a row selected, and none is left out when the batch is not full. |
| `OutboxTheorems.OrderExactly` | backend/src/jobs/email_worker.rs:160-168 | That order: high before normal before low, then older before newer. |
| `OutboxWorker.Outbox.GetPendingEmails` | backend/src/jobs/email_worker.rs:149-176 | The batch is a copy of the selected rows in that order, no due row left out comes before one in it, and the fetch is a step of a run. |
| `OutboxWorker.Outbox.HandleDeliveryError` | backend/src/jobs/email_worker.rs:229-264 | With admin actions interleaved before its write, reschedules, gives up or panics as the run prescribes; it panics exactly if the backoff does, and then loses the batch; no delivery is counted. |
| `OutboxWorker.Outbox.ScheduleRetry` | backend/src/jobs/email_worker.rs:460-496 | The unguarded write back to Queued is a step of a run for each way it can end. |
| `OutboxWorker.Outbox.MarkFailed` | backend/src/jobs/email_worker.rs:499-531 | Likewise for the write to Failed. |
| `OutboxWorker.Outbox.MarkSending` | backend/src/jobs/email_worker.rs:407-432 | The unguarded write to Sending, with admin actions interleaved, is a step of a run for each way the write can end. |
| `OutboxWorker.Outbox.MarkAsSent` | backend/src/jobs/email_worker.rs:435-457 | Likewise for the write to Sent. |
| `OutboxWorker.Outbox.ProcessEmail` | backend/src/jobs/email_worker.rs:179-227 | At most one provider call per fetched email; success is reported if and only if the provider accepted it and the write committed; the email leaves the batch. |
| `OutboxWorker.Outbox.ProcessBatch` | backend/src/jobs/email_worker.rs:108-146 | Without a panic every fetched email is counted exactly once, as sent or as failed, and `sent` is the number of recorded deliveries. |
| `MmId.EncodeBase32` | backend/src/mattermost_compat/id.rs:27-49 | The loop over a 32-bit word computes the 26-digit base-32 numeral of the UUID with two zero bits appended. |
| `MmId.EncodeByte` | backend/src/mattermost_compat/id.rs:32-41 | One turn of the outer loop: symbols written and unread bits together are the bytes read so far; fewer than 5 bits stay unread. |
| `MmId.EmitSymbols` | backend/src/mattermost_compat/id.rs:36-40 | The inner loop, from at most 12 unread bits, writes whole symbols and keeps the value pending. |
| `MmId.DecodeBase32` | backend/src/mattermost_compat/id.rs:51-75 | For inputs of every length: succeeds if and only if all characters are symbols and there are at least 26, and then reads the numeral of the first 26 and drops its two pad bits. |
| `MmId.DecodeSymbol` | backend/src/mattermost_compat/id.rs:56-66 | One turn of the outer loop: bytes written and unread bits together are the symbols read so far. |
| `MmId.DecodeChar` | backend/src/mattermost_compat/id.rs:77-85 | The position in the alphabet of the lower-cased character, none if it is not there. |
| `MmId.DecodeMmId` | backend/src/mattermost_compat/id.rs:10-17 | Including the check of the byte length, the wrapper computes the closed form on every string. |
| `MmId.ShiftIn` | backend/src/mattermost_compat/id.rs:33-34 | Shifting bits into a word that loses its high bits keeps the unread tail exactly. |
| `MmId.ShiftFits` | backend/src/mattermost_compat/id.rs:33-34 | The word stays within its 32 bits. |
| `MmId.RoundTrip` | backend/src/mattermost_compat/id.rs:5-17 | For every UUID the identifier is well formed and decodes to the same UUID. |
| `MmId.DecodesExactly` | backend/src/mattermost_compat/id.rs:10-17 | A string decodes if and only if it has 26 characters, all in the alphabet ignoring ASCII case. |
| `MmId.UpperDecodes` | backend/src/mattermost_compat/id.rs:77-85 | The upper-cased identifier of every UUID decodes to it. |
| `Uuids.TextShape` | backend/src/mattermost_compat/id.rs:19-25 | The text form: lower-case digits, high half of each byte first, hyphens after 8, 12, 16 and 20 digits. |
| `Uuids.SpellingsRead` | backend/src/mattermost_compat/id.rs:19-25 | The plain, braced and URN spellings of every UUID are read as well. |
| `MmId.ReEncode` | backend/src/mattermost_compat/id.rs:27-75 | Decoding and encoding again gives the lower-cased string with the two pad bits of the last symbol cleared (section 3.5 of RFC 4648). |
| `MmId.DecodeAlikeExactly` | backend/src/mattermost_compat/id.rs:51-75 | Two well-formed strings decode alike if and only if they agree, ignoring case, on 25 symbols and on the top three bits of the last. |
| `MmId.BothSpellingsParse` | backend/src/mattermost_compat/id.rs:19-25 | Every UUID is parsed back from its identifier and from its text form, and neither spelling is ever read as the other. |
| `RateLimiter.Limiter.CheckRateLimit` | backend/src/middleware/rate_limit.rs:149-196 | Allows a call exactly if the allowed calls of the past window fill fewer than `max_requests` distinct seconds, and reports the remainder; the store stays in agreement with the history. |
| `RateLimiter.AgreesWithHistory` | backend/src/middleware/rate_limit.rs:149-196 | The pruned sorted set equals the distinct seconds with an allowed call in the past window: pruning and key expiry never drop a second the window counts. |
| `RateLimiter.WindowBound` | backend/src/middleware/rate_limit.rs:149-196 | In every run every window holds allowed calls in at most `max_requests` distinct seconds. |
| `RateLimiter.LimitsCallsExactly` | backend/src/middleware/rate_limit.rs:182-185 | The limiter bounds the number of calls per window if and only if `max_requests <= 1` or the window is empty; otherwise a burst within one second exceeds it. |
| `RateLimiter.BurstAllowed` | backend/src/middleware/rate_limit.rs:149-196 | With at least two requests allowed, any number of calls in one second is allowed. |
| `SsoIdentity.UserTable.FindOrCreateUser` | backend/src/api/oauth.rs:1636-1796 | The statements compute the three-stage resolution, given honest answers from the table. |
| `SsoIdentity.IdentitiesUnique` | backend/src/api/oauth.rs:1636-1796 | In every run of logins, registrations, profile edits and deletes no two live users share a provider and external id. |
| `SsoIdentity.LinkNeverChanges` | backend/src/api/oauth.rs:1698-1731 | A link once set keeps its provider and external id in every run, and only a delete takes the row away. |
| `SsoIdentity.LoginEstablishesLink` | backend/src/api/oauth.rs:1636-1796 | A successful login with an identity returns a live user that carries that identity. |
| `SsoIdentity.LinkedAccountRefused` | backend/src/api/oauth.rs:1691-1706 | A login that reaches an already linked account by email only is refused and changes nothing. |
| `SsoIdentity.IdentityStable` | backend/src/api/oauth.rs:1636-1796 | An identity once resolved to a user resolves to that user on every later login, whatever email it presents and whatever happens between, until the user is deleted. |
| `SsoIdentity.ProvisionsExactly` | backend/src/api/oauth.rs:1733-1796 | A login adds one row if and only if no live user has the identity or, ignoring ASCII case, the email, provisioning is on, and the insert goes through; without provisioning such a login is refused and changes nothing. |
| `SsoIdentity.ProvisionedUser` | backend/src/api/oauth.rs:1733-1796 | The added row carries the presented email and identity, and the desired role or else the default one; with fewer than 1000 usernames its username is new. |
| `SsoIdentity.ClosedServer` | backend/src/api/oauth.rs:1733-1739 | In every run without provisioning the table grows exactly by the registrations. |
| `SsoIdentity.LoginChangesOnly` | backend/src/api/oauth.rs:1653-1731 | Of existing rows a login changes only the one that it returns: the role if the provider is OIDC with a role to give, and a link that was missing. |
| `SsoIdentity.FoundIsReturned` | backend/src/api/oauth.rs:1653-1731 | A user found by identity, or by email without a link, is the one returned. |
| `SsoIdentity.ExternalIs` | backend/src/api/oauth.rs:1646-1651 | The external id counts without the white space around it, and not at all if nothing is left. |
| `Usernames.GenerateUniqueUsername` | backend/src/api/oauth.rs:1819-1856 | The base if it is free, else the base with the least free number from 1 to 999, else the base, an underscore and the suffix. |
| `Strings.DecimalReads` | backend/src/api/oauth.rs:1834-1835 | The number is printed in decimal digits without a leading zero, and is read back from them. |
| `Usernames.SearchStops` | backend/src/api/oauth.rs:1819-1856 | The result is the first candidate not in the table, or the fallback if every candidate is taken. |
| `Usernames.TakenExactly` | backend/src/api/oauth.rs:1819-1856 | The result is already taken if and only if all 1000 candidates and the unchecked fallback are. |
| `Usernames.FallbackTaken` | backend/src/api/oauth.rs:1819-1856 | The failing case: a table with exactly those names. |
| `Usernames.UnusedByPigeonhole` | backend/src/api/oauth.rs:1819-1856 | With fewer than 1000 usernames the result is unused and is the first free candidate. |
| `DirectNames.NamesParse` | backend/src/models/channel.rs:97-132 | Both printers, in either argument order, parse to the same sorted pair. |
| `DirectNames.NamesIdentifyPairs` | backend/src/models/channel.rs:97-117 | Each format is injective on unordered pairs and the two formats are disjoint. |
| `DirectNames.NamesAre` | backend/src/models/channel.rs:97-117 | Both names spell the user with the smaller first differing byte first, in either argument order. |
| `DirectNames.NormaliseIs` | backend/src/mattermost_compat/mappers.rs:139-145 | Both names of a pair are shown as the canonical one, and a name without underscores is shown as it is. |
| `DirectNames.NormaliseIdempotent` | backend/src/mattermost_compat/mappers.rs:139-145 | Normalising a name twice is normalising it once, and keeps the pair it denotes. |
| `DirectStore.ChannelStore.CreateDirectChannel` | backend/src/api/channels.rs:247-353 | Computes the get-or-create, including the missing target; in the channel returned, new or not, exactly the two users are added as members, for an old one by parsing its name. |
| `DirectStore.ChannelStore.EnsureMembership` | backend/src/services/posts.rs:485-534 | Adds the pair parsed from the name of a live direct channel, and does nothing for any other channel. |
| `DirectStore.ChannelStore.CreateDirectChannelV4` | backend/src/api/v4/channels/direct.rs:126-213 | Returns the oldest row of the pair, deleted or not, or else the row that holds the canonical name, or else a new one; adds the two users. |
| `DirectStore.ChannelStore.DeleteChannel` | backend/src/api/channels.rs:525-551 | Marks exactly the given live row as deleted if the caller may; otherwise an error and no change. |
| `DirectStore.ChannelStore.RestoreChannel` | backend/src/api/v4/channels/crud.rs:503-525 | Clears exactly the deletion mark of the given row if the caller may. |
| `DirectStore.ChannelStore.CreateAdminChannel` | backend/src/api/admin.rs:1766-1790 | Inserts a channel of any kind under any name that no row of the team has. |
| `DirectStore.AtMostOneLive` | backend/src/api/channels.rs:247-353 | In every run of creations through either interface, deletes, and restores and administrator inserts that come when the pair has no live channel, each team and pair has at most one live direct channel, under either name. |
| `DirectStore.FirstChannel` | backend/src/api/channels.rs:247-353 | From the empty table, which satisfies the invariant, a first request makes a channel that both sides find. |
| `DirectStore.RestoreKeepsExactly` | backend/src/api/v4/channels/crud.rs:503-525 | A restore keeps that property if and only if the pair has no live channel already. |
| `DirectStore.InsertKeepsExactly` | backend/src/api/admin.rs:1766-1790 | An insert by an administrator keeps it if and only if the name is taken, or the row is not direct, or it has a printed name of a pair without a live channel. |
| `DirectStore.OneLiveExactly` | backend/src/api/v4/channels/crud.rs:503-525 | With restores at any moment: every run without direct channels inserted by administrators keeps it if and only if every legacy-named row is blocked, its canonical name being held by a channel that is not direct; so always when there are no legacy rows. |
| `DirectStore.AdminMakesTwo` | backend/src/api/admin.rs:1766-1790 | With such inserts it fails from the empty table on: both names of one pair. |
| `DirectStore.RestoreLegacy` | backend/src/api/v4/channels/crud.rs:503-525 | The failing case: delete the legacy channel, open the canonical one, restore the legacy one. |
| `DirectStore.InterfacesAgreeExactly` | backend/src/api/v4/channels/direct.rs:154-166 | The second interface returns the live channel of the first if and only if the pair has no older row. |
| `DirectStore.BothSidesShare` | backend/src/api/channels.rs:247-353 | After either side has opened the channel, both sides get the same one in every such run that does not delete it. |
| `DirectStore.FailsUntilRestored` | backend/migrations/20260121000003_channels.sql:21-21 | After a canonical direct channel is deleted, every request of either user fails in every run until a row of the pair is restored or inserted by an administrator. |
| `DirectStore.RestoreReopens` | backend/src/api/v4/channels/crud.rs:503-525 | Restoring a row of the pair makes exactly that row the answer again. |
| `DirectStore.V4OpensGone` | backend/src/api/v4/channels/direct.rs:154-166 | Meanwhile the second interface succeeds, with a row that is deleted or not direct. |
| `DirectStore.V4Returns` | backend/src/api/v4/channels/direct.rs:126-213 | Unless a channel of another kind holds the name, the row returned is of the requested pair, and a new one is made if and only if there is none, deleted ones included. |
| `DirectStore.DeleteMakesGone` | backend/src/api/channels.rs:525-551 | Deleting the canonical channel of a pair leads to that state. |
| `JsonDiff.CompareResponses` | backend/compat/replay_traces.py:51-76 | For all trees: the report lists every differing place once and nothing else, and is empty if and only if the trees are equal and free of NaN. |
| `JsonDiff.CompareNormalised` | backend/compat/replay_traces.py:38-76 | After normalising, the report is empty if and only if the originals are equal up to ignored keys at any depth, with no NaN outside them. |
| `JsonDiff.EmptyExactly` | backend/compat/replay_traces.py:51-76 | A complete report of differing places is empty if and only if the trees are equal and free of NaN. |
| `JsonDiff.ReportMeans` | backend/compat/replay_traces.py:51-76 | What each kind of entry says of the two trees, and how entries below a key or an index arise. |
| `JsonDiff.TypesAre` | backend/compat/replay_traces.py:54-56 | Types tell exactly the kinds of values apart; a truth value is not a number. |
| `JsonDiff.NormaliseTwice` | backend/compat/replay_traces.py:38-48 | Normalising by A and then by B is normalising by their union. |
| `JsonDiff.NormaliseIdempotent` | backend/compat/replay_traces.py:38-48 | Normalising twice is normalising once. |
| `JsonDiff.NormaliseEqualExactly` | backend/compat/replay_traces.py:38-48 | Normal forms are equal if and only if the trees are equal up to ignored keys at any depth. |
| `PresenceTheorems.RegistryInvariant` | backend/src/api/websocket_core.rs:85-261 | In every run, at every time, a connection with a live heartbeat key is in the set, and the set key outlives the heartbeat by at least 90 seconds. |
| `PresenceTheorems.RegisteredExactly` | backend/src/api/websocket_core.rs:85-261 | A connection is registered with a live heartbeat if and only if its last touch is less than 90 seconds old and it has not unregistered since. |
| `PresenceTheorems.StaysRegistered` | backend/src/api/ws.rs:116-127 | A connection each of whose touches is followed by another within 90 seconds is registered from its first touch until 90 seconds after its last, at every moment of every run, whatever other connections do before, between or after. |
| `Presence.PresenceRegistry.Register` | backend/src/api/websocket_core.rs:87-143 | Follows the run by one touch; an empty connection id changes nothing; afterwards the connection is active. |
| `Presence.PresenceRegistry.Heartbeat` | backend/src/api/websocket_core.rs:204-261 | Follows the run by one touch; an empty connection id changes nothing. |
| `Presence.PresenceRegistry.UnregisterConnection` | backend/src/api/websocket_core.rs:145-202 | Follows the run by one removal; the set key goes with its last member. |
| `Presence.PresenceRegistry.GlobalConnectionCount` | backend/src/realtime/cluster_limits.rs:22-57 | Counts exactly the connections touched in the last 90 seconds and not unregistered since, and drops the others. |
| `Policy.CheckPermission` | backend/src/auth/policy.rs:222-253 | Allows a permission if and only if some word that stands in the role string between delimiters or ends is a role that grants it, and reports an unknown role if and only if no such word is a role; managing the system takes exactly the word `system_admin`. |
| `Policy.TokensExactly` | backend/src/auth/policy.rs:222-226 | The tokens of every string are exactly its non-empty words between delimiters or ends. |
| `Policy.PlainToken` | backend/src/auth/policy.rs:222-226 | A string without delimiters is its own single token, and the empty string has none. |
| `Policy.JoinTokens` | backend/src/auth/policy.rs:222-226 | Joining role strings by any delimiter concatenates their tokens. |
| `Policy.JoinDecides` | backend/src/auth/policy.rs:222-253 | A joined string allows a permission if and only if one part does, and is unknown if and only if both parts are. |
| `Policy.JoinOrderIrrelevant` | backend/src/auth/policy.rs:222-253 | Order, repetition and choice of delimiter never change a decision. |
| `Policy.OnlySystemAdminManages` | backend/src/auth/policy.rs:95-208 | Managing the system is allowed if and only if the tokens include `system_admin`, which allows everything. |
| `Policy.RoleTables` | backend/src/auth/policy.rs:95-190 | What each role grants, permission by permission. |
| `Policy.KnownRoles` | backend/src/auth/policy.rs:198-208 | The six known role names. |
| `Policy.DelimitersAre` | backend/src/auth/policy.rs:222-226 | White space and the comma delimit, other printable ASCII does not. |

## Left out

- SQL, Redis, SMTP and HTTP execution, routing, scheduling, logging and metrics: tables, timed sets and outcomes given as parameters stand for them.
- Several outbox workers at once, and interleavings inside the login, channel, limiter and presence handlers, which take no lock across their statements: each handler is one atomic step.
- A batch SELECT that fails, which changes nothing, row deletion by cascade, event rows, error classification, provider selection, and the polling and restart delays of the worker. A crash or a panic returns the worker to its poll at any time.
- OutboxWorker.Outbox.AddEmail: takes the identifier of the new row as a parameter that must be unused, as generated identifiers are.
- Backoff.BackoffRange: takes a tenth of the delay by integer division where the code multiplies by the float 0.1 and truncates. The two agree below 2^50 seconds, and a longer delay leaves the range of dates either way.
- Retry.WithRetry: the multiplier is a natural number and delays are whole milliseconds, where the code scales a duration by a float; the wrapped call is a function from the number of earlier calls to its result.
- Names, log lines and the read-only state query of the breaker.
- The connection of limiter keys to clients and routes, and errors of the store: one key is modelled. The window start does not wrap for negative times.
- SsoIdentity.UserTable.FindOrCreateUser: the uniqueness of emails and usernames in the database is an insert that may be rejected; lower-casing is ASCII; building the base name from the profile and group synchronisation are not part of the model.
- DirectStore.ChannelStore.CreateDirectChannel: display names and broadcasts are not part of the model, and whether the target is a member of the team is a parameter. Channels are not renamed, moved to another team or given another type.
- DirectStore.ChannelStore.CreateDirectChannelV4: the team of the creator is a parameter, and the access rules between two users are not part of the model.
- DirectStore.ChannelStore.DeleteChannel: whether the caller may delete, and likewise restore, is a parameter.
- JsonDiff.CompareResponses: a difference is a path and a reason, not a formatted line, and object keys are visited in any order.
- Errors of the store in the presence handlers, the connection limit and the decision that a user is offline.
- Resource ownership in the policy engine: `check_ownership` compares two identifiers and otherwise asks for the same permission decision.
- Cryptography, passwords, API keys and tokens: wrappers over libraries that are not part of this model.
- CRUD handlers, search, files, playbooks, push payloads and configuration loading.
