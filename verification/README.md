# Uptime monitor: verified model

The monitor checks web sites on a schedule, keeps one store per site, mails alerts, and serves charts and a login.
This project models the parts whose promises span several functions and whole runs, and proves them with Dafny 4.11
(`dafny verify dfyconfig.toml`).

**Incidents and alerts.**

- `Incidents` holds `RecordTick`: the tick log, the rolled-up state row, the incidents table, the transition it reports,
  and maximal runs of down ticks as the independent definition of an outage.
- `Keys`, `Alerting` and `Ledger` hold the dedupe keys, the alert decisions and the delivery rows.
- `Dispatcher` is the dispatcher as a class, running alone.
- `Exactness` and `Promise` compose ticks with in-order, loss-free dispatch and say exactly which rows the ledger gets.
- `Protocol` is the concurrent system as steps: commit, enqueue or drop, take, evaluate, claim, send, back off, mark,
  configuration edits, shutdown, crash and restart. `Safety` and `Origins` are what it keeps under every interleaving,
  `Deliveries` which rows are settled in the end and after how many sends, and `Progress` that events and shutdown end.
- `Steady` singles out the runs that lose and fail nothing. `AnyOrder` proves their DOWN rows exact for any number of
  workers, `Pairing` their recoveries when none overtakes its down alert, `OneWorker` the whole ledger and `SiteOrder` each
  site's keys for one worker, `Solo` that every trace is such a run, and `Runs` puts them together: when the documented
  promise is kept over all such runs.

**Charts and statistics.** `Stats` gives rounding, percentiles and the SQL aggregates a meaning over rows; `Series` proves
the bucketed queries against plain time intervals.

**Lazily pruned stores.** `Limiter` and `Sessions` are the two stores; `Throttling` and `Sessions` compare them with a full
failure log and with a table that drops sessions the instant they expire; `Login` is the handler that uses both.

**Supporting machines and text.** `Scheduler` (check loops) and `Ordering` (when announcements keep commit order),
`Migrate` (crash-resumable migrations), `Slug` (site ids).

## Where code and documentation differ

The model follows the code.

- *One mail per incident* (`README.md:264-268`) holds for a channel's down alerts exactly when its only threshold is 1,
  over all runs that lose and fail nothing and any number of workers (`Runs.PromiseIffOnRuns`). `RecordTick` reports the
  incident id only on the tick that opens or resolves an incident (`internal/storage/tick.go:52-53`), but a down alert is
  keyed when the failures equal `confirm_after` (`internal/alerts/alerts.go:278-281`). From `confirm_after` = 2, the
  default, every outage of a site shares the key with incident 0, and the recovery, which looks up the real id
  (`internal/alerts/alerts.go:301`), finds no down alert.
- *Recovery is paired per channel* (`README.md:268-270`): a channel told of an outage is told of its end, on all such runs
  that submit the site's own events in the order its ticks were committed, whatever other sites do, exactly when it has a
  rule with threshold 1 and there is a single worker (`Runs.RecoveryIffOneWorker`; a channel without a down rule is never
  told of either). With two workers, the default (`internal/alerts/alerts.go:71-73`), the resolving event can be evaluated
  before the opening one is claimed, and the recovery is never sent (`Runs.RecoveryOvertakes`). A run in which the opening
  event of each outage is finished before its resolving event is taken is exact with any number of workers
  (`Runs.PairedRecoveriesExact`).
- Members with a parameter `carry` also describe a variant whose transitions carry the open incident's id on every down
  tick; with `carry` true they describe that variant, not the code, and `Promise.VariantKeepsPromise` proves the documented
  behaviour for it under in-order dispatch. The dispatcher's unit tests feed it transitions of that variant, which
  `RecordTick` never produces (`internal/alerts/alerts_test.go:118-119`).
- Ticks of one site are announced in the order they were committed in all interleavings exactly when the site is started
  at most once (`Ordering.OrderKeptIffOneStart`): a restart does not wait for the old loop
  (`internal/scheduler/scheduler.go:88-93`).
- `Retry-After` counts from the oldest live failure. A key that concurrent attempts pushed over the limit can still be
  blocked when it has been waited out (`Login.OvershootOutlastsHeader`); `Login.HeaderOutlastsBlockIff` is the condition.
- The login limiter counts usernames as they are spelled (`internal/api/auth.go:56`), accounts are looked up trimmed and in
  lower case (`internal/storage/admin.go:25-27`). Its bound per account (`internal/auth/ratelimit.go:14-16`) holds when an
  account's attempts are spelled alike (`Throttling.AccountBounded`); spellings count apart (`Throttling.SpellingsCountApart`).
- A certificate alert fires while fewer than `warn_days` + 1 days are left: days are counted by truncating division
  (`Alerting.SslFiresWithin`).
- Migration versions are assumed dense, as the code's own comment asks (`internal/storage/migrate.go:8-10`).
- A touch that lands after a session's expiry, on a row not yet swept, revives it (`Sessions.LateTouchRevives`);
  `Sessions.LazyIsEagerIff` is the exact condition, and requests with one clock reading meet it
  (`Sessions.RequestsNeverStale`).

## Reading the model

Each SQL statement or transaction is one atomic step, and the queries of a chart or a statistics page may each see a table
that has grown since the one before; `Uptime` is one query. Row ids count up from 1. Times are integers (seconds, or
nanoseconds for the limiter), counters are unbounded, percentages and means are exact rationals rounded half away from
zero and shown in hundredths. Clocks do not go back where a lemma asks for it. The sender, the database errors, panics,
clock readings and crashes are inputs of the model, so every statement is about all of their behaviours. Exact statements
about ledger rows start from empty stores, with site data never purged and channel ids never reused.

## Model

| member | source | states |
|---|---|---|
| Keys.DecimalRoundTrip | internal/alerts/alerts.go:281 | reading back a printed number gives the number, so decimal printing is injective |
| Keys.PrintIntRoundTrip | internal/alerts/alerts.go:281 | the same with a sign, and a printed number holds no colon |
| Keys.KeyTexts | internal/alerts/alerts.go:281-332 | the text of a key of each kind |
| Keys.KeyInjective | internal/alerts/alerts.go:281-332 | equal dedupe keys have equal kind, site, number and channel, for every site id, slug or not |
| Incidents.SiteStore.RecordTick | internal/storage/tick.go:76-177 | the new tables and the transition are the specified ones, whichever statement fails the transaction rolls back entirely |
| Incidents.LogIsComplete | internal/storage/tick.go:91-103 | the tick log keeps every tick, in order and column by column: time, up, status, response time, failed checks joined by commas and error, NULL exactly where the text is empty |
| Incidents.JoinCommaParts | internal/storage/tick.go:90 | the failed checks are written one after the other with a comma between two |
| Incidents.StateIsSummary | internal/storage/tick.go:105-165 | after any ticks the state row holds the last state, the trailing run of failures, and the open incident if there is one |
| Incidents.ErrorsAreLogged | internal/storage/tick.go:144-149 | failing check j of tick i has its errors row, at its place in the order |
| Incidents.ErrorsCounted | internal/storage/tick.go:144-149 | there are no other errors rows |
| Incidents.StateRemembersCertificate | internal/storage/tick.go:151-172 | the state row dates the last tick and holds what the last tick that checked the certificate found |
| Incidents.OutagesAreMaximalRuns | internal/storage/tick.go:110-141 | the outages listed for a history are exactly its maximal runs of down ticks, in order, never adjacent |
| Incidents.IncidentsAreOutages | internal/storage/tick.go:117-141 | incidents correspond one-to-one, in order, with those runs: start = time of the first down tick, end = time of the next up tick if there is one, cause = error of the first, NULL when empty |
| Incidents.OpenIffDown | internal/storage/tick.go:117-141 | an incident is open iff the last tick was down, and then it is the newest |
| Incidents.IncidentsDisjoint | internal/storage/tick.go:117-141 | with a clock that does not go back incidents are disjoint, ordered and last a nonnegative time |
| Incidents.TransitionFacts | internal/storage/tick.go:47-68 | what a transition says about the history: opened iff first failure, resolved iff first success after failures, incident id 0 otherwise |
| Incidents.EdgesAlternate | internal/storage/tick.go:117-141 | over any history the edges are open 1, resolve 1, open 2, ... and end on an open one iff the site is down |
| Incidents.ListIncidents | internal/storage/query.go:183-208 | newest first, at most limit rows (a negative limit means no limit), each with its own id, times and cause; the duration is end minus start, and there only when resolved |
| Alerting.SslFiresWithin | internal/alerts/alerts.go:318-326 | the certificate alert fires iff strictly less than warn + 1 days are left |
| Alerting.RulesForIff | internal/storage/alerts.go:172-186 | a rule is considered iff it is of the kind, enabled, on an enabled channel, and for this site or for every one |
| Alerting.SelectedInOrder | internal/storage/alerts.go:172-186 | each such rule is considered once, in the order of the rules |
| Alerting.DownFiresIff | internal/alerts/alerts.go:271-280 | a down rule fires iff the failures in a row equal max(1, confirm_after) |
| Alerting.InsertKeepsKeysUnique | internal/storage/alerts.go:275-288 | a claim keeps keys unique and leaves its key claimed, whether it won or not |
| Dispatcher.Dispatcher.constructor | internal/alerts/alerts.go:59-106 | options that are not positive take their defaults: queue 256, 2 workers, 2 retries, 5 s delay; an empty queue, nothing dropped and no mail sent |
| Dispatcher.Dispatcher.Enqueue | internal/alerts/alerts.go:113-123 | the event is queued if there is room and counted as dropped otherwise; nothing else changes |
| Dispatcher.Dispatcher.DeliveryExists | internal/storage/alerts.go:362-367 | counts the rows of the key: true iff some row, whatever its status, holds it, which is when a claim of it fails |
| Dispatcher.Dispatcher.ClaimDelivery | internal/storage/alerts.go:275-288 | a new pending row, or none and an unchanged ledger when the key is taken |
| Dispatcher.Dispatcher.ClaimAndDeliver | internal/alerts/alerts.go:207-222 | on a fresh key one row is added, with a block of its own of 1 to retries + 1 sends to this target, and its status, attempts and error are what those sends answered; on a taken key no row and no mail |
| Dispatcher.Dispatcher.Backoff | internal/alerts/alerts.go:240-248 | waits the doubled delay, or less when shutdown interrupts |
| Dispatcher.Dispatcher.SendWithRetries | internal/alerts/alerts.go:226-249 | between 1 and retries + 1 sends, all to this target, stopping at the first success; reported sent iff the last send succeeded; waits at most the total backoff |
| Dispatcher.Dispatcher.Deliver | internal/alerts/alerts.go:226-254 | the row is settled by what its sends answered: exact count when sent, retries + 1 when failed even if shutdown cut them short |
| Dispatcher.Dispatcher.ApplyRule | internal/alerts/alerts.go:189-223 | at most one row is added, as the rule decides on the ledger before, with a block of sends to the target of the rule's channel that it is settled by; other rows are untouched and there is no other mail |
| Dispatcher.Dispatcher.ApplyRules | internal/alerts/alerts.go:164-166 | the rules of a kind are applied in order, each on the ledger the earlier ones left; every row added has its own block of sends to its channel's target, and there is no other mail |
| Dispatcher.Dispatcher.HandleKinds | internal/alerts/alerts.go:158-167 | the kinds of an event are handled in order, with a block of sends for each row added and no other mail |
| Dispatcher.Dispatcher.Handle | internal/alerts/alerts.go:157-185 | one event leaves the ledger its transition and the enabled rules call for; each row added has its own block of sends to its channel's target and says what they answered, and there is no other mail |
| Dispatcher.Dispatcher.HandleNext | internal/alerts/alerts.go:141-154 | one turn of the worker's loop: the oldest event is taken and handled, its mail sent, and the rest stay queued |
| Dispatcher.Dispatcher.Drain | internal/alerts/alerts.go:133-154 | emptying the queue handles every event in order and finishes as many as were queued; all mail is blocks of sends, one for each row added, to its channel's target, and the row says what they answered |
| Dispatcher.DrainGivesLedger | internal/alerts/alerts.go:141-168 | draining the events of a trace of ticks leaves the ledger of that trace |
| Dispatcher.TotalBackoffClosed | internal/alerts/alerts.go:240-241 | the backoffs of n retries add up to retryDelay * (2^n - 1) |
| Exactness.EventAdds | internal/alerts/alerts.go:157-223 | which DOWN and RECOVERED keys one handled event adds, over all kinds, rules and thresholds; `ThresholdsIff` says what the thresholds are |
| Exactness.EventPasses | internal/alerts/alerts.go:157-223 | which keys of any kind one handled event adds: exactly those some rule of a listed kind fires for |
| Exactness.ThresholdsIff | internal/alerts/alerts.go:271-280 | x is a threshold of a channel for a site iff some enabled down rule of an enabled channel for it has max(1, confirm_after) = x |
| Exactness.LastEventFacts | internal/storage/tick.go:110-141 | the event a trace ends with in terms of its site's own history |
| Exactness.LedgerMatchesHistory | internal/alerts/alerts.go:270-317 | after any trace over any sites, a channel's DOWN and RECOVERED keys are exactly those its site's own history accounts for |
| Exactness.DownClaimedIff | internal/alerts/alerts.go:271-281 | a tick claims a DOWN key iff the site's run of down ticks has come to max(1, confirm_after) of one of the channel's rules; under the incident's number on the first down tick, else under 0 |
| Exactness.CodeDownNumbers | internal/alerts/alerts.go:278-281 | the code's DOWN numbers: every outage if some threshold is 1, and 0 as soon as an outage reaches a later threshold |
| Exactness.VariantDownNumbers | internal/alerts/alerts.go:278-281 | the variant's DOWN numbers: exactly the outages that reached some threshold |
| Exactness.RecoveredAreAnnouncedAndOver | internal/alerts/alerts.go:292-311 | RECOVERED numbers: the outages that are over and whose own number was announced |
| Exactness.ExpiryRowsOnTrace | internal/alerts/alerts.go:319-342 | a channel's certificate keys on a trace are exactly the expiry dates some check of the site found inside the warning window |
| Promise.OneRowPerExpiry | README.md:271-272 | one certificate row per such date and none for any other |
| Promise.NumbersAreKeys | internal/storage/alerts.go:275-288 | a number is among a channel's rows iff its key is claimed, so rows can be counted by number |
| Promise.MailsFromHistory | internal/alerts/alerts.go:270-317 | how many rows a channel has per site and kind, and their numbers, from the history alone |
| Promise.ThresholdOneExact | README.md:264-268 | in-order dispatch, threshold 1 only: DOWN rows are exactly the incidents opened, RECOVERED rows exactly those resolved |
| Promise.OverAreResolved | internal/storage/tick.go:131-141 | outages that are over are the incidents whose row has an end |
| Promise.LaterThresholdsCollapse | internal/alerts/alerts.go:278-281 | all thresholds from 2: at most one DOWN row ever per site and channel, numbered 0, and no RECOVERED row |
| Promise.DefaultThreshold | internal/api/alerts.go:229-232 | rules with the default confirm_after of 2 only: no DOWN row for an outage of one tick, one row numbered 0 for an outage of two |
| Promise.PromiseOnTrace | README.md:264-268 | in-order dispatch: one DOWN row per confirmed outage on a trace iff no outage reached a second key (rule at 1) or at most one was confirmed (none at 1) |
| Promise.TwoOutagesBreak | README.md:264-268 | a concrete history of two outages breaks the promise when no threshold is 1 |
| Promise.MixedThresholdsBreak | README.md:264-268 | a concrete history of one outage breaks it when another threshold stands beside 1 |
| Promise.PromiseIffThresholdOne | README.md:264-268 | in-order dispatch: one DOWN row per confirmed outage on every trace iff the channel's thresholds are at most {1} |
| Promise.RecoveryOnTrace | internal/alerts/alerts.go:292-311 | in-order dispatch: one RECOVERED row per confirmed outage that is over, always with a rule at 1, otherwise iff there is no such outage |
| Promise.RecoveryPromiseIff | internal/alerts/alerts.go:292-311 | in-order dispatch: on every trace iff some threshold is 1 or there is no down rule |
| Promise.VariantKeepsPromise | README.md:264-268 | variant only: for every set of thresholds, one DOWN row per confirmed outage and one RECOVERED row per such outage that is over |
| Protocol.EventsConserved | internal/alerts/alerts.go:113-154 | at every step of every run submitted = dropped + queued + in progress + finished, and the queue fits its capacity |
| Protocol.EventsConservedFromStart | internal/alerts/alerts.go:113-154 | so at every step of every run from the start of the program |
| Protocol.ShutdownDrains | internal/alerts/alerts.go:133-154 | once all workers have exited the queue is empty and submitted = dropped + finished |
| Safety.LedgerKeptSafe | internal/alerts/alerts.go:189-311 | under every interleaving, error, shutdown and crash each key is claimed at most once, and each RECOVERED row has an earlier DOWN row for the same site, incident and channel |
| Safety.OneSender | internal/storage/alerts.go:275-288 | over a run and its crashes at most one worker of one process lifetime ever holds the send job of a row |
| Safety.RowsTellTheTruth | internal/alerts/alerts.go:226-254 | rows are never removed and settle once; sent means the last send succeeded, with the exact count; failed means all failed, with the last error; a pending row has neither; never more than retries + 1 sends, none after a success |
| Deliveries.AllSettled | internal/alerts/alerts.go:226-254 | in every interleaving without crash, panic or failed mark, shutdown or not, a pending row is in some worker's hands; once no worker is busy every row is sent or failed |
| Deliveries.FailedAfterAllRetries | internal/alerts/alerts.go:226-254 | in every interleaving, crashes included, before any shutdown a failed row has had exactly retries + 1 sends, and each of them failed |
| Progress.ActGetsOn | internal/alerts/alerts.go:157-254 | every act of a worker, errors, retries and panics included, brings it nearer to the end of its event |
| Progress.EventEnds | internal/alerts/alerts.go:157-254 | with at most m rules and r retries an event is done after at most 3 * (m * (2r + 5) + 2) + 1 acts of its worker, in every interleaving |
| Progress.ShutdownEnds | internal/alerts/alerts.go:125-154 | in every interleaving after the queue is closed the workers take boundedly many steps, and have all exited when none is left to take |
| Progress.ClosedTakesNothing | internal/alerts/alerts.go:113-139 | after the queue is closed nothing is taken in and nothing is counted, and the queue only loses events at its head |
| Origins.RowsNameIncidents | internal/alerts/alerts.go:207-219 | under every interleaving the incident column of a row is NULL or an opened incident of its site, and of a RECOVERED row a resolved one |
| Origins.LateChannelToldOnce | internal/alerts/alerts.go:270-317 | while no configuration gives a channel a threshold of 1: at most one DOWN row per site and no RECOVERED row, under every interleaving, edit and crash |
| Solo.TraceIsARun | internal/alerts/alerts.go:141-168 | every trace of ticks is committed and dispatched by some in-order, lossless run of the concurrent model, with the same stores and ledger |
| AnyOrder.DownKeysOfRun | internal/alerts/alerts.go:141-223 | any number of workers, any interleaving: a lossless run with everything handled has exactly the DOWN keys of in-order dispatch |
| OneWorker.OneWorkerIsInOrder | internal/alerts/alerts.go:141-223 | one worker, all events submitted in one order: such a run ends with the ledger of in-order dispatch, row for row when certificate alerts are evaluated at the event's time, and with its DOWN and RECOVERED keys at any times |
| OneWorker.OneWorkerDrains | internal/alerts/alerts.go:141-168 | that ledger is what draining the events of the run's ticks one by one leaves |
| SiteOrder.OneWorkerKeepsSite | internal/alerts/alerts.go:141-223 | one worker, a site's own events submitted in their order while those of other sites cross them: the site's DOWN and RECOVERED keys are those of in-order dispatch |
| SiteOrder.OwnEventsDecide | internal/alerts/alerts.go:157-223 | for a site, handling any events is handling the site's own, at whatever times |
| Pairing.PairedRecovers | internal/alerts/alerts.go:292-311 | any number of workers, openings finished before their resolving events are taken: every recovery in-order dispatch would claim is claimed |
| Runs.DownRowsOfRun | internal/alerts/alerts.go:270-290 | the number and numbers of a channel's DOWN rows after any such run, any workers, follow from its ticks alone |
| Runs.RecoveriesOfRun | internal/alerts/alerts.go:292-311 | after any such run RECOVERED rows name only outages that were announced and are over |
| Runs.PairedRecoveriesExact | README.md:268-270 | any workers: if the opening event of each outage is finished before its resolving event is taken, RECOVERED rows are exactly the announced outages that are over; with a rule at 1, one per confirmed outage that is over |
| Runs.ThresholdOneOnRuns | README.md:264-268 | threshold 1 only, any workers: DOWN rows are exactly the incidents opened, RECOVERED rows only among the resolved |
| Runs.RunOfTrace | internal/alerts/alerts.go:141-168 | every trace of ticks belongs to such a run |
| Runs.PromiseIffOnRuns | README.md:264-268 | any workers: one DOWN row per confirmed outage on every such run iff the channel's thresholds are at most {1} |
| Runs.OneWorkerRecovers | internal/alerts/alerts.go:292-311 | one worker, the site's own events in order: its recoveries are those of in-order dispatch |
| Runs.RecoveryOvertakes | internal/alerts/alerts.go:71-106 | two or more workers, a threshold at 1: a run in which the recovery overtakes its down alert and is never sent |
| Runs.RecoveryIffOneWorker | README.md:268-270 | on every such run that submits the site's own events in order, one RECOVERED row per confirmed outage that is over, iff the channel has no down rule, or a rule at 1 and the only worker |
| Limiter.PruneIsLive | internal/auth/ratelimit.go:105-120 | dropping the leading expired entries of a sorted log leaves exactly the live ones |
| Limiter.Limiter.constructor | internal/auth/ratelimit.go:33-46 | an empty store; limits that are not positive become 5 attempts and 15 minutes |
| Limiter.Limiter.LiveLocked | internal/auth/ratelimit.go:105-120 | returns and keeps the live entries of the full log |
| Limiter.Limiter.Allowed | internal/auth/ratelimit.go:50-60 | true iff every key has fewer than maxAttempts failures strictly inside the window since its last Reset |
| Limiter.Limiter.RecordFailure | internal/auth/ratelimit.go:63-72 | every key's full log gains this instant; pruning stays invisible |
| Limiter.Limiter.Reset | internal/auth/ratelimit.go:75-81 | exactly these keys' logs are emptied |
| Limiter.Limiter.RetryAfter | internal/auth/ratelimit.go:85-101 | the longest wait over the keys, as the full log has it |
| Throttling.RetryIffBlocked | internal/auth/ratelimit.go:83-101 | RetryAfter is positive iff Allowed is false |
| Throttling.BlockedUntilRetry | internal/auth/ratelimit.go:83-101 | with no further calls the keys stay blocked at every instant before it elapses |
| Throttling.AllowedLaterIff | internal/auth/ratelimit.go:83-101 | with no further calls, allowed at any later instant iff in every key at or over the limit the entry that brings it back under has aged out |
| Throttling.AllowedAtRetry | internal/auth/ratelimit.go:83-101 | at that instant they are allowed iff in every blocked key the entry that brings it under the limit has aged out |
| Throttling.AllowedAtRetryExactly | internal/auth/ratelimit.go:83-101 | in particular when no key holds more than maxAttempts live entries |
| Throttling.LimiterWaits | internal/auth/ratelimit.go:50-101 | of a limiter in any reachable state: the wait is positive iff blocked, the keys stay blocked until it elapses, and are allowed then if none is over the limit |
| Throttling.OvershootBounded | internal/auth/ratelimit.go:50-72 | with at most m attempts of a key in flight no window without a Reset holds more than maxAttempts + m - 1 failures |
| Throttling.AccountBounded | internal/auth/ratelimit.go:14-16 | if an account's attempts are spelled alike, all its failures count under that spelling and no window without a Reset holds more than maxAttempts + m - 1 of them |
| Throttling.CountsAddressAndName | internal/api/auth.go:55-77 | after any events the log of an address key is the failures from that address, whatever names they tried, since its last success, and that of a name key the failures for that name |
| Throttling.AddressBounded | internal/auth/ratelimit.go:14-16 | whatever names are tried: with at most m attempts from an address in flight no window without a success from it holds more than maxAttempts + m - 1 of its failures |
| Throttling.ThrottlesBoth | internal/auth/ratelimit.go:14-16 | with maxAttempts failures from an address inside the window no name is let in from it, and with as many for a name it is let in from no address |
| Throttling.LetsIn | internal/auth/ratelimit.go:50-60 | with fewer of both the attempt is let in |
| Throttling.SpellingsCountApart | internal/api/auth.go:56 | at a limit of 1, two spellings from two addresses: one failure counted for each |
| Login.Server.HandleLogin | internal/api/auth.go:38-100 | which reply is given, iff conditions for each; a 401 records a failure of the name and of the address, only a success opens a session (for seven days) and resets both, all else changes nothing; a 429 stays blocked to within a second of its Retry-After |
| Login.HandlerIsEvents | internal/api/auth.go:55-92 | the handler's effect on the failure log is that of its events in the concurrent model |
| Login.AddressAnswered429 | internal/api/auth.go:55-77 | after maxAttempts 401s from one address inside the window, for whatever names, the check that answers 429 refuses every name from it |
| Login.HeaderOutlastsBlock | internal/api/auth.go:57-59 | a client that waits out Retry-After is allowed if no key held more live failures than the limit |
| Login.HeaderOutlastsBlockIff | internal/api/auth.go:57-59 | allowed after Retry-After iff in every key at or over the limit the entry that brings it back under has aged out by then; never allowed more than a second before the wait ends |
| Login.OvershootOutlastsHeader | internal/api/auth.go:57-59 | two attempts in flight at a limit of 1: the client waits out Retry-After and is still refused |
| Login.LoginOpensSession | internal/api/auth.go:80-92 | the new session is accepted at once and keeps the sliding-expiry invariant |
| Sessions.Registry.CreateSession | internal/storage/session.go:23-30 | the new table state; refused iff the id is taken or the user is unknown |
| Sessions.Registry.LookupSession | internal/storage/session.go:34-50 | the row iff it has not expired; an expired one is deleted |
| Sessions.Registry.TouchSession | internal/storage/session.go:54-58 | expiry and last use of a stored row, expired or not |
| Sessions.Registry.DeleteSession | internal/storage/session.go:61-64 | the row is gone |
| Sessions.Registry.PurgeExpiredSessions | internal/storage/session.go:68-75 | exactly the expired rows are gone, and counted |
| Sessions.Registry.SetAdminPassword | internal/storage/admin.go:77-96 | the hash changes and exactly the owner's sessions go, or nothing changes for an unknown user |
| Sessions.Registry.SessionUser | internal/api/auth.go:176-195 | accepted iff live and owned by a stored user; slides the expiry only when due |
| Sessions.StepAgreesIff | internal/storage/session.go:34-75 | one operation keeps lazy and eager tables in agreement iff it is not a touch or re-creation of an expired, unswept row |
| Sessions.LazyIsEagerIff | internal/storage/session.go:34-75 | over every run with a nondecreasing clock they agree throughout iff no operation of the run is such |
| Sessions.SameAnswers | internal/storage/session.go:34-50 | agreeing tables accept the same sessions |
| Sessions.AcceptedIffHistory | internal/storage/session.go:23-75 | on every run from empty tables, stale touches included: accepted iff created, not deleted or revoked since, and the last expiry set on a stored row has not passed |
| Sessions.AcceptedIffAlive | internal/storage/session.go:23-75 | on every run none of whose operations is stale: accepted iff the operations alone say so, with no table consulted |
| Sessions.RequestsNeverStale | internal/api/auth.go:176-195 | runs of requests with one clock reading and fresh ids meet the condition |
| Sessions.OnlyCreateAdds | internal/storage/session.go:54-64 | no operation but create stores an id |
| Sessions.RevokedStaysRevoked | internal/storage/admin.go:74-96 | a deleted or revoked session is refused for good unless created again |
| Sessions.LateTouchRevives | internal/storage/session.go:54-58 | a run from empty tables, with the service's own lifetime, in which a touch at the instant of expiry brings the session back |
| Sessions.UseBounds | internal/api/auth.go:17-25 | after an accepted use the session has between 7 days less an hour and 7 days left, and writes are more than an hour apart |
| Sessions.InUseNeverExpires | internal/api/auth.go:17-25 | a session used at gaps below its lifetime less the renewal gap is accepted every time, whatever else happens |
| Sessions.DisuseExpires | internal/api/auth.go:17-25 | a session not used for a whole TTL is refused |
| Stats.PercentAccurate | internal/storage/query.go:64-69 | the shown percentage is within 0.005 of the true one, in [0,100] and monotone in the successes |
| Stats.ShowsHundredIff | internal/storage/query.go:64-69 | with f > 0 failures it shows 100 iff n >= 20000 * f |
| Stats.FilterContents | internal/storage/query.go:57-60 | a WHERE keeps each row that qualifies as often as it is there, and no other |
| Stats.FilterCounts | internal/storage/query.go:57-60 | COUNT and SUM(up) of a window are the numbers of its rows and of its successful rows, by position |
| Stats.UptimeOfTicks | internal/storage/query.go:57-71 | after any ticks Uptime counts exactly those from `since` on, as successful exactly those that were up, the others as failed; the percentage is within half a hundredth, 0 without any |
| Stats.SortedIsRank | internal/storage/query.go:123-144 | a position of the sorted sample is the order statistic of that rank |
| Stats.WindowP95IsRank | internal/storage/series.go:144-176 | the window query yields the order statistic at rank max(1, floor(95n/100)), and no other value |
| Stats.Percentile | internal/storage/query.go:123-144 | the order statistic, in the table as it is by then, at the clamped rank of the rows counted; 0 for none counted, an error iff there is no such row any more |
| Stats.SeriesP95VersusMetrics | internal/storage/query.go:123-144 | the Metrics p95 is the next rank up from the chart's for n >= 2 and the same for n = 1, so never below it |
| Stats.PercentilesOrdered | internal/storage/query.go:109-121 | p50 <= p95 <= p99 on every sample |
| Stats.SampleIsSuccesses | internal/storage/query.go:85-101 | each response time is in the sample as often as there are successful rows with it |
| Stats.MetricsIgnoreFailedTimes | internal/storage/query.go:85-101 | how long a failed check took, or whether that is known, changes no mean and no percentile |
| Stats.MeanAccurate | internal/storage/query.go:105-107 | the shown mean is within half a hundredth of the true one and between the least and the greatest response time |
| Stats.EmptySample | internal/storage/query.go:123-134 | without a successful row that has a response time, mean and percentiles read 0 |
| Stats.MetricsSince | internal/storage/query.go:91-121 | counts over all rows of the window, latency figures over successful ones, each statement on the table it sees; percentiles in order when no row is added meanwhile |
| Series.ClampBuckets | internal/storage/series.go:45-50 | 96 when not positive, at most 1000, any other request kept |
| Series.Width | internal/storage/series.go:74-82 | the least width of at least 1 whose buckets cover the window |
| Series.KeyInRange | internal/storage/series.go:97-105 | a selected row's clamped index is a bucket |
| Series.KeyIffBelongs | internal/storage/series.go:97-105 | clamping puts a row in bucket i iff it lies in [TS_i, TS_i + width) within the window, or is the edge row ts = To of the last bucket when buckets * width = To - From |
| Series.GroupIsBucket | internal/storage/series.go:104-108 | GROUP BY b collects exactly the rows of the interval |
| Series.PointCounts | internal/storage/series.go:104-127 | a point is at the start of its interval and counts the rows of the interval and the successful ones, by position |
| Series.PointIgnoresFailedTimes | internal/storage/series.go:104-176 | how long a failed check took changes no point |
| Series.PresentKeys | internal/storage/series.go:104-108 | the result's keys ascend and are exactly those of the groups that have rows |
| Series.FillCounts | internal/storage/series.go:104-131 | after the first query every point has the counts, percentage and mean of its interval |
| Series.FillSeriesP95 | internal/storage/series.go:144-176 | after the second query every point also has the p95 of its interval, of the rows there are by then, and nothing else changed |
| Series.SeriesOf | internal/storage/series.go:44-140 | every point equals the naive one for its interval, counts and mean of the rows at the first query, p95 of those at the second; "all" of no rows is an empty chart |
| Series.OneHome | internal/storage/series.go:97-105 | each selected row belongs to exactly one bucket, any other row to none |
| Series.ChecksConserved | internal/storage/series.go:104-127 | checks and successes over all points are those of the window |
| Series.LatePointsEmpty | internal/storage/series.go:84-89 | a point that starts after To is empty |
| Series.TotalsMatchUptime | internal/storage/query.go:57-71 | for a window that starts no later than now (and, for "all", no row before it): chart totals equal Uptime's iff no row of the window is later than To, and then the percentages agree |
| Series.FutureWindow | internal/storage/series.go:69-72 | a window that starts after now is charted from now: the chart counts the rows at now, and with none later its total equals Uptime's iff there is none |
| Scheduler.Manager.StopLocked | internal/scheduler/scheduler.go:95-100 | the registered loop of the id, if any, is cancelled and unregistered |
| Scheduler.Manager.Start | internal/scheduler/scheduler.go:69-78 | the old loop is cancelled and a new one registered |
| Scheduler.Manager.Stop | internal/scheduler/scheduler.go:81-85 | the loop is cancelled and unregistered |
| Scheduler.Manager.Restart | internal/scheduler/scheduler.go:88-93 | stop, then start only when enabled |
| Scheduler.Manager.CancelAll | internal/scheduler/scheduler.go:103-109 | exactly the registered loops are cancelled, in whatever order the map is walked |
| Scheduler.Manager.Tick | internal/scheduler/scheduler.go:129-151 | an uninterrupted tick is begin, finish, record and announce; a panic in the checks leaves the slow cadence unset, one while recording does not |
| Scheduler.OneLoopPerSite | internal/scheduler/scheduler.go:69-112 | in every interleaving a site is registered iff the last call about it was a start, its only uncancelled loop is the registered one, and that runs at the interval of that start |
| Scheduler.ReturnsOnlyCancelled | internal/scheduler/scheduler.go:115-166 | in every interleaving a loop whose store opened returns only once cancelled and after its first tick, so a registered one runs on; one whose store did not open never ticked |
| Scheduler.WaitGroupCounts | internal/scheduler/scheduler.go:76-115 | the wait group counts the loops that have not returned |
| Scheduler.ShutdownSilences | internal/scheduler/scheduler.go:103-112 | once Shutdown is past its wait and nobody starts a loop, nothing is committed or announced any more |
| Scheduler.SlowCadence | internal/scheduler/scheduler.go:126-140 | in every loop of every run a tick is slow iff every earlier completed slow tick ended at least the slow interval before it began |
| Scheduler.AnnouncedOnce | internal/scheduler/scheduler.go:141-150 | every committed tick is announced once, after its commit |
| Scheduler.RestartMayReorder | internal/scheduler/scheduler.go:88-93 | one restart: a cancelled loop commits, and two ticks of the site are announced in the other order than committed |
| Ordering.OrderKeptIfReturned | internal/scheduler/scheduler.go:69-166 | in every interleaving a site's announcements are a prefix of its commits if no start of it comes while an earlier loop of it has still to return |
| Ordering.OverlapBreaksOrder | internal/scheduler/scheduler.go:69-166 | from any world with two loops of a site that have not returned, they can go on so that its announcements are out of order |
| Ordering.OrderKeptIffOneStart | internal/scheduler/scheduler.go:69-112 | a sequence of manager calls keeps a site's announcements in order in all its interleavings iff it starts the site at most once |
| Migrate.Database.ApplyMigrations | internal/storage/migrate.go:24-55 | whichever database call fails, whole migrations are in, nothing of the next one is, and the run went as far as it could |
| Migrate.Database.Transaction | internal/storage/migrate.go:34-52 | all statements and the version bump, or nothing |
| Migrate.OutcomeUnique | internal/storage/migrate.go:24-55 | where a run ends is fixed by where it starts and which call fails |
| Migrate.RerunIsIdentity | internal/storage/migrate.go:30-32 | running again after a completed run changes nothing |
| Migrate.SchemaMatchesVersion | internal/storage/migrate.go:16-23 | under any failures, crashes, upgrades and downgrades the schema is the fold of the first user_version migrations, and the version never falls |
| Migrate.ExecAllIsChain | internal/storage/migrate.go:38-43 | a list of statements leads from one schema to another iff there are schemas between such that each statement, run once and in order, leads from one to the next |
| Migrate.FoldIsChain | internal/storage/migrate.go:30-52 | the same for the statements of a row of migrations and their fold |
| Migrate.StatementsInOrder | internal/storage/migrate.go:30-52 | each migration's statements stand after those of earlier migrations and before those of later ones |
| Migrate.CompletedIsUninterrupted | internal/storage/migrate.go:16-23 | a completed run, whatever went before, ends where one uninterrupted run would |
| Migrate.StagedUpgrade | internal/storage/migrate.go:24-55 | running A and then A + B ends where A + B alone does |
| Slug.SlugifyJoinsWords | internal/config/config.go:187-193 | a slug is the maximal runs of a-z and 0-9 in the lowercased text, joined by single hyphens |
| Slug.SlugifyEmptyOrValid | internal/config/config.go:187-193 | the result is empty or matches the slug pattern: a-z, 0-9 and single hyphens not at the ends; and it is empty iff no slug character remains after lowercasing |
| Slug.MatchesIff | internal/config/config.go:183 | the pattern holds of a text iff it is not empty, of a-z, 0-9 and hyphens only, with no hyphen at an end or beside another |
| Slug.WordsOfJoin | internal/config/config.go:183 | the words of a slug can be read back from it |
| Slug.SlugifyFixesSlugs | internal/config/config.go:182-193 | Slugify leaves a text as it is iff it is empty or a slug |
| Slug.SlugifyIdempotent | internal/config/config.go:187-193 | Slugify twice is Slugify once |
| Slug.SafeIdIff | internal/storage/manager.go:38-41 | an id is safe iff it is not empty, "." or ".." and holds no slash or backslash |
| Slug.SlugsAreSafe | internal/storage/manager.go:35-41 | every slug is a safe id |
| Slug.SiteConfig.ApplyDefaults | internal/config/config.go:118-123 | a supplied id is kept; a missing one becomes the name's slug, else the URL's, and is empty only if neither has a slug character |
| Slug.DerivedIdIsValid | internal/config/config.go:118-165 | with an http or https URL a derived id always passes the id checks and is safe |

## Left out

- HTTP routing, JSON, cookies, CORS and the CRUD handlers: plumbing over the modelled operations.
- The network checks and SMTP: ticks are arbitrary inputs and a send may answer anything.
- Subjects, bodies, log lines, error texts, and the columns `created_at`, `sent_at` and `subject` of delivery rows: no state hangs on them.
- SQLite, WAL, file handles and the store cache: statements are atomic and constraints hold.
- bcrypt, token generation, hashing and caller addresses: parameters of the login model.
- Floating-point error, integer overflow and sub-second truncation: integers and exact rationals instead.
- Purging of site data, deleting sites and reuse of channel ids: the exact ledger statements exclude them.
- `Overview`, `Status`, `Errors`, `Results`, `AddFail` and most of `Validate`: they would only add easy members.
- Ticker timing in the scheduler: a waiting loop may tick at any time; that ticks come one interval apart is not stated.
- The `runSite` loop and the dispatcher's workers under concurrency are modelled on values, as steps that interleave, beside the classes that run alone.
- Runs.RecoveryIffOneWorker: assumes a site's own events are submitted in the order of its commits; `Ordering` says when the check loops announce them so.
- Progress.ShutdownEnds: bounds the workers' steps; that a worker with a step to take is some day scheduled is not stated.
- Scheduler.ShutdownSilences: does not say that loops do return, only what holds once they have.
- Dispatcher.Dispatcher.Deliver: a failing mark statement, which leaves the row pending, is a step of `Protocol` only.
- Dispatcher.Dispatcher.ApplyRule: database errors on the channel, the ledger lookup and the claim are steps of `Protocol` only.
- Dispatcher.Dispatcher.HandleKinds: a failing rule query, which skips the kind, is a step of `Protocol` only.
- Dispatcher.Dispatcher.Handle: rule query errors are steps of `Protocol` only.
- Dispatcher.Dispatcher.HandleNext: a panic inside one event, recovered by the worker, is a step of `Protocol` only.
- Dispatcher.Dispatcher.constructor: the worker pool is in `Protocol`; the class has one worker, whatever `workers` says.
- Dispatcher.Dispatcher.Drain: one worker with a fixed configuration and no database errors; `Protocol` has the rest.
- Sessions.Registry.SessionUser: one clock reading per request, while the code reads the clock again in the touch.
- Slug.SlugifyJoinsWords: lowercasing and white space are per-character parameters, assumed to leave slug characters and hyphens alone and to make no slug character of white space.
