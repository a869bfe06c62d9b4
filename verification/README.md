# Models of the stateful components of ecat

ecat is a Rust microservice framework with a PHP admin. Most of it connects libraries; a few small
parts carry guarantees of their own. This project models those parts in Dafny, one file each, and
proves what they promise over every input, every run and every interleaving of their atomic steps.

| file | part of the system |
|---|---|
| `CircuitBreaker.dfy`, `BreakerAdmission.dfy` | Closed, Open, HalfOpen breaker with a tumbling failure window |
| `IntrospectCache.dfy` | bounded cache of OAuth2 token introspections |
| `EventBus.dfy` | remote event bus: one lazily started consumer per topic |
| `OrderConfirm.dfy`, `ConfirmProgress.dfy`, `KeyFreshness.dfy`, `KeyRevocation.dfy`, `KeyLifetime.dfy` | order confirmation, app renewal, key resets and the gateway's keys in Redis |
| `LineProtocol.dfy`, `LineLayout.dfy`, `Decimal.dfy` | InfluxDB line protocol writer, and a reader for it |
| `CanonicalQuery.dfy`, `SignedText.dfy`, `Sorting.dfy` | percent-encoding, canonical query and canonical request of the S3 client |
| `FixedWindow.dfy`, `StoreComparison.dfy` | the in-memory and the Redis fixed-window rate limiters |
| `SlidingWindow.dfy`, `LateReadings.dfy` | the sliding-window rate limiter of the admin |
| `RateLimits.dfy` | all three rate limiters in seconds |
| `UsdtAmount.dfy` | unique payment amounts and the matching of transfers |
| `RedisLock.dfy` | lock leases over Redis |
| `TomlUpgrade.dfy`, `TomlUpgradeTwice.dfy`, `TomlRequirement.dfy`, `TomlDependencies.dfy`, `TomlSection.dfy`, `TomlKeys.dfy`, `TomlText.dfy` | the Cargo.toml rewriters of the command line |
| `Retry.dfy` | exponential backoff and the retry loop |
| `Wrappers.dfy` | an option datatype, the reading of a monotone clock, two facts about collections |

`dafny verify dfyconfig.toml` checks everything.

## How the parts are modelled

An object that the source updates in place is a class with the same fields. Each method is one
section under a mutex, one database transaction or one Lua script, and its contract equates the new
state with a function of the old one. Runs are sequences of such steps, in any order the locks and
clocks allow, and the theorems are lemmas about all runs. Clocks are natural numbers, read once per
section; where two clocks take part (PHP and Redis in the sliding window) both are modelled. Loops
of the source are loops here, proved equal to a function; the theorems are then about that function.

Three printers (line protocol, percent-encoding, canonical query) are judged by readers: the reader
is written from the format and the theorem says what it recovers.

## What the code does other than its comments or a first reading say

* **A classified failure closes a half-open breaker.** A response that the classify callback counts
  as a failure is recorded as one, yet in HalfOpen the breaker looks only at whether the transport
  succeeded, and closes (`infrastructure/ecat-circuit-breaker/src/lib.rs:254`). `ProbeDecides` says so for
  every run, `ClassifiedFailureCloses` gives one.
* **One request more than the probes.** The request that turns Open into HalfOpen is admitted without
  being counted as a probe, so each open period may let `half_open_probes + 1` through.
  `LeakBoundIsTight` reaches the bound after every opening and for every span.
* **The event bus has one gap left.** A comment says the narrow window is gone
  (`infrastructure/ecat-events/src/lib.rs:74`). A consumer task that dies between being spawned and having
  its handle stored still leaves a topic with neither an initialising subscriber nor a consumer, while
  the next subscribe returns at once: `DeadBeforeBound`. `SubscribeStartsExactlyWhenIdle` says exactly
  when a subscribe proceeds, `NeverStuck` that nothing else gets in the way.
* **Redis may stay behind the database** after two renewals of one app whose writes land in the wrong
  order (`StaleKeyIsPossible`); it is never ahead (`RedisNeverAhead`), and it is up to date exactly when
  the last write to land on it carries an expiry read since the last renewal (`KeyIsCurrentExactly`).
* **A key reset can undo a renewal, and a revoked key can come back.** A reset that straddles a renewal
  writes the new key with the expiry of before, while the renewal writes its own to the old key
  (`StraddlingResetIsStale`). `RevokedIsLiveExactly` says when a revoked key is live: a delete that Redis
  did not take, or a write of someone who had read the old hash.
* **A day is the limit of the sweep.** For windows of a day or more, or a maximum of 0, the in-memory
  store's sweep does change answers; `SweepIsTransparentExactly` gives the exact condition.
* **The two fixed-window stores are not interchangeable for all limits.** `StoresAgreeExactly` gives the
  exact condition. At the very instant window start + window the memory store still counts in the old
  window, while a Redis that drops keys at their expiry instant starts a new one (`BoundaryParts`); with a
  window of 0 seconds Redis limits nothing (`ZeroWindowParts`); and with a maximum of 0 the memory store
  lets one request pass after each window.
* **The 10 seconds of slack are exact.** For every limit and window the sliding window answers exactly
  on all runs if and only if Redis and PHP drift apart by at most those 10 seconds, or by one millisecond
  more if a key outlives its deadline (`SlackIsExact`).
* **No interval sees 2 * max.** A bucket is opened by a request that passes, so one window length holds at
  most 2 * max - 1, and that many do occur (`FixedWindowBounds`, `IntervalBoundIsTight`).
* **Swapped workers.** PHP reads its clock before the script runs. Two readings a millisecond apart that
  are served in the wrong order let one request too many into a window (`LateWindowOverflows`); with
  readings at most d out of order every interval shorter than the window by d keeps the limit
  (`LateWindowBound`).
* **The hundredth amount repeats.** With all 99 offsets in use `uniqueAmount` returns the base, used or
  not (`FullRangeRepeats`).
* **Overlapping initiations.** Two initiations that read the table before either stores get the same
  amount exactly when the higher base lies below the lower one's amount, or is that amount and has
  nothing free above it (`OverlapCollidesExactly`); and two of the same order can replace an amount that
  was already shown (`OverlapReplacesExactly`).
* **A lock duration below one millisecond never acquires anything**, nor does one too long for Redis
  (`UnusableDurations`).
* **Quotes after a plain requirement.** `ecat = "1.0" # was "0.9"` loses its comment: everything up to the
  last quote of the line is replaced, even if the version was right (`PlainRequirementUpgraded`).
* **Carriage returns.** Reading lines drops a carriage return at each line end, so a second
  `ecat upgrade` returns the same text exactly when no line still ends with one; it always reports 0
  changes (`SecondUpgrade`).
* **Unreadable keys.** `ensure_toml_section` is idempotent exactly for keys that a line can hold: no
  equals sign, no leading comment mark, no space around (`EnsureTwice`). All keys the tool passes are.

## Model

| member | source | states |
|---|---|---|
| CircuitBreaker.SlidingWindow.constructor | infrastructure/ecat-circuit-breaker/src/lib.rs:21-28 | a new window counts nothing and starts now |
| CircuitBreaker.SlidingWindow.Record | infrastructure/ecat-circuit-breaker/src/lib.rs:30-37 | rotates, then adds one completion; the two counters stay the counts of successes and failures since the last rotate or clear |
| CircuitBreaker.SlidingWindow.Total | infrastructure/ecat-circuit-breaker/src/lib.rs:39-42 | the number of completions since the last rotate or clear |
| CircuitBreaker.SlidingWindow.FailureRatio | infrastructure/ecat-circuit-breaker/src/lib.rs:44-50 | reaches a threshold r exactly when failures reach r times the completions; 0 for an empty window |
| CircuitBreaker.SlidingWindow.Rotate | infrastructure/ecat-circuit-breaker/src/lib.rs:52-58 | empties the window once its length has passed, else changes nothing |
| CircuitBreaker.SlidingWindow.Clear | infrastructure/ecat-circuit-breaker/src/lib.rs:61-65 | empties the window and restarts it |
| CircuitBreaker.CircuitBreaker.constructor | infrastructure/ecat-circuit-breaker/src/lib.rs:68-73 | a breaker starts closed with an empty window |
| CircuitBreaker.CircuitBreaker.AdmitRequest | infrastructure/ecat-circuit-breaker/src/lib.rs:185-218 | a request is refused only in Open before the open duration is over and in HalfOpen at the probe limit; letting one pass turns Open into HalfOpen with no probe counted, and counts one in HalfOpen |
| CircuitBreaker.CircuitBreaker.CompleteRequest | infrastructure/ecat-circuit-breaker/src/lib.rs:220-268 | the new state of the completion half, in whatever state the breaker is by then |
| CircuitBreaker.RunKeepsInvariant | infrastructure/ecat-circuit-breaker/src/lib.rs:185-268 | in every run: Open and HalfOpen carry the opening time, Closed none; probes counted never exceed the limit; the window is the latest completions, none before its start, and every completion it leaves out came no later than that start |
| CircuitBreaker.WindowCountsSinceReset | infrastructure/ecat-circuit-breaker/src/lib.rs:30-66 | in every run the window holds exactly all completions since the last rotate or clear, and its start is the time of that reset |
| CircuitBreaker.OpensExactlyOnFailingWindow | infrastructure/ecat-circuit-breaker/src/lib.rs:240-252 | Closed opens if and only if all the completions since the last rotate or clear are at least 5 and at or above the failure ratio; all of them are younger than one window length |
| CircuitBreaker.ProbeDecides | infrastructure/ecat-circuit-breaker/src/lib.rs:253-265 | a completion in HalfOpen closes the breaker if and only if there is a response, however classified, and then the window is empty; an error reopens it now |
| CircuitBreaker.ClassifiedFailureCloses | infrastructure/ecat-circuit-breaker/src/lib.rs:224-259 | a run of five failing requests and a probe in which a response classified as a failure closes a half-open breaker |
| CircuitBreaker.OutageLeakBound | infrastructure/ecat-circuit-breaker/src/lib.rs:185-268 | from an opening until the breaker next closes at most (probes + 1) * floor(T / open duration) requests are admitted within T, whatever was in flight |
| CircuitBreaker.LeakBoundIsTight | infrastructure/ecat-circuit-breaker/src/lib.rs:191-216 | after every opening of every run and for every T there are events that reach the bound |
| BreakerAdmission.RefusedExactly | infrastructure/ecat-circuit-breaker/src/lib.rs:191-218 | in every run an arrival is refused if and only if the breaker is open and the open duration since it opened is not over, or it is half-open and as many arrivals as there may be probes were let through since the one that turned it half-open |
| BreakerAdmission.ClosedLetsPass | infrastructure/ecat-circuit-breaker/src/lib.rs:217-217 | every arrival at a closed breaker passes |
| BreakerAdmission.ArrivalMoves | infrastructure/ecat-circuit-breaker/src/lib.rs:191-216 | an arrival that passes an open breaker turns it half-open; no other changes the state, and none the window or the opening time |
| BreakerAdmission.LateCompletionStaysOpen | infrastructure/ecat-circuit-breaker/src/lib.rs:240-267 | a completion that finds the breaker open leaves it open since the same time |
| BreakerAdmission.CarriesOpening | infrastructure/ecat-circuit-breaker/src/lib.rs:240-267 | the opening time carried is that of the completion that last opened the breaker |
| BreakerAdmission.CountsLetThrough | infrastructure/ecat-circuit-breaker/src/lib.rs:191-216 | the probe count is the number of arrivals let through since the one that turned the breaker half-open |
| BreakerAdmission.CountedAs | infrastructure/ecat-circuit-breaker/src/lib.rs:224-238 | a completion counts as a success exactly if it is a response not classified as a failure |
| IntrospectCache.IntrospectCache.PurgeExpired | infrastructure/ecat-auth/src/oauth2.rs:46-50 | drops the expired entries and their queue places, keeping the order of the others |
| IntrospectCache.IntrospectCache.Lookup | infrastructure/ecat-auth/src/oauth2.rs:218-225 | the read path |
| IntrospectCache.IntrospectCache.Store | infrastructure/ecat-auth/src/oauth2.rs:300-326 | the write path: purge near capacity, evict the front for a new key, queue it, insert the filtered claims |
| IntrospectCache.QueueMatchesMap | infrastructure/ecat-auth/src/oauth2.rs:29-35 | in every reachable state the queue lists exactly the cached keys, each once, and at most capacity many |
| IntrospectCache.EntriesAreLastWrites | infrastructure/ecat-auth/src/oauth2.rs:310-325 | each cached value is the filtered claims of the last write of its key |
| IntrospectCache.HitsAreSound | infrastructure/ecat-auth/src/oauth2.rs:215-225 | a read hits exactly when the key is queued and its last write is younger than the time to live, and then returns that write's filtered claims |
| IntrospectCache.CachedFieldsAreWhitelisted | infrastructure/ecat-auth/src/oauth2.rs:53-66 | without "*" a cached value holds exactly the whitelisted extra fields of the write, unaltered; the structured claims are the write's |
| IntrospectCache.StarKeepsEveryField | infrastructure/ecat-auth/src/oauth2.rs:56-59 | with "*" a cached value is the last write's claims, every extra field included |
| IntrospectCache.PurgesExactlyWhenNearlyFull | infrastructure/ecat-auth/src/oauth2.rs:300-317 | a write at nine tenths of the capacity leaves only unexpired entries; below that it removes none |
| IntrospectCache.RetentionGuarantee | infrastructure/ecat-auth/src/oauth2.rs:300-326 | an unexpired write is still a hit unless at least capacity other keys were newly inserted since it entered the queue |
| IntrospectCache.EvictionCost | infrastructure/ecat-auth/src/oauth2.rs:310-317 | a write that removes another unexpired entry is at least the capacity-th new key since that entry was queued |
| IntrospectCache.PurgeIsExact | infrastructure/ecat-auth/src/oauth2.rs:45-50 | purging removes an entry if and only if it has expired, and changes no read |
| EventBus.EventBus.Register | infrastructure/ecat-events/src/lib.rs:60-65 | appends the handler to its topic's list, a new list if there was none; other topics and the consumers unchanged |
| EventBus.EventBus.Reserve | infrastructure/ecat-events/src/lib.rs:76-88 | returns early on a placeholder or a running task, else places the placeholder |
| EventBus.EventBus.Rollback | infrastructure/ecat-events/src/lib.rs:92-100 | removes the topic's entry |
| EventBus.EventBus.Bind | infrastructure/ecat-events/src/lib.rs:130-134 | stores the task handle |
| EventBus.EventBus.Dispatch | infrastructure/ecat-events/src/lib.rs:106-124 | spawns every registered handler once, in order, each with the message |
| EventBus.RunKeepsProtocol | infrastructure/ecat-events/src/lib.rs:70-135 | every interleaving keeps: a placeholder stands for exactly one starting subscriber, a running task for the stored handle or the one about to be stored |
| EventBus.OneConsumerPerTopic | infrastructure/ecat-events/src/lib.rs:67-88 | initialising subscribers and live consumers of a topic together never exceed one |
| EventBus.SubscribeStartsExactlyWhenIdle | infrastructure/ecat-events/src/lib.rs:76-90 | a subscribe reaches the queue if and only if no subscriber is starting and no consumer runs |
| EventBus.DeadBeforeBound | infrastructure/ecat-events/src/lib.rs:104-134 | a run in which a task dies before its handle is stored: nothing runs or initialises, and the next subscribe still returns at once |
| EventBus.NeverStuck | infrastructure/ecat-events/src/lib.rs:73-90 | with every spawned handle stored, an idle topic's next subscribe reaches the queue |
| EventBus.ReceivedMeansDispatchedOnce | infrastructure/ecat-events/src/lib.rs:106-124 | a received message is dispatched once to the handler of each subscribe call made for the topic by then and to no other, however the run goes on |
| EventBus.RegisteredForGood | infrastructure/ecat-events/src/lib.rs:60-65 | once a subscribe call is made its handler is registered for good, not even lost by a failed subscription |
| EventBus.HandlersAreSubscribers | infrastructure/ecat-events/src/lib.rs:60-65 | in every reachable state a handler is registered for a topic if and only if a subscribe call was made with it for that topic |
| OrderConfirm.OrderStore.ConfirmOrder | admin/app/common/PaymentService.php:271-326 | one call alone: which orders are skipped, paid or renewed, the rows it leaves, and the Redis key with the app's new expiry as its end, or one second if that is over |
| OrderConfirm.LocksAreExclusive | admin/app/common/PaymentService.php:275-285 | no two calls hold the same order row or the same app row |
| OrderConfirm.RenewalClosedForm | admin/app/common/PaymentService.php:295-298 | folding renewals gives max(e0 + sum of all, max over k of time k + what was bought from k on) |
| OrderConfirm.ExpiryIsClosedForm | admin/app/common/PaymentService.php:271-312 | in every interleaving the stored expiry is that closed form of the committed renewals, no paid day is lost, each renewal belongs to a different paid order |
| OrderConfirm.OrderRenewsOnce | admin/app/common/PaymentService.php:274-281 | an order renews at most once, over all apps |
| OrderConfirm.ExpiryNeverDecreases | admin/app/common/PaymentService.php:295-298 | between two states of any run the stored expiry never decreases |
| OrderConfirm.RedisNeverAhead | admin/app/common/PaymentService.php:304-323 | every key in Redis, in use or revoked, carries an expiry that the database of its app held, never beyond the present one, and lives no longer than that or a second, key resets included |
| KeyLifetime.KeyLivesAsLong | admin/app/common/PaymentService.php:314-323 | in every state of every run a key written to carries the expiry of its last landed write and ends exactly then, or a second after the landing if it was over |
| KeyLifetime.RenewalsAreBought | admin/app/common/PaymentService.php:289-298 | in every run each renewal buys the days of its order's plan, of 86,400 seconds each, at a clock reading not in the future |
| ConfirmProgress.NoDeadlock | admin/app/common/PaymentService.php:274-285 | from every state of every run every open confirmation can still reach its end |
| KeyFreshness.KeyIsCurrentExactly | admin/app/common/PaymentService.php:304-323 | in every state of every run a key of an app, in use or revoked, carries the database's expiry if and only if the last write to land on its hash read the expiry since the app's last renewal, by a commit or at the start of a key reset |
| KeyFreshness.KeyIsCurrentWithoutResets | admin/app/common/PaymentService.php:304-323 | without key resets: if and only if the last write to land is that of the last renewal |
| KeyFreshness.WritesInOrderKeepUp | admin/app/api/v1/controller/ClientAppController.php:195-207 | an app's present key is up to date if the last reading was made for it and its writes landed in the order of their readings, none lost or pending |
| KeyFreshness.StraddlingResetIsStale | admin/app/api/v1/controller/ClientAppController.php:182-207 | a run, with everything in order and nothing lost, that leaves the new key with the expiry before a renewal and the revoked key live with the expiry after it |
| KeyRevocation.RevokedIsLiveExactly | admin/app/api/v1/controller/ClientAppController.php:195-207 | after its revocation a key is live if and only if a write has landed on it since it was last deleted or evicted, or it was live at the revocation and has not gone since; each such write was pending at the revocation |
| KeyRevocation.LiveSinceDelete | admin/app/api/v1/controller/ClientAppController.php:196 | once a delete has succeeded, a key is live if and only if some write has landed since the last delete or eviction |
| KeyRevocation.RevokedStaysDead | admin/app/api/v1/controller/ClientAppController.php:171-210 | a revoked key that is not live and that no pending write carries never comes back |
| OrderConfirm.AloneCommits | admin/app/common/PaymentService.php:274-312 | with nothing else going on a renewable order's confirmation runs through and renews its app |
| OrderConfirm.StaleKeyIsPossible | admin/app/common/PaymentService.php:314-323 | two renewals whose Redis writes land in the wrong order leave a key older than the database, with nothing in flight |
| LineProtocol.EscapeLinePart | infrastructure/ecat-data-influxdb/src/lib.rs:69-81 | the loop writes the escaped form that PartRoundTrip reads back |
| LineProtocol.EscapeFieldString | infrastructure/ecat-data-influxdb/src/lib.rs:86-98 | the loop writes the escaped form that QuotedRoundTrip reads back |
| LineProtocol.Write | infrastructure/ecat-data-influxdb/src/lib.rs:102-141 | the body is one line per point, in order |
| LineProtocol.PartRoundTrip | infrastructure/ecat-data-influxdb/src/lib.rs:66-81 | in front of any separator the reader recovers an escaped part exactly; a newline in it ends the line early |
| LineProtocol.QuotedRoundTrip | infrastructure/ecat-data-influxdb/src/lib.rs:83-98 | a quoted string is recovered whatever it holds |
| LineProtocol.ValueRoundTrip | infrastructure/ecat-data-influxdb/src/lib.rs:124-129 | each field value is recovered with its type |
| LineProtocol.LineRoundTrip | infrastructure/ecat-data-influxdb/src/lib.rs:105-140 | a line in front of any text is read back as its point and that text, if and only if the point is writable |
| LineProtocol.BodyRoundTrip | infrastructure/ecat-data-influxdb/src/lib.rs:102-141 | a body is read back as exactly its points when measurements, keys and tag values have no newline and field sets are not empty, and is not readable at all otherwise |
| LineProtocol.TextIgnoresIterationOrder | infrastructure/ecat-data-influxdb/src/lib.rs:105-120 | the line depends on what the maps hold, not on their iteration order |
| LineLayout.EscapedCharacters | infrastructure/ecat-data-influxdb/src/lib.rs:69-81 | character by character: a backslash, comma, space or equals sign is preceded by a backslash, any other stands alone |
| LineLayout.EscapedStringCharacters | infrastructure/ecat-data-influxdb/src/lib.rs:86-98 | the same inside quotes, for backslashes and quotes only |
| LineLayout.LineIs | infrastructure/ecat-data-influxdb/src/lib.rs:104-140 | measurement, `,key=value` per tag, a space, `key=value` per field with commas between, a space and the timestamp if any, a line feed; the keys of both maps ascend, each once |
| Decimal.NoLeadingZero | infrastructure/ecat-data-influxdb/src/lib.rs:126-138 | whole numbers are written without leading zeros |
| CanonicalQuery.EncodeUriComponent | infrastructure/ecat-data-s3/src/signing.rs:19-31 | the loop writes the percent-encoded form that DecodeEncoded reads back |
| CanonicalQuery.DecodeEncoded | infrastructure/ecat-data-s3/src/signing.rs:16-31 | percent-decoding undoes the encoding in both slash modes |
| CanonicalQuery.EncodedIsInjective | infrastructure/ecat-data-s3/src/signing.rs:19-31 | different texts are encoded differently |
| SignedText.EncodedCharacters | infrastructure/ecat-data-s3/src/signing.rs:19-31 | byte by byte: letters, digits, `-`, `_`, `.`, `~`, and `/` where slashes are kept, are written as themselves, every other byte as `%` and two upper-case hex digits of its value |
| SignedText.KeptPathIsUnchanged | infrastructure/ecat-data-s3/src/signing.rs:19-31 | a path of such bytes is written unchanged |
| CanonicalQuery.CanonicalQueryIsNormalForm | infrastructure/ecat-data-s3/src/signing.rs:43-58 | two queries have the same canonical form if and only if they are the same multiset of pairs |
| CanonicalQuery.CanonicalQueryText | infrastructure/ecat-data-s3/src/signing.rs:43-58 | the canonical form has no line end and no question mark, and is empty only for the empty query |
| SignedText.CanonicalQueryPieces | infrastructure/ecat-data-s3/src/signing.rs:43-58 | the canonical query is the encoded pairs as `name=value` with `&` between, each as often as asked for, ascending by name and then by value |
| Sorting.StringLeqIs | infrastructure/ecat-data-s3/src/signing.rs:53-53 | texts are ordered by the first character in which they differ, a prefix before the longer text |
| CanonicalQuery.HeadersAreSorted | infrastructure/ecat-data-s3/src/signing.rs:83-91 | the sort leaves the three signed headers in the fixed order host, content hash, date |
| CanonicalQuery.CanonicalRequestIsFaithful | infrastructure/ecat-data-s3/src/signing.rs:83-102 | what is signed is the same if and only if method, path, host, hash and date are equal and the queries are the same multiset |
| SignedText.CanonicalRequestText | infrastructure/ecat-data-s3/src/signing.rs:83-102 | the text signed: verb, path, query, the three headers in order, an empty line, their names, the payload hash |
| CanonicalQuery.UrlCarriesSignedQuery | infrastructure/ecat-data-s3/src/lib.rs:106-111 | the URL sent splits into a path that decodes once to the original and exactly the query that was signed |
| CanonicalQuery.UrlIsFaithful | infrastructure/ecat-data-s3/src/lib.rs:106-111 | two URLs of an endpoint are equal if and only if paths are equal and queries are the same multiset |
| FixedWindow.MemoryStore.constructor | infrastructure/ecat-middleware/src/ratelimit.rs:34-41 | a new store has no bucket and was swept now |
| FixedWindow.MemoryStore.CheckRequest | infrastructure/ecat-middleware/src/ratelimit.rs:52-78 | answer and new buckets of one check, sweep included |
| FixedWindow.SweepIsTransparentExactly | infrastructure/ecat-middleware/src/ratelimit.rs:54-62 | the sweep never changes an answer on any run if and only if max >= 1 and the window is under a day, or max is the largest 32-bit number |
| FixedWindow.SweepIsTransparent | infrastructure/ecat-middleware/src/ratelimit.rs:54-77 | for such limits every answer equals that of a store that never sweeps |
| FixedWindow.FixedWindowBounds | infrastructure/ecat-middleware/src/ratelimit.rs:63-77 | each bucket window admits at most max requests, and any closed interval of window length at most 2 * max - 1 |
| FixedWindow.IntervalBoundIsTight | infrastructure/ecat-middleware/src/ratelimit.rs:63-77 | for every limit with a window of a second up to a day there is a run in which that many pass |
| FixedWindow.UnsweptPassesExactly | infrastructure/ecat-middleware/src/ratelimit.rs:63-77 | without the sweep and for every max: a request passes if and only if it opens a new window after an old one or fewer than max requests of its key passed since the window began, windows being defined by request times alone |
| FixedWindow.PassesExactlyBelowMax | infrastructure/ecat-middleware/src/ratelimit.rs:52-78 | the same for the store itself, against the log of what it let pass |
| RateLimits.FixedWindowInSeconds | infrastructure/ecat-middleware/src/ratelimit.rs:52-78 | for one request or more in less than 86,400 seconds: a request passes if and only if it opens a window, comes more than window seconds after one began, or fewer than max passed since |
| RateLimits.SweepLimitInSeconds | infrastructure/ecat-middleware/src/ratelimit.rs:12-15 | the sweep changes no answer if and only if max >= 1 and window < 86,400 seconds, or max is 2^32 - 1 |
| RateLimits.BucketsAreRecent | infrastructure/ecat-middleware/src/ratelimit.rs:54-62 | in every run no bucket in the store is as old as a day and a minute |
| RateLimits.CountersEnd | infrastructure/ecat-middleware/src/ratelimit_redis.rs:30-39 | in every run, EXPIRE failing or not, each Redis counter counts the requests since one whose EXPIRE worked and ends window seconds after it; none is left without an end |
| StoreComparison.StoresAgreeExactly | infrastructure/ecat-middleware/src/ratelimit_redis.rs:30-68 | the two stores answer alike on every run if and only if max is the largest 32-bit number, or max >= 1, the window is at least a second and under a day, and Redis keeps a key through its expiry instant |
| StoreComparison.StoresAgree | infrastructure/ecat-middleware/src/ratelimit_redis.rs:30-68 | the Redis and the in-memory store answer alike on every run, for max >= 1, a window of at least a second and under a day, and no request exactly at a window's end if Redis drops keys at that instant |
| StoreComparison.BoundaryParts | infrastructure/ecat-middleware/src/ratelimit.rs:67 | for a request exactly at a window's end after a full window the stores answer differently |
| StoreComparison.ZeroWindowParts | infrastructure/ecat-middleware/src/ratelimit_redis.rs:31-38 | with a window of 0 seconds the Redis store lets pass what the memory store refuses |
| SlidingWindow.SortedSet.EvalScript | admin/app/middleware/RateLimit.php:43-60 | reply and new sorted set of one run of the script, under either reading of key expiry |
| SlidingWindow.PassesExactlyBelowLimit | admin/app/middleware/RateLimit.php:48-55 | a request is admitted if and only if fewer than limit requests were admitted in (now - window, now]; the count returned is that number, its own included |
| SlidingWindow.ExpiryNeverShows | admin/app/middleware/RateLimit.php:54 | the key's expiry changes no answer while the clocks drift by at most the slack |
| SlidingWindow.WindowBound | admin/app/middleware/RateLimit.php:43-55 | with clock readings in script order, every window-long interval of every run holds at most limit admissions |
| LateReadings.LateWindowBound | admin/app/middleware/RateLimit.php:43-60 | with clock readings at most d out of order, every interval of window length less d holds at most limit admissions |
| LateReadings.LateWindowOverflows | admin/app/middleware/RateLimit.php:43-60 | with readings one millisecond out of order a whole window can hold limit + 1, for every limit of at least 2 |
| SlidingWindow.SlackIsExact | admin/app/middleware/RateLimit.php:43-60 | for every limit, window and drift bound: all answers of all runs are exact if and only if the drift is within the slack (one millisecond more if a key outlives its deadline), or nothing is limited |
| RateLimits.SlidingWindowInSeconds | admin/app/middleware/RateLimit.php:43-60 | a request passes if and only if fewer than limit passed in the window * 1000 milliseconds before it, while Redis falls at most 10,000 milliseconds behind |
| RateLimits.SlackInMilliseconds | admin/app/middleware/RateLimit.php:43-60 | the drift borne is 10,000 milliseconds exactly, or 10,001 if a key outlives its deadline |
| UsdtAmount.UniqueAmount | admin/app/common/CryptoService.php:85-101 | the search loop returns the least free candidate, or the base |
| UsdtAmount.UniqueExactlyWhenFree | admin/app/common/CryptoService.php:81-101 | the amount is unused if and only if one of the 99 candidates, or failing all of them the base, is free |
| UsdtAmount.NewAmountIsLeastFree | admin/app/common/CryptoService.php:115-127 | with fewer than 99 others waiting, a first initiation gives the least amount of 1 to 99 cents above the base that no other pending order of the chain has |
| UsdtAmount.FewUsedLeaveOneFree | admin/app/common/CryptoService.php:87-99 | fewer than 99 amounts in use leave a candidate free |
| UsdtAmount.RunKeepsTidy | admin/app/common/CryptoService.php:115-127 | runs in which each initiation of a chain has stored before the next starts keep: pending amounts of a chain distinct and positive, and every amount on offer free and its order's own |
| UsdtAmount.AmountsStayApart | admin/app/common/CryptoService.php:115-127 | over every such run the pending amounts of a chain stay at least 0.01 apart |
| UsdtAmount.AmountIsKept | admin/app/common/CryptoService.php:115-118 | over every such run a pending order keeps its amount and every later initiation returns it, whatever the rate and however many others wait |
| UsdtAmount.VerifyTrc20 | admin/app/common/CryptoService.php:159-179 | returns the first transfer to the address that succeeded, matches the amount, has no contradicting memo and carries an id; none exactly when there is none |
| UsdtAmount.NoTransferPaysTwo | admin/app/common/CryptoService.php:166-169 | over every such run no transfer is within the tolerance of two pending orders of a chain |
| UsdtAmount.FullRangeRepeats | admin/app/common/CryptoService.php:87-100 | with base and all 99 offsets in use the base is handed out again |
| UsdtAmount.SameAmountExactly | admin/app/common/CryptoService.php:85-101 | two bases against one table get the same amount if and only if the higher one is below the lower one's amount, or is that amount and has nothing free above it |
| UsdtAmount.OverlapCollidesExactly | admin/app/api/v1/controller/ClientAppController.php:341-348 | two initiations that both read before either stores leave two orders with one amount, and a transfer that matches both, if and only if that holds of their bases |
| UsdtAmount.OverlapReplacesExactly | admin/app/api/v1/controller/ClientAppController.php:341-348 | two such initiations of one order replace the amount it was shown if and only if the second base is beyond that amount, or is that amount and has something free above it |
| RedisLock.RedisServer.AcquireLock | infrastructure/ecat-data-redis/src/lib.rs:197-222 | SET NX PX with a clamped duration: reply and new leases, refusals included |
| RedisLock.RedisServer.ReleaseLock | infrastructure/ecat-data-redis/src/lib.rs:224-241 | deletes the lease if and only if it is running with that token |
| RedisLock.MutualExclusion | infrastructure/ecat-lock/src/lib.rs:7-16 | in every run at most one grant of a key is both unreleased and unexpired |
| RedisLock.GrantedExactlyWhenFree | infrastructure/ecat-lock/src/lib.rs:11-13 | an acquisition is granted if and only if no unreleased grant of the key still runs |
| RedisLock.StaleReleaseIsHarmless | infrastructure/ecat-data-redis/src/lib.rs:226-233 | a release ends exactly the grants made with its token; any other running lease stays |
| RedisLock.TokensNameGrants | infrastructure/ecat-data-redis/src/lib.rs:199-199 | with fresh tokens no two grants ever made, released or not, share one |
| RedisLock.UnusableDurations | infrastructure/ecat-data-redis/src/lib.rs:200-216 | an acquisition fails exactly when the duration is under a millisecond or its end does not fit 64 bits |
| RedisLock.HeldForItsTime | infrastructure/ecat-data-redis/src/lib.rs:197-222 | a granted lock its holder does not release is held until its duration in whole milliseconds after the grant, whatever else happens, and no longer |
| TomlUpgrade.UpgradeCargoToml | infrastructure/ecat-cli/src/main.rs:206-231 | the loop's text is the upgraded lines, and its count is the number of lines that differ |
| TomlUpgrade.UpgradeTouchesOnlyDependencies | infrastructure/ecat-cli/src/main.rs:211-229 | line count is kept; a line differs if and only if it is a rewritable ecat line whose nearest header above is a dependency table |
| TomlUpgrade.RewriteChanges | infrastructure/ecat-cli/src/main.rs:233-268 | a line reported as rewritten really differs |
| TomlUpgrade.RewrittenLineIsFinal | infrastructure/ecat-cli/src/main.rs:233-268 | rewriting a rewritten line again finds nothing to do, in all three shapes of a line |
| TomlUpgradeTwice.RewrittenSpan | infrastructure/ecat-cli/src/main.rs:242-264 | a rewrite replaces the text between two quotes, which was not the version, by the version and nothing else |
| TomlUpgradeTwice.RewrittenIsNoHeader | infrastructure/ecat-cli/src/main.rs:211-219 | a rewritten line never becomes a table header |
| TomlUpgradeTwice.UpgradeIsIdempotent | infrastructure/ecat-cli/src/main.rs:206-231 | over lines a second upgrade changes nothing |
| TomlUpgradeTwice.SecondUpgrade | infrastructure/ecat-cli/src/main.rs:206-231 | a second upgrade of the text reports 0 changes, and returns the same text if and only if no line ends with a carriage return |
| TomlRequirement.PlainRequirementUpgraded | infrastructure/ecat-cli/src/main.rs:241-250 | `ecat-x = "old" tail` becomes the same line with the new version, or is left alone when it has it already, if and only if no quote follows the version; otherwise it loses everything up to its last quote |
| TomlRequirement.InlineRequirementUpgraded | infrastructure/ecat-cli/src/main.rs:251-264 | `ecat-x = { settings, version = "old" tail` becomes the same line with the new version, or is left alone when it has it already |
| TomlDependencies.PlainIsRewritten | infrastructure/ecat-cli/src/main.rs:233-250 | a plain requirement whose trimmed key is `ecat` or begins with `ecat-` gets the new version unless it has it |
| TomlDependencies.InlineIsRewritten | infrastructure/ecat-cli/src/main.rs:233-264 | the same for the first `version = "` of an inline table |
| TomlDependencies.OnlyEcatIsRewritten | infrastructure/ecat-cli/src/main.rs:234-239 | a line that is rewritten has such a key before its first equals sign |
| TomlDependencies.OtherKeysStay | infrastructure/ecat-cli/src/main.rs:234-239 | a line with another key is never rewritten, whatever its value |
| TomlDependencies.UsualRequirement | infrastructure/ecat-cli/src/main.rs:233-250 | `name = "old"` becomes `name = "new"` |
| TomlDependencies.InTableIs | infrastructure/ecat-cli/src/main.rs:211-222 | a line counts as a dependency's if and only if the nearest bracketed line above it is one of the four table names |
| TomlDependencies.DependencyIsUpgraded | infrastructure/ecat-cli/src/main.rs:206-250 | in the upgraded file a plain requirement of ecat below one of the four headers has the new version |
| TomlDependencies.InlineDependencyIsUpgraded | infrastructure/ecat-cli/src/main.rs:206-264 | the same for an inline table |
| TomlDependencies.OtherLinesStay | infrastructure/ecat-cli/src/main.rs:206-239 | a line that changes stands below one of the four headers, is no header and has a key of ecat |
| TomlSection.FindSection | infrastructure/ecat-cli/src/main.rs:395-400 | the loop finds the first line that is the section's header |
| TomlSection.ScanSection | infrastructure/ecat-cli/src/main.rs:404-420 | the loop finds the section's end and collects the keys before it |
| TomlSection.EnsureTomlSection | infrastructure/ecat-cli/src/main.rs:392-447 | the text the two scans and the insertion yield, about which the following rows speak |
| TomlSection.EnsureListsKeys | infrastructure/ecat-cli/src/main.rs:391-447 | afterwards a requested key is listed in the section if and only if a line can hold it |
| TomlSection.EnsureGivesVersions | infrastructure/ecat-cli/src/main.rs:421-432 | a requested key that was not listed and that a line can hold is now given the requested version by a line of the section |
| TomlSection.EnsureListsExactly | infrastructure/ecat-cli/src/main.rs:421-447 | a key is listed afterwards if and only if it was listed before or a new line is read as it |
| TomlSection.EnsureAddsRequested | infrastructure/ecat-cli/src/main.rs:421-447 | for keys that lines can hold: the keys listed afterwards are exactly the old ones and the requested ones |
| TomlSection.EnsureKeepsKeys | infrastructure/ecat-cli/src/main.rs:402-421 | every key listed before is still listed |
| TomlSection.EnsureKeepsLines | infrastructure/ecat-cli/src/main.rs:421-446 | a changed text is the old lines in order around one block at the end of the section, or of the file if the section is new; the block is the missing dependencies, in a new section after its header and an empty line unless there is one |
| TomlSection.UnchangedExactlyWhenListed | infrastructure/ecat-cli/src/main.rs:422-429 | the text is returned unchanged if and only if every requested key is listed already |
| TomlSection.EnsureTwice | infrastructure/ecat-cli/src/main.rs:392-447 | the second call returns its input if and only if every requested key is one that a line can hold |
| TomlKeys.KeyOfIs | infrastructure/ecat-cli/src/main.rs:407-416 | the key of a line is what stands before its first equals sign, trimmed; a line beginning with `#` or without an equals sign has none |
| TomlKeys.WrittenKeyIsRead | infrastructure/ecat-cli/src/main.rs:407-416 | `key = value` lists its key however it is spaced, unless commented out |
| TomlKeys.SectionKeysAreListed | infrastructure/ecat-cli/src/main.rs:395-420 | a section lists the keys of the lines between its first header and the next bracketed line |
| TomlKeys.NewSectionIsAppended | infrastructure/ecat-cli/src/main.rs:430-446 | to a file without the section: an empty line unless there is one, the header, and `key = "version"` for each dependency in order |
| Retry.BackoffIs | infrastructure/ecat-middleware/src/retry.rs:10-14 | three cut-offs amount to one: min(base * 2^(k-1), max delay, 2^64 - 1), for every retry number |
| Retry.BackoffIsExactlyDocumented | infrastructure/ecat-middleware/src/retry.rs:9-14 | the wait is the documented min(base * 2^(k-1), max delay) if and only if one of the two fits 64 bits of nanoseconds |
| Retry.BackoffNeverShrinks | infrastructure/ecat-middleware/src/retry.rs:9-14 | waits are monotone in the retry number and never exceed the maximum |
| Retry.RetryPolicy.Retry | infrastructure/ecat-middleware/src/retry.rs:50-61 | counts the attempt, and waits only while attempts are left and the rule agrees |
| Retry.CallWithRetries | infrastructure/ecat-middleware/src/retry.rs:148-158 | at most max(1, max attempts) calls; the last call is the first that is refused a retry; the waits are the backoffs in order |
| Retry.WaitingIsCapped | infrastructure/ecat-middleware/src/retry.rs:10-14 | n waits take at most n * max delay |
| Retry.WaitingIsGeometric | infrastructure/ecat-middleware/src/retry.rs:10-14 | n waits take at most base * (2^n - 1), and exactly that while no wait is cut off |

## Left out

Assumptions:

- One clock reading per locked section; the source reads the clock anew for each use inside a section.
- The in-memory limiter's `Instant::now() - MAX_IDLE` is assumed not to underflow.
- Failure ratios are real numbers and order amounts whole cents; rounding of `float` and `f64` is not modelled. Float fields of the line protocol are the decimal text that `Display` gives.
- The hash of a token is the cache key, and distinct tokens are taken to have distinct hashes.
- Whether Redis drops a key at its expiry instant or just after is left open: the lemmas hold for both, or say which.
- Lock poisoning, cancellation of asynchronous calls, and the fail-open paths when Redis is unreachable.
- UUID tokens and sliding-window members are assumed to be fresh.
- Overflow of the breaker's and the cache's counters, and of the attempt counter of the retry layer.
- Integers of line protocol fields and timestamps are unbounded here, so the round trip covers more than 64 bits.
- No two apps ever use the same key.
- The memory and the Redis rate limit store read one clock. Redis really keeps expiries in milliseconds of its own clock, so what `StoresAgreeExactly` says of a window's very end applies to about a millisecond around it.
- Redis's own clock does not go back.
- Cancelling an order is one atomic step that leaves a locked order alone. `admin/app/admin/controller/OrderController.php:147-159` reads the order first and saves it later without a lock.
- Changing an app's approval is one atomic step under the row lock that leaves the expiry alone. `admin/app/admin/controller/ClientController.php:185-234` reads the app first and saves it later without a lock, and approval sets a new expiry; the runs here start after that.

Not modelled:

- HTTP, gRPC, SQL and queue clients, TLS, signals, process spawning, and the PHP controllers except for the storing of an initiated amount.
- Parsing of the introspection response; the cache takes the claims it yields.
- HMAC signing after the canonical request; the hash of the payload is an input.
- The code of tower's retry service, which is not part of the repository: the loop in `CallWithRetries` calls again after each wait until the policy declines.
- The local mode of the event bus and the serialisation of events.
- Payment gateway verification before a confirmation.
- Decoding of the memo of a transfer: the decoded memo is an input of `VerifyTrc20`.
- GraphQL, Consul, ClickHouse, TDengine, memcached, load balancing, health, metrics and logging.

Stated weaker than a promise of the source:

- NeverStuck: supposes that every spawned consumer's handle has been stored, because DeadBeforeBound shows the promise false in that gap.
- RedisNeverAhead: says that Redis is never ahead of the database, not that it catches up, because StaleKeyIsPossible shows that it may not; KeyIsCurrentExactly says when it does.
- StoresAgree: excludes requests exactly at a window's end for a Redis that drops keys at that instant, because BoundaryParts shows the stores differ there; StoresAgreeExactly is the exact condition on the limit.
- SecondUpgrade: is for versions without quotes, equals signs or line ends, as package versions are.
- AmountsStayApart: is for runs in which each initiation of a chain has stored its amount before the next one starts; OverlapCollidesExactly says what happens otherwise.
- AmountIsKept: the same; OverlapReplacesExactly says what happens otherwise.
- NoTransferPaysTwo: the same.
- RevokedIsLiveExactly: supposes that no later reset takes the revoked key into use again.
- WindowBound: is for clock readings in the order of the scripts; LateWindowBound is the general form.
- EnsureTwice: is for section names, keys and versions without line ends.
- FixedWindowBounds: is for runs of fewer than 2^32 requests, beyond which the 32-bit counter wraps.
- PassesExactlyBelowMax: is for runs of fewer than 2^32 requests, and for limits on which the sweep is transparent.
