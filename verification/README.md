# Protocol and state-machine proofs for the moderation bot

Dafny models of the parts of the bot whose correctness depends on order, time or state, with
proofs about every run of them. `dafny verify dfyconfig.toml` checks everything.

| file | models |
|---|---|
| `CircuitBreakers.dfy`, `BreakerCalls.dfy` | the circuit breaker: as a class, as a function of its event log, and over all schedules of concurrent calls |
| `FanOut.dfy` | the bounded dispatcher on the shared breaker |
| `SlidingWindow.dfy`, `RateLimiters.dfy` | the rate-limit specification, and the bucket, the Redis script and the switching limiter proved against it |
| `RedisChain.dfy`, `RedisDrains.dfy`, `MongoJson.dfy` | the ordered Redis mutations of the two-level cache, that they can drain, and the cache's JSON codec |
| `Formatter.dfy`, `Templates.dfy`, `RenderedTemplates.dfy` | MarkdownV2 escaping with a reader for it, the template scanner with its grammar, and what a rendering reads as |
| `Warns.dfy`, `WarnLedger.dfy`, `ConcurrentWarns.dfy` | warn history and counter: the operations, serial runs, and concurrent adds |
| `Appeals.dfy`, `AppealButtons.dfy`, `AppealOutcomes.dfy` | submissions and decisions racing for a ban's review slot, with failures at any step; the dispatch of the review card's buttons; what submissions and decisions achieve |
| `ErrorReporter.dfy` | shipping budget, owner throttle and dedupe map |
| `UsersCache.dfy` | the profile cache: skipped writes and batch readers |
| `Syncing.dfy` | the bounded enforcement sweep and its summary |
| `Wrappers.dfy`, `FiniteSets.dfy` | `Option` and `Result`; sizes of sets |

How the models read the source:

- Code that updates fields, deques, dicts or collections is a class whose methods have the
  same branches; each method is proved against a function of the old state, and the lemmas
  are about those functions.
- Code that awaits is a step machine: what runs between two awaits is one atomic step, and a
  schedule is any sequence of enabled steps. Theorems quantify over all schedules.
- A clock reading is a parameter that never runs backwards along a run. Instants and
  durations are exact numbers.
- A database, Redis or Telegram call succeeds, or fails without effect; which of the two is
  part of the step or a parameter. Where the source distinguishes more (a script whose answer
  is lost, a refusal against another error) so does the model.
- Where a promise of the source fails, the model keeps the code, a lemma gives a concrete run
  on which it fails, and another the exact condition under which it holds.

Places where the code does not do what its documentation says, each with its condition proved:

- the breaker's "only one HALF_OPEN probe": a call admitted while CLOSED that reports during
  HALF_OPEN frees the slot (`BreakerCalls.BoundAttained`, `BreakerCalls.SecondProbeIff`);
- the local limiter's "seconds to wait if denied": a rounded wait of 0.0 reads as admitted
  (`RateLimiters.DenialReadAsAdmission`);
- the renderer writes integers unescaped, and a minus sign is not legal MarkdownV2 text
  (`RenderedTemplates.AcceptedIffNoNegative`);
- two italic fragments side by side in a template: their underscores merge into an underline
  delimiter (`RenderedTemplates.MergedItalicsExample`, `RenderedTemplates.ReadsAsMeantIff`);
- a read right after `invalidate` may see the value that was invalidated, and bring it back into
  memory for good (`RedisChain.RedisIsCurrentIff`, `RedisChain.StaleCopyExample`,
  `RedisChain.MemoryAgreesIffStillPut`);
- an add whose rollback fails too, or a clear that loses only the counter, is contradicted by the
  next read (`WarnLedger.AddKeepsLedger`, `WarnLedger.ClearKeepsLedger`);
- a migration that loses one of its two updates leaves a chat's rows and counters apart
  (`WarnLedger.MigrationKeepsLedger`);
- expiry deletes rows without lowering a counter that survives (`WarnLedger.ExpiryExactness`);
- the review card's reject button sends `appeal_reject:` where the handler wants `appeal_reject_`,
  so a pending appeal can never be rejected (`AppealButtons.RejectButtonIsDead`,
  `Appeals.ApprovableNeverRejectable`);
- an appeal accepted after the rejection cooldown can never be decided
  (`Appeals.PendingDecidableIff`);
- an empty stored first name makes a skipped profile write visible
  (`UsersCache.SkipIsHarmlessIffNamed`);
- a sweep with a cap of zero or less reports no truncation (`Syncing.RunBanSync`), and a
  present member whose ban is refused counts as absent (`Syncing.RefusedMemberExample`).

## Model

| member | source | states |
|---|---|---|
| CircuitBreakers.CircuitBreaker.State | tcbot/utils/circuit_breaker.py:110-122 | reading the state wakes an OPEN circuit once the recovery timeout has passed since `_opened_at`, and changes nothing else |
| CircuitBreakers.CircuitBreaker.PeekState | tcbot/utils/circuit_breaker.py:124-131 | a health read returns the stored state and cannot wake the circuit |
| CircuitBreakers.CircuitBreaker.TryAcquire | tcbot/utils/circuit_breaker.py:167-176 | admission in CLOSED, one reservation in HALF_OPEN, refusal otherwise, with the whole new state |
| CircuitBreakers.CircuitBreaker.RecordSuccess | tcbot/utils/circuit_breaker.py:207-212 | a success closes the circuit, zeroes the count and frees the probe slot from any state |
| CircuitBreakers.CircuitBreaker.RecordFailure | tcbot/utils/circuit_breaker.py:214-234 | a failure counts, trips from HALF_OPEN at once and from any state at the threshold, and frees the probe slot even when it came from a late call |
| CircuitBreakers.CircuitBreaker.ReleaseProbe | tcbot/utils/circuit_breaker.py:236-237 | only the reservation is dropped |
| CircuitBreakers.CircuitBreaker.Reset | tcbot/utils/circuit_breaker.py:198-203 | force-close, with `_opened_at` left as it was |
| CircuitBreakers.CircuitBreaker.Report | tcbot/utils/circuit_breaker.py:149-165 | what `call` records for a result, an exception and a cancellation |
| CircuitBreakers.BreakerIsFunctionOfLog | tcbot/utils/circuit_breaker.py:110-122 | over every event log each field equals a definition read off the log: CLOSED iff too few failures since the last success or reset, `_opened_at` the last failure, a reservation only in HALF_OPEN, HALF_OPEN only after the recovery timeout |
| CircuitBreakers.AdmissionRule | tcbot/utils/circuit_breaker.py:167-176 | exactly when a call is admitted, stated on the log alone |
| CircuitBreakers.OpenWindowHolds | tcbot/utils/circuit_breaker.py:190-196 | once tripped, with no success or reset, every acquire before the end of the recovery window is rejected, whatever else happens meanwhile |
| BreakerCalls.StepKeepsInv | tcbot/utils/circuit_breaker.py:138-165 | every attempt and report of any call keeps: probes outstanding <= late reports + the reservation, a reservation implies HALF_OPEN and an outstanding probe, CLOSED iff below the threshold |
| BreakerCalls.ProbesBounded | tcbot/utils/circuit_breaker.py:167-176 | over all schedules of concurrent calls the probes outstanding never exceed one plus the late reports, and the reservation never outlives all probes |
| BreakerCalls.LateCountsLateReports | tcbot/utils/circuit_breaker.py:207-237 | the late counter counts exactly the reports of CLOSED-admitted calls that land in HALF_OPEN: it stays put iff the schedule has none |
| BreakerCalls.ReportsCounted | tcbot/utils/circuit_breaker.py:149-165 | over every schedule the breaker has counted exactly the exceptions reported since the last result, is CLOSED iff they are too few to trip it, and dates an open circuit by the last one |
| BreakerCalls.AttemptRule | tcbot/utils/circuit_breaker.py:167-176 | exactly when the next attempt of a schedule is let through, by the reports so far |
| BreakerCalls.SuccessHeals | tcbot/utils/circuit_breaker.py:207-212 | after a returned call every attempt is let through until threshold many exceptions have been reported |
| BreakerCalls.ReportEffect | tcbot/utils/circuit_breaker.py:149-165 | a result heals, an exception adds one failure, a cancellation changes neither state nor count |
| BreakerCalls.SingleProbe | tcbot/utils/circuit_breaker.py:168 | the documented single probe holds on every schedule without a late report |
| BreakerCalls.BoundAttained | tcbot/utils/circuit_breaker.py:214-237 | the single-probe promise fails without that condition: for every configuration and n some schedule has n late reports and n + 1 probes out at once, so the bound is exact |
| BreakerCalls.SecondProbeIff | tcbot/utils/circuit_breaker.py:167-176 | the exact condition, on the state: while one probe is out, a schedule in which it never reports can let a second one out iff the reservation is already lost or a call admitted while CLOSED is still out |
| FanOut.StepKeepsInv | tcbot/utils/dispatch.py:87-93 | every step of a slot, and every use of the shared breaker by others, keeps the permits equal to the limit minus the running slots and each coroutine used as its slot says |
| FanOut.BoundedAndUsedOnce | tcbot/utils/dispatch.py:82-98 | over every schedule at most max(1, max_concurrent) coroutines run at once, and none is awaited or closed twice or both |
| FanOut.AllPermitsUsed | tcbot/utils/dispatch.py:82-98 | the bound is reached: any number of coroutines up to max(1, max_concurrent) can run together |
| FanOut.OneResultPerCoroutine | tcbot/utils/dispatch.py:127-139 | one result per coroutine in input order: its own outcome if awaited, CircuitOpenError if closed, exactly one of the two |
| FanOut.NeverStuck | tcbot/utils/dispatch.py:85-88 | while a slot is unfinished some slot can move: no deadlock and no lost permit |
| FanOut.TwoStepsEach | tcbot/utils/dispatch.py:87-126 | a call is over after at most two steps per coroutine, whatever other users of the breaker do |
| FanOut.BreakerSeesEveryStep | tcbot/utils/dispatch.py:87-126 | over every schedule the shared breaker is what the acquires, outcomes and other users' events make of it, in order: values succeed, timeouts and network errors fail, anything else only releases the probe |
| FanOut.SkippedByTheLog | tcbot/utils/dispatch.py:87-98 | a slot whose turn has come is skipped exactly when the events so far, of this call and of others, say that the circuit rejects |
| FanOut.NoProbeLeftBehind | tcbot/utils/dispatch.py:99-126 | however its coroutines end, a call alone on the breaker leaves no probe reserved |
| FanOut.NothingSkipped | tcbot/utils/dispatch.py:85-131 | slots begin in input order and finish in any: from a CLOSED breaker of its own, a call skips no slot in any schedule unless some proper prefix ends in a stretch that can trip the circuit |
| FanOut.TooFewFaults | tcbot/utils/dispatch.py:66-69 | in particular when its counted network errors cannot reach the threshold, however many refusals occur |
| FanOut.SomethingSkipped | tcbot/utils/dispatch.py:85-131 | with such a stretch some schedule, beginning slots in input order, does skip a slot |
| FanOut.SkipCondition | tcbot/utils/dispatch.py:64-72 | the exact condition for a call alone on a CLOSED breaker, at every concurrency: a slot can be skipped iff for some from <= to < n, with a success just before `from` (or none), the faults from `from` to `to` plus what is carried (the old count, or up to concurrency - 1 earlier faults) reach the threshold and fewer successes than permits lie among them |
| FanOut.SuccessFirstExample | tcbot/utils/dispatch.py:85-131 | one success followed by threshold many network errors loses nothing at any concurrency |
| SlidingWindow.AdmissionKeepsSpacing | tcbot/modules/helper/decorators.py:67-81 | an admission under the keep-everything rule keeps any limit + 1 consecutive admissions at least one window apart |
| SlidingWindow.WindowBound | tcbot/modules/helper/decorators.py:41-42 | such a log has at most `limit` admissions in any half-open window |
| SlidingWindow.WaitIsTight | tcbot/modules/helper/decorators.py:76-78 | the exact wait of a denial: denials do not extend it, every earlier retry is denied, a retry at that instant is admitted |
| RateLimiters.LocalLimiter.Check | tcbot/modules/helper/decorators.py:51-81 | the deque bucket with its clean-up decides and logs exactly as the specification that keeps the whole log; a denial answers the whole number of tenths nearest to the exact wait, ties to even |
| RateLimiters.LocalLimiter.DropExpired | tcbot/modules/helper/decorators.py:67-69 | popping expired stamps keeps every bucket faithful to the full log and within one window |
| RateLimiters.LocalLimiter.ForgetOldBuckets | tcbot/modules/helper/decorators.py:59-64 | throwing away buckets whose oldest stamp is two windows old loses no stamp that still counts, because a bucket spans less than one window |
| RateLimiters.PruningIsInvisible | tcbot/modules/helper/decorators.py:57-69 | time passing and dropping expired stamps, of any users at once, keep every bucket faithful to the full log |
| RateLimiters.LocalLimiter.AtMostLimitPerWindow | tcbot/modules/helper/decorators.py:41-42 | no user is admitted more than max_calls times in any half-open window |
| RateLimiters.DenialReadAsAdmission | tcbot/modules/helper/decorators.py:76-78 | the rounded wait of a denial is 0.0, which callers read as admitted, iff at most a twentieth of a second is left |
| RateLimiters.DenialReadAsAdmissionExample | tcbot/modules/helper/decorators.py:78 | a concrete denial that answers 0.0 |
| RateLimiters.NearestTenthIsUnique | tcbot/modules/helper/decorators.py:78 | the answer of a denial is determined: a whole number of tenths nearest to the exact wait, the even one of two |
| RateLimiters.ScriptLimiter.Eval | tcbot/modules/helper/decorators.py:88-108 | the sorted-set script, key expiry included, decides and logs exactly as the specification and answers the wait in tenths rounded up |
| RateLimiters.ScriptWaitSuffices | tcbot/modules/helper/decorators.py:101-106 | the script's answer is the least number of tenths after which a retry is admitted |
| RateLimiters.SameDecisions | tcbot/modules/helper/decorators.py:67-81 | fed the same calls on one clock, bucket and script grant and deny the same calls, for every sequence of calls |
| RateLimiters.AsyncLimiter.CheckLocally | tcbot/modules/helper/decorators.py:129-131 | without a Redis client the bucket decides, and answers the tenth nearest to its exact wait |
| RateLimiters.AsyncLimiter.Send | tcbot/modules/helper/decorators.py:133-148 | a check sends its script and waits; the script, if it is ever carried out, decides on the sorted set alone, at the instant it was sent |
| RateLimiters.AsyncLimiter.Receive | tcbot/modules/helper/decorators.py:149-151 | the result that arrives is the decision, and a tenth of it the answer in seconds, whatever other checks did meanwhile |
| RateLimiters.AsyncLimiter.FallBack | tcbot/modules/helper/decorators.py:152-159 | on an error or the timeout the bucket decides, at a later clock reading, even when the script has run and only its answer was lost |
| RateLimiters.AsyncLimiter.AtMostTwiceTheLimit | tcbot/modules/helper/decorators.py:111-117 | with any checks under way, a user has been granted at most twice the limit in any window |
| RateLimiters.AsyncLimiter.Replay | tcbot/modules/helper/decorators.py:111-159 | that bound holds after every interleaving of checks that overlap, wait for Redis and fall back, for every user and window |
| RedisChain.TwoLevelCache.EnqueueRedisMutation | tcbot/database/cache.py:433-475 | the new mutation remembers the tail it found and becomes the tail |
| RedisChain.TwoLevelCache.Put | tcbot/database/cache.py:238-241 | memory changes at once, the Redis write is enqueued |
| RedisChain.TwoLevelCache.Invalidate | tcbot/database/cache.py:243-250 | memory forgets the key at once, the Redis delete is enqueued |
| RedisChain.TwoLevelCache.ClearAll | tcbot/database/cache.py:256-293 | memory is emptied at once, the sweep of the prefix is enqueued |
| RedisChain.TwoLevelCache.ClearRedisTail | tcbot/database/cache.py:478-484 | a finished task clears the tail only while it still is the tail |
| RedisChain.StepKeepsChained | tcbot/database/cache.py:452-475 | every enqueue, begin, end and tail-clearing callback keeps the chain: a begun mutation has all earlier ones behind it |
| RedisChain.OneAtATimeInOrder | tcbot/database/cache.py:433-484 | in every run the mutations of a prefix execute one at a time in enqueue order, even as the tail is cleared and recreated, and Redis always holds their effects so far, whatever it held at the start |
| RedisChain.DrainedRedis | tcbot/database/cache.py:238-293 | once the chain drains with all mutations successful, Redis is the fold of the put, invalidate and clear_all log from what was left over in it, for every such content |
| RedisChain.NeverStuck | tcbot/database/cache.py:452-466 | a failed mutation does not block the chain: while some task is not over, some task can move on |
| RedisDrains.ChainCanDrain | tcbot/database/cache.py:433-484 | from every run without a failed mutation the chain can drain whole: every task retires, the tail is cleared, and Redis ends as the fold of the log |
| RedisChain.RedisIsCurrentIff | tcbot/database/cache.py:331-342 | in every run and for every content left over in Redis, it answers what the log says about a key iff no operation touches the key, or the last one that does has succeeded or already removed it, or Redis agreed before that one began |
| RedisChain.ReadDuringInvalidate | tcbot/database/cache.py:243-250 | a concrete run in which it does not: after put, drain and invalidate Redis still answers the old value while the delete is queued |
| RedisChain.TwoLevelCache.Get | tcbot/database/cache.py:316-336 | memory answers first; otherwise what Redis holds now is on its way |
| RedisChain.TwoLevelCache.CopyIntoMemory | tcbot/database/cache.py:337-342 | the answer is copied into memory, whatever has happened to the key since |
| RedisChain.CurrentIffStillPut | tcbot/database/cache.py:331-342 | an answer on its way is still what the log says iff the last operation on its key puts that very value, or none touches the key and the value was left over |
| RedisChain.MemoryAgreesIffStillPut | tcbot/database/cache.py:331-342 | memory agrees with the log throughout a run iff that holds of each Redis answer when it is copied |
| RedisChain.HitStaysCurrentIff | tcbot/database/cache.py:331-342 | an answer that was current when given is current when copied iff no operation on its key was enqueued meanwhile, or the last one puts the same value |
| RedisChain.DrainedLayersAgree | tcbot/database/cache.py:238-293 | then, once drained with all mutations successful, memory holds nothing that Redis does not |
| RedisChain.StaleCopyExample | tcbot/database/cache.py:331-342 | a concrete run without it: every mutation has succeeded, and memory holds a key that was invalidated and that Redis no longer has |
| MongoJson.RoundTrip | tcbot/database/cache.py:56-96 | decoding an encoded tree gives it back unchanged iff it holds no dict that looks like an encoded datetime or ObjectId and no leaf of another type |
| MongoJson.UntaggedRoundTrip | tcbot/database/cache.py:51-54 | every tree whose dicts leave the tag key alone survives the cache, datetimes and ObjectIds included |
| MongoJson.WireFormat | tcbot/database/cache.py:56-75 | the tagged dicts that datetimes and ObjectIds are written as |
| Formatter.EscReadsBack | tcbot/utils/formatter.py:50-52 | escaped text is read by MarkdownV2 as the text itself, for every string |
| Formatter.BoldReadsBack | tcbot/utils/formatter.py:55-62 | `bold` reads back as its text in bold; empty text yields nothing visible |
| Formatter.ItalicReadsBack | tcbot/utils/formatter.py:65-71 | `italic` reads back as its text in italics |
| Formatter.CodeReadsBack | tcbot/utils/formatter.py:74-82 | `code` reads back as its text in a code span |
| Formatter.LinkReadsBack | tcbot/utils/formatter.py:91-93 | `link` reads back as its text linked to exactly its url |
| Formatter.NumeralIsUnique | tcbot/utils/formatter.py:106 | a string is what an integer is written as iff it is its decimal numeral: minus sign, no leading zero, positional value |
| Formatter.UserRefReadsBack | tcbot/utils/formatter.py:96-106 | `user_ref` reads back as the name linked to `tg://user?id=` and a decimal numeral of exactly that identifier, for any identifier, although its url is not escaped |
| Formatter.IntegerReadsBack | tcbot/utils/i18n.py:160-161 | an integer is written as its decimal numeral, and unescaped is read back iff it is not negative |
| Formatter.ReadBackAppend | tcbot/utils/formatter.py:31-40 | messages that read back on their own read back one after the other, unless the first ends in an underscore delimiter and the second begins with one |
| Formatter.AppendIffNoMerge | tcbot/utils/formatter.py:65-71 | that condition is exact for a second message that does not begin with an underline |
| Formatter.AdjacentItalicsExample | tcbot/utils/formatter.py:65-71 | two adjacent italics are refused, and of three the middle one shows underlined |
| Templates.ParseUnparse | tcbot/utils/i18n.py:166-178 | the template grammar is unambiguous: what was written from pieces parses to those pieces |
| Templates.ParseIffInGrammar | tcbot/utils/i18n.py:169-178 | a template is accepted iff it is in the grammar, and then in exactly one way |
| Templates.FieldAccepted | tcbot/utils/i18n.py:23 | a braced name is a field iff it is an ASCII identifier, by character codes |
| Templates.SpanAccepted | tcbot/utils/i18n.py:191-222 | a code or bold span is accepted iff it is not empty and holds no brace, and bold text no backtick |
| Templates.RenderTemplate | tcbot/utils/i18n.py:166-248 | the index scanner with its literal buffer ends and returns what the grammar denotes, and raises exactly on a template outside it or with a field that has no value |
| Templates.Render | tcbot/utils/i18n.py:251-285 | the render step of `t`: a None value raises, otherwise the scanner runs on the prepared values in the chosen mode |
| Templates.SameTemplatesInBothModes | tcbot/utils/i18n.py:251-285 | escaped and plain mode accept and reject the same templates for the same values |
| RenderedTemplates.EscapedReadsAsPlain | tcbot/utils/i18n.py:148-248 | the plain rendering is the text the template means; the escaped one is a message Telegram accepts that shows exactly that meaning, unless underscores of neighbouring pieces merge, and then it does not |
| RenderedTemplates.ReadsAsMeantIff | tcbot/utils/i18n.py:148-248 | for well-formed Safe fragments that do not begin with an underline, the escaped rendering reads as the template means iff no field is given a negative integer and no underscores merge |
| RenderedTemplates.AcceptedIffNoNegative | tcbot/utils/i18n.py:160-161 | with well-formed Safe fragments and no underscores that merge, the escaped rendering is accepted iff no field is given a negative integer |
| RenderedTemplates.MergedItalicsExample | tcbot/utils/i18n.py:154-155 | a concrete template with two italic fragments side by side whose rendering is refused |
| RenderedTemplates.NegativeExample | tcbot/utils/i18n.py:160-161 | a concrete template and value whose rendering is refused |
| Warns.WarnsDb.AddWarn | tcbot/database/warns_db.py:119-169 | the row and the counter after an add that succeeds, fails to insert, is rolled back, or fails to roll back |
| WarnLedger.DocsAfterAdd | tcbot/database/warns_db.py:119-169 | exactly the given row, reason and admin included, is added or nothing |
| Warns.WarnsDb.WarnCount | tcbot/database/warns_db.py:40-77 | reading a count backfills a counter only when it is missing and rows exist |
| WarnLedger.ReadIsStored | tcbot/database/warns_db.py:40-75 | a read answers the counter, or the number of rows where there is none, and leaves a counter that says so |
| Warns.WarnsDb.RecountAndStore | tcbot/database/warns_db.py:80-116 | the repair stores the true number of rows, or deletes the counter when there are none |
| Warns.WarnsDb.FindLast | tcbot/database/warns_db.py:285-292 | the newest row by time, then by id |
| Warns.WarnsDb.RemoveLastWarn | tcbot/database/warns_db.py:280-328 | the newest row goes and the counter with it; a partial failure ends in a recount, and an exception if that fails too |
| WarnLedger.RemovalLeaves | tcbot/database/warns_db.py:294-328 | what a removal leaves from any state: the row gone iff its delete went through, the counter one lower when both updates took effect, the true number of rows after a repair, other pairs untouched |
| WarnLedger.CountersStayNonNegative | tcbot/database/warns_db.py:294-328 | no operation, whatever fails in it, makes a counter negative |
| Warns.WarnsDb.ClearWarnDocs | tcbot/database/warns_db.py:182-249 | rows and counters of one pair, or of every pair of a user, go together; others stay |
| WarnLedger.OnlyThatPairCleared | tcbot/database/warns_db.py:182-249 | clearing one pair empties that pair and leaves the rows and the counter of every other as they were |
| WarnLedger.OnlyThatUserCleared | tcbot/database/warns_db.py:200-249 | clearing a user empties all pairs of that user and no one else's |
| Warns.WarnsDb.ExpireOldWarns | tcbot/database/scheduler.py:86-122 | rows older than the cutoff and counters not touched since it go, nothing else |
| WarnLedger.StepKeepsLedger | tcbot/database/warns_db.py:40-169 | the ledger: a counter covers its rows and is as young as each, and a missing counter means no rows. Each operation, with any of its calls failing, keeps it iff what that operation needs is spared |
| WarnLedger.RunKeepsLedger | tcbot/database/warns_db.py:280-328 | a serial run keeps the ledger throughout iff each of its operations is spared |
| WarnLedger.AddKeepsLedger | tcbot/database/warns_db.py:137-165 | an add breaks the ledger iff its rollback fails and its counter has no room for the row |
| WarnLedger.FailedRollbackExample | tcbot/database/warns_db.py:144-165 | a concrete failed rollback after which the next read counts the warn that failed |
| WarnLedger.ClearKeepsLedger | tcbot/database/warns_db.py:217-249 | a clear breaks the ledger iff it drops the counter and keeps the rows of a pair that has some |
| WarnLedger.CountsOnlyClearExample | tcbot/database/warns_db.py:217-249 | a concrete clear that lost only the counter, undone by the next read |
| WarnLedger.ExpiryKeepsLedger | tcbot/database/scheduler.py:89-104 | expiry breaks the ledger iff it drops an old counter and keeps the rows of a pair that has some, which is why both sides are pruned |
| WarnLedger.NeverRebuilt | tcbot/database/scheduler.py:89-94 | a counter that expired is never brought back by a read, over any later run in which no add leaves a row, whatever else fails in it |
| WarnLedger.RemovalKeepsLedger | tcbot/database/warns_db.py:294-328 | a removal keeps the ledger iff it does not lose the repair of a decrement whose row stayed, or the counter had one to spare |
| WarnLedger.RemovalExactness | tcbot/database/warns_db.py:294-328 | a removal keeps an exact counter exact iff both of its updates went alike or the repair ran |
| WarnLedger.OthersStayExact | tcbot/database/warns_db.py:119-249 | every operation but expiry keeps an exact counter exact iff it treats the rows and the counter of the pair alike |
| WarnLedger.ExpiryExactness | tcbot/database/scheduler.py:99-104 | expiry, with either side failing, keeps an exact counter exact iff the counter goes and its rows with it, or the counter stays and all its rows too |
| WarnLedger.ExpiryLeavesStaleCount | tcbot/database/scheduler.py:99-104 | a concrete run after which the counter says 2 and one row is left |
| Warns.WarnsDb.MigrateRecords | tcbot/database/warns_db.py:353-390 | rows and counters are repointed by two updates, each of which may fail alone; the answer is whether any record was found |
| WarnLedger.MigrationCarriesOver | tcbot/database/warns_db.py:353-390 | moving a chat's records to a chat without any carries rows and counters of every user over whole, and keeps the ledger |
| WarnLedger.MigrationKeepsLedger | tcbot/database/warns_db.py:353-390 | with one of its updates failing it keeps the ledger iff the old chat has no rows |
| ConcurrentWarns.ConcurrentAdds | tcbot/database/warns_db.py:119-169 | in every interleaving of adds, failing ones included, the successful calls return c+1 to c+N each once, and at rest the counter has grown by N and the history by N plus the failed rollbacks |
| Appeals.OneClaimPerClear | tcbot/database/bans_db.py:211-240 | in every interleaving of submissions and decisions two successful slot claims are separated by a clear, and the stored review is the card claimed last |
| Appeals.NoOrphanCard | tcbot/modules/helper/workflows/appeal_submit_flow.py:529-570 | when all submissions are over each posted card has held the slot or was deleted, never both, except one whose own deletion failed |
| Appeals.PendingCardStands | tcbot/modules/helper/workflows/appeal_submit_flow.py:529-570 | in every interleaving the card of a stored review was posted and has been neither deleted nor given up |
| Appeals.NoSplitBrain | tcbot/modules/helper/workflows/appeal_review_flow.py:265-363 | in every interleaving, with database failures at any step and no new ban, no chat is or can next be unbanned while a ban record of the user is active |
| AppealOutcomes.ApprovalIsCarriedOut | tcbot/modules/helper/workflows/appeal_review_flow.py:277-365 | an approval whose calls succeed, in full: every ban of the user inactive, this review resolved, the listed chats unbanned, nothing else changed |
| AppealOutcomes.ApprovalCompletes | tcbot/modules/helper/workflows/appeal_review_flow.py:187-365 | wherever an approve tap can still lead to the verdict, some run of that decision ends with no active ban, the review gone and all of any list of chats unbanned |
| AppealOutcomes.DeactivationLeadsToUnbanning | tcbot/modules/helper/workflows/appeal_review_flow.py:296-365 | in every schedule a decision that has deactivated the bans is over iff it has stopped unbanning, and until then can unban every chat iff its marker step is done, successful or not |
| AppealOutcomes.UnbannedAreTheCalls | tcbot/modules/helper/workflows/appeal_review_flow.py:357-363 | over every schedule the unbanned chats are those whose unban calls were made |
| AppealOutcomes.RejectionIsCarriedOut | tcbot/modules/helper/workflows/appeal_review_flow.py:454-530 | a rejection whose calls succeed dates the ban by now and resolves its review, nothing else |
| AppealOutcomes.LeftoverCardIsTidied | tcbot/modules/helper/workflows/appeal_review_flow.py:187-205 | a tap on the card of an inactive ban resolves the review left behind, nothing else |
| AppealOutcomes.DecidesAtOnceIff | tcbot/modules/helper/workflows/appeal_review_flow.py:187-248 | a tap on its own leads to its verdict at once iff the ban is active, pending and never rejected, the button works, and the reviewer owns the ban, nobody does, or the review is 12 hours old |
| AppealOutcomes.HandlerDecides | tcbot/modules/helper/workflows/appeal_review_flow.py:109-261 | whatever callback data the handler takes: after the ban is read the decision is on the way to the verdict asked for, to tidying up, or over, and nothing else has changed |
| AppealOutcomes.SubmissionIsCarriedOut | tcbot/modules/helper/workflows/appeal_submit_flow.py:190-570 | a submission whose calls succeed, in full: a stale review is cleared, the card posted, and it holds the slot since now |
| AppealOutcomes.LoserDiscards | tcbot/modules/helper/workflows/appeal_submit_flow.py:529-570 | a submission that finds the slot taken, or whose claim fails, deletes its own card and changes nothing else |
| AppealOutcomes.FailuresChangeNothing | tcbot/database/bans_db.py:211-240 | a call that fails leaves ban records, slots, posted cards and chats as they were |
| AppealOutcomes.FailuresGiveUp | tcbot/modules/helper/workflows/appeal_review_flow.py:277-336 | a failed call ends its submission or decision, except a post that is tried again, a lost claim, an approval's marker step and a rejection's date |
| AppealOutcomes.AcceptedAtOnceIff | tcbot/modules/helper/workflows/appeal_submit_flow.py:190-458 | an appeal is accepted at once iff its ban is active, no review of it is younger than 72 hours and no rejection younger than 24 |
| Appeals.AbortedApprovalIsInvisible | tcbot/modules/helper/workflows/appeal_review_flow.py:277-336 | an approval that fails at or before deactivation leaves no trace: erased from any schedule, everyone else's run stays possible and ends with the same ban records, review markers, cards and unbanned chats |
| Appeals.PendingDecidableIff | tcbot/modules/helper/workflows/appeal_review_flow.py:97-261 | in every reachable world a pending appeal of an active ban can still be decided with a button of its card, by any member of staff, iff that ban was never rejected and the button's data is dispatched |
| Appeals.ApprovableNeverRejectable | tcbot/modules/helper/workflows/appeal_review_flow.py:97-261 | so it can be approved iff that ban was never rejected, and can never be rejected |
| AppealButtons.RejectButtonIsDead | tcbot/modules/helper/keyboards.py:777-795 | the card's reject button carries data that no handler takes, for every ban id |
| AppealButtons.RejectButtonOneCharacterOff | tcbot/modules/helper/keyboards.py:777-795 | with its colon replaced by an underscore it would be taken for a rejection |
| AppealButtons.ApproveButtonWorksIff | tcbot/modules/appeals.py:65-68 | the approve button is dispatched, for its own ban, iff the id is non-empty and free of whitespace up to one final line break |
| AppealButtons.ApproveButtonWorks | tcbot/database/mongos.py:79-81 | so it works for every non-empty id of visible ASCII characters, which every id that the bot generates is |
| AppealButtons.SpacedIdNotDispatched | tcbot/modules/appeals.py:65-68 | and for no id that is empty or holds a blank, a final line break aside |
| AppealButtons.RejectionNeedsOtherData | tcbot/modules/helper/workflows/appeal_review_flow.py:109-121 | whatever is taken for a rejection is data that no button of the card carries |
| Appeals.NoVerdictAfterRejection | tcbot/modules/helper/workflows/appeal_review_flow.py:221-227 | once a ban has been rejected no later tap on it leads to a verdict, over every later run |
| Appeals.PendingButUndecidable | tcbot/modules/helper/workflows/appeal_submit_flow.py:436-458 | a concrete run in which an appeal sent after the cooldown is accepted and pending, and nobody can decide it |
| Appeals.CooldownRemaining | tcbot/modules/helper/workflows/appeal_submit_flow.py:93-102 | a cooldown is reported iff a day has not passed since the rejection, as the whole hours left plus one |
| ErrorReporter.Shipper.Enter | tcbot/utils/error_reporter.py:476-482 | the first part of a call: a new window resets the budget and takes the suppressed count for a summary |
| ErrorReporter.Shipper.Resume | tcbot/utils/error_reporter.py:483-495 | after its summary a call goes on to the budget, and is given up with a failed summary |
| ErrorReporter.Shipper.Decide | tcbot/utils/error_reporter.py:496-499 | within budget a report is attempted, beyond it suppressed |
| ErrorReporter.ShippingBudget | tcbot/utils/error_reporter.py:471-515 | over every interleaving at most two budgets of reports, 40, are attempted in any minute, and every call is attempted, pending, summarised, lost with a failed summary, given up or suspended |
| ErrorReporter.SuppressedOnlyWhenSpent | tcbot/utils/error_reporter.py:476-499 | a call is attempted, awaits the summary of what was suppressed, or is suppressed after 20 attempts in the last minute |
| ErrorReporter.SummaryDecides | tcbot/utils/error_reporter.py:483-495 | a sent summary lets its call go on to the budget, a failed one loses what it stood for and the report |
| ErrorReporter.OwnerThrottle.OwnerSuppressed | tcbot/utils/error_reporter.py:160-179 | every answer is that of a throttle that never forgets an entry: pruning expired entries changes none |
| ErrorReporter.OwnerBudget | tcbot/utils/error_reporter.py:149-179 | however often an error repeats, the owner is told of it at most twice the budget, 6 times, in any hour |
| ErrorReporter.OwnerSuppressedOnlyWhenTold | tcbot/utils/error_reporter.py:160-179 | a message is suppressed only when that error has reached the owner 3 times in the hour before |
| ErrorReporter.Dedupe.DropOldest | tcbot/utils/error_reporter.py:224-228 | exactly the wanted number of entries goes, and only oldest ones |
| ErrorReporter.Dedupe.SeenRecently | tcbot/utils/error_reporter.py:216-232 | the map never exceeds its cap; below the cap the answer is exactly whether the fingerprint was seen within the window; at the cap only the oldest tenth is forgotten |
| ErrorReporter.Dedupe.SeenAll | tcbot/utils/error_reporter.py:216-232 | over every sequence of lookups that stays below the cap, the answer is yes iff an earlier lookup of the fingerprint, answered no, lies at most 30 seconds back |
| UsersCache.IdentityCache.UpsertUser | tcbot/database/users_cache.py:35-73 | the profile after a write: None keeps the stored username and last name; the cached entry goes |
| UsersCache.IdentityCache.UpsertUserIfChanged | tcbot/database/users_cache.py:76-102 | the write is skipped exactly when the cached triple equals the given one |
| UsersCache.IdentityCache.HarvestUserIdentity | tcbot/database/users_cache.py:105-125 | the write is skipped exactly when the cached triple equals the live profile; a written one replaces all three fields, absent ones by empty strings |
| UsersCache.IdentityCache.GetUserMentionData | tcbot/database/users_cache.py:206-223 | the single reader: its answer, and the cache it leaves |
| UsersCache.IdentityCache.GetMentionDataBatch | tcbot/database/users_cache.py:226-284 | from any cache and collection the batch answers exactly the requested users, each as the single reader would, and warms the same entries |
| UsersCache.IdentityCache.GetFirstNamesBatch | tcbot/database/users_cache.py:287-325 | the names alone, each as the single reader would show it; only users not found are cached |
| UsersCache.IdentityCache.RememberIdentity | tcbot/database/users_cache.py:180-195 | a resolved identity is mirrored into the cache, an empty one as the not-found entry |
| UsersCache.StepKeepsCoherence | tcbot/database/users_cache.py:128-168 | every write, read, sync and cache drop keeps each entry in agreement with the stored profile |
| UsersCache.ReadersShowStoredName | tcbot/database/users_cache.py:147-168 | whatever the cache holds, a reader shows the stored first name, or the id where there is none |
| UsersCache.ReadersShowStoredUsername | tcbot/database/users_cache.py:147-168 | a shown username is the stored one, and an uncached user shows exactly that |
| UsersCache.SyncIsRemembered | tcbot/database/users_cache.py:180-195 | after a sync readers show the live profile, and an unnamed user without one by the id alone |
| UsersCache.CacheAfterReads | tcbot/database/users_cache.py:226-325 | which entries batch reads and drops leave |
| UsersCache.SkipIsHarmlessIffNamed | tcbot/database/users_cache.py:91-102 | a skipped write would have changed nothing iff the stored first name is not empty |
| UsersCache.SkippingRefinesWriting | tcbot/database/users_cache.py:76-102 | over every serial run with non-empty first names, skipping leaves the same profiles, and shows the same name for every user, as always writing |
| UsersCache.EmptyNameExample | tcbot/database/users_cache.py:158-162 | a concrete run with an empty first name where the skipped write would have stored another name |
| Syncing.TakePairsIsPrefix | tcbot/modules/syncing.py:121 | the k-th pair taken is user k div n with chat k mod n, n the number of chats |
| Syncing.TruncatedIffOverCap | tcbot/modules/syncing.py:112-122 | all pairs are taken or as many as the cap allows, and truncation is flagged iff the product exceeds what was taken |
| Syncing.Summarize | tcbot/modules/syncing.py:203-236 | each count is the number of pairs with such outcomes, together they are `checked`, and the failed titles are the first five in pair order |
| Syncing.LastGroupNames | tcbot/modules/syncing.py:253-262 | a failed pair is named by the title of the last group with that chat id, or by the numeral of the id where the title is empty |
| Syncing.ChatsInOrder | tcbot/modules/syncing.py:252 | the chats of a sweep come group by group, in the order of the groups |
| Syncing.OneChat | tcbot/modules/syncing.py:252 | each group gives its chat id, and none if that is missing or zero |
| Syncing.RunBanSync | tcbot/modules/syncing.py:242-274 | a sweep reports truncation iff 0 < cap < product: a cap that admits no pair is not reported |
| Syncing.OutcomesTellStatus | tcbot/modules/syncing.py:138-200 | in every interleaving each outcome tells the status its pair had and has: the sweep changes the pairs it reports as enforced and no others, a pair is an error iff a call broke, and an absent pair that was not gone was refused |
| Syncing.RepeatedSweepEnforcesNothing | tcbot/modules/syncing.py:138-200 | when Telegram refuses only pairs with nothing to do, an error-free sweep repeated on what it left enforces nothing, in every interleaving and in both directions |
| Syncing.NothingEnforcedIffSettled | tcbot/modules/syncing.py:138-171 | no sweep can enforce anything iff no pair is in a state that makes the sweep write |
| Syncing.NothingLeftIffHonest | tcbot/modules/syncing.py:138-200 | for distinct pairs and an error-free sweep, no second one can enforce anything iff Telegram refused only pairs with nothing to do |
| Syncing.RefusedMemberExample | tcbot/modules/syncing.py:164-168 | a present member whose ban is refused counts as absent, so an error-free sweep can leave work to do |

## Left out

- Cancellation of tasks: schedules of `fan_out` and of the Redis chain contain none (the breaker's own handling of a cancelled call is modelled).
- RedisChain: one prefix and one event loop, all clients on; what earlier runs left in Redis is arbitrary, but keys that expire during the run and writes of other processes during it are not modelled; a value that cannot be encoded enqueues nothing and leaves the older Redis value.
- RedisChain.TwoLevelCache: several cache objects with one prefix share the tail and Redis; here they are one object.
- `get_or_fetch` locks, which are dropped on `invalidate` and so do not order reads against it, negative results and the memory layer's TTL and LRU eviction; eviction appears only as an arbitrary drop.
- RateLimiters.LocalLimiter.Check: the rounding of the answer is on exact numbers, so ties of binary floats are not captured; the decision does not depend on it.
- RateLimiters.AsyncLimiter.Send: for max_calls >= 1 and one clock for both sides (the bucket's `monotonic` and the script's `time` differ in the source); a script that runs does so at the instant it was sent, so scripts run in the order of their instants. The bucket and the script are modelled for any max_calls.
- The script's sorted-set members are distinct; two calls in one nanosecond would share one.
- Templates.Render: the catalogue lookup, the locale fallback and the reload before it; `_canonical_locale` and `resolve_locale`.
- RenderedTemplates.EscapedReadsAsPlain: for strings, booleans, integers that are not negative and Safe fragments that read back; that merging changes what is shown is stated for fragments that do not begin with an underline. Floats are not modelled.
- Formatter: `pre`, `safe_username`, and in the reader empty code spans, blocks, spoilers, strikethrough, quotes, brackets not followed by a parenthesis (which Telegram takes as text) and nesting other than of italics and underlines; it refuses them. So messages in which the bot sends a `pre` block, and `Safe` fragments that use any of these, are outside the results about renderings.
- MongoJson.RoundTrip: string keys only and lists only, as json turns other keys into strings and tuples into lists; leaves of any other type are written as their text, which is why they do not come back.
- `federation_warn_count`, `user_warn_groups`, `get_warns` and the other readers of warns: sums and listings over the modelled collections.
- WarnLedger.MigrationCarriesOver: only into a chat without records; the unique-index conflict of the other case is not modelled.
- Appeals: message texts, the appeal tag and the log-message reference check, log-channel copies, and who may tap; a review without a timestamp, from before timestamps were stored; the user's other bans being created meanwhile.
- AppealOutcomes.ApprovalCompletes: the chats are any list; that they are the fetched groups and the two primary ones, and that an unban call may fail or be skipped by the circuit, is not part of it.
- Appeals.AbortedApprovalIsInvisible: two decisions that both pass the guards are in the interleavings, but that both then act is not excluded, as the code does not exclude it.
- ErrorReporter: scrubbing, classification, fingerprinting and report text; the bot and chat are set.
- UsersCache.SkippingRefinesWriting: Redis off, no failed write, operations one after the other; `last_updated` and `commit_date` are not part of a profile here.
- UsersCache: the resolver that calls `remember_identity` appears only as the step that writes and remembers, or remembers a user without a name.
- Syncing: the probe timeout and the string matching of benign refusals are one answer kind each; `verify_user` is the sweep of one user in either direction; the outcomes of a sweep come from `fan_out`.
- `count_errors`, `count_transient_errors` and `throw_if_cancelled`: folds over results.
