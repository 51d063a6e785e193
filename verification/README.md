# DeadHorse: a verified model

DeadHorse is a rate limiter. A server keeps one timestamp per key and checks requests against it
with the generic cell rate algorithm; clients pipeline their calls to it over the line protocol
DHP/1. This project models both ends and the wire between them, and proves what the documentation
promises of them. `dafny verify dfyconfig.toml` checks everything.

The modules, from the arithmetic outwards:

- `Types`: requests, responses, their defaults, and Go's `int64` as a subset of the integers.
- `Gcra`: one admission check, once as the 64-bit code runs it and once over unbounded integers.
  `LeakyBucket`: what the check guarantees over time, ending in the simulation of an ideal rational
  leaky bucket. `Retries`: what the waits a call reports are worth when it is sent again.
- `Group`: what one `Throttle` call means, as functions. `KeyStore` (buckets, stripes, store),
  `Ordering` and `Throttling` are the objects and loops that carry it out, proved against those
  functions.
- `Generations`: whole runs of calls and rotations on the two-generation store, against a map that
  never drops a key.
- `Rates`: the checks that a run of calls makes on a key, and with them the rate that the rotating
  store keeps.
- `Locking`: concurrent calls as lock-by-lock steps, with rotations dropping keys in between.
  `Serializability` adds the data and proves every interleaving equal to a run of atomic calls.
  `Dropping` puts concurrent calls and dropped keys together, `Rotations` concurrent calls and the
  two generations that decide which keys are dropped.
- `Breaker`, `Pipeline`, `Connection`, `ShardConn`: the client's circuit breaker, one pipelined
  connection generation, a shard connection over its whole life, and one call on it.
- `Text`, `Codec`, `Grammar`, `Positions`, `Lines`, `TextServer`, `Wire`: the protocol. `Codec` holds
  both ends' printers and parsers, `Grammar` proves them against the text of the reference, character
  by character, `Lines` turns text into bytes and reads bounded lines, `TextServer` runs
  a line on the throttler, and `Wire` puts a whole network call together and compares it with an
  embedded one. `EndToEnd` does the same for a client's whole call, key checks and breaker included.

Three ways of modelling are used. Methods that change objects are proved against specification
functions (`Throttling`, `KeyStore`, `Breaker`, `ShardConn`, `TextServer`). Concurrent protocols are
state machines whose steps are the shared accesses of the code (`Locking`, `Serializability`,
`Pipeline`, `Connection`); a run is any sequence of enabled steps. Everything else is functions. The
clock is a parameter of each call, and so are the ends of network operations.

Where the code and its own description differ, the code is modelled and the difference is a lemma:

- A positive `RetryAfter` is not always a promise: rounding can make a cost within the capacity
  unsatisfiable (`LeakyBucket.RoundedOutOfReach`). `LeakyBucket.RetryAfterExact` says exactly when
  waiting helps, and `Retries.GroupRetry` does for a whole call. With two Real entries on one key the
  second one's wait promises nothing (`Retries.RepeatedKeyKeepsWaiting`).
- The reported headroom is the one a peek would report, except for a cost too large to represent
  (`LeakyBucket.HeadroomAsAtPeek`, with an input in `LeakyBucket.HugeCostHidesHeadroom`).
- "Wire order and queue order never diverge" (client/conn.go:68-70) stops being true at a failed
  write, in two ways. `submit` releases `mu` before `abort` takes it again, and a call that slips in
  between can be given the response to the next one (`Pipeline.AnswerOfAnother`). And the abort's drain
  can take a call away from the reader that already holds its response, which then goes to the next
  call (`Pipeline.DrainRacesReader`). Only where the keys differ does `decodeResult` notice.
  `Pipeline.OwnAnswer` says of every response whether it belongs to its call: exactly if the call's
  request was written, no failed write left part of a request on the line before it and, of the calls
  enqueued before it, as many were written as the reader took.
- A broken shard is to be failed fast "until a periodic trial call finds it healthy again"
  (client/client.go:45-50). A trial that its own caller ends records nothing (client/conn.go:171-177),
  and no further trial is let through: the shard stays cut off for good unless another call let
  through before is still in flight (`Breaker.StuckForEver`, reached in `Breaker.TrialCanBeLost`).
- An open breaker is to refuse calls until a cooldown "since the breaker last tripped (or was last
  reopened)" has passed (client/breaker.go:35-37). A call let through before that fails afterwards
  starts the cooldown again (client/breaker.go:114-117): it runs from the last failure recorded, whoever
  recorded it (`Breaker.OpenSinceLastFailure`).
- A call through the client is not always the call on an embedded throttler. A bad key is refused by
  the client, a negative capacity or period rejected by the server, and a request line over the
  server's bound not served at all, where the embedded throttler evaluates or throttles the entry and,
  if it is throttled, holds back the rest of its group. `EndToEnd.ClientIsEmbedded` says for every
  batch exactly when the two return the same, `EndToEnd.ClientStoresAsEmbedded` exactly when they keep
  the same timestamps; `Wire.NetworkIsEmbedded` and `Wire.NetworkStoresAsEmbedded` say it for a request
  with valid keys on its own.
- The all-or-none transaction holds its locks "for the whole evaluation" (server/throttling.go:112-117),
  but on bucket objects. A call that is overtaken by two rotations between its lookup and its lock
  evaluates an object the store no longer has, and a second call can be admitted beside it
  (`Rotations.BucketLost`). `Rotations.RotatingIsSerializable` gives the condition that rules this out.

## Model

| member | source | states |
|---|---|---|
| Types.Wrap64 | server/gcra.go:86-88 | two's-complement wrap-around: the identity in range, congruent modulo 2^64 always |
| Gcra.Ceil | server/gcra.go:169-190 | the quotient rounded up: enough, and less than one divisor too much |
| Gcra.CeilIsLeast | server/gcra.go:169-190 | rounding up gives the least integer that is enough |
| Gcra.FloorIsGreatest | server/gcra.go:148-167 | rounding down gives the greatest integer that fits |
| Gcra.Div64 | server/gcra.go:162 | the 128-by-64-bit division: its quotient fits 64 bits exactly because the high word is below the divisor |
| Gcra.MulNonNeg | server/gcra.go:127-137 | succeeds exactly when the product fits int64, with that product |
| Gcra.AddNonNeg | server/gcra.go:139-146 | succeeds exactly when the sum fits int64, with that sum |
| Gcra.CeilDiv | server/gcra.go:113-125 | the true rounded-up quotient, with no intermediate overflow; 0 for a non-positive dividend |
| Gcra.MulDivFloor | server/gcra.go:148-167 | succeeds exactly when the operands are in range and the true floor of a*b/c fits int64, with that floor |
| Gcra.MulDivCeil | server/gcra.go:169-190 | succeeds exactly when the operands are in range and the true ceiling of a*b/c fits int64, with that ceiling |
| Gcra.GcraCheck | server/gcra.go:31-111 | the 64-bit check: a throttled request leaves the timestamp alone, and only a throttled one whose limit makes sense and whose cost is within the capacity is given a wait |
| Gcra.CheckMeetsSpec | server/gcra.go:31-111 | for every input since the epoch the 64-bit check throttles, reports and updates exactly as the specification over unbounded integers |
| Gcra.DebtOverflowThrottles | server/gcra.go:77-88 | a debt that int64 cannot hold is always throttled, with headroom exactly 0 and no update |
| Gcra.AdmittedFits | server/gcra.go:72-110 | an admitted cost never exceeds the headroom reported with it |
| LeakyBucket.VerdictInFull | server/gcra.go:38-110 | the whole verdict from three roundings and nothing else: refused with nothing reported if an amount does not fit, then the headroom, then over capacity or unrepresentable, then no room with the exact wait, then admitted |
| LeakyBucket.SenselessIsThrottled | server/gcra.go:31-37 | a negative capacity or cost, or units or a period that are not positive, is throttled with no headroom and no wait |
| LeakyBucket.WaitReported | types.go:74-78 | a wait is reported exactly to a request within the capacity that lacks room now, all amounts being representable; never to a cost over the capacity |
| LeakyBucket.RetryAfterExact | server/gcra.go:102-110 | a throttled request on an unchanged bucket is admitted at a later instant if and only if the reported wait is positive and over, its rounded cost fits the rounded bucket and the new timestamp is representable |
| LeakyBucket.RetryAfterIsEarliest | server/gcra.go:102-110 | if the cost can fit at all, the request is admitted at the reported instant and at none before it |
| LeakyBucket.RoundedOutOfReach | server/gcra.go:56-60 | capacity 1, cost 1, three units per nanosecond: headroom 1 and a wait are reported, and no later instant admits |
| LeakyBucket.AdmissionUsesHeadroom | server/gcra.go:72-110 | checking again right after an admission reports at least the cost less, exactly the cost less at one unit per period |
| LeakyBucket.HeadroomAsAtPeek | README.md:152-155 | the headroom equals what a peek with another cost reports, if and only if the cost is representable or the peek reports 0 |
| LeakyBucket.HugeCostHidesHeadroom | README.md:152-155 | an input for which an empty bucket reports 0 and a peek reports the whole capacity |
| Retries.RetriedCall | types.go:74-78 | a call throttled somewhere changes nothing; sent again later, one Real entry per key, it is admitted whole if and only if every throttled entry's wait was given and is over, its rounded cost fits its rounded bucket, and the new timestamps are representable |
| Retries.GroupRetry | types.go:74-78 | such a call is admitted at no instant before the longest wait it was given is over, and at that instant under exactly those conditions |
| Retries.LoneRetry | types.go:74-78 | a lone Real entry whose cost can fit commits at the instant its wait names, by exactly its cost, and at none before |
| Retries.RepeatedKeyKeepsWaiting | server/throttling.go:140-146 | two Real entries on one key: the second is given a wait, and no later instant admits the call |
| LeakyBucket.UnitRateAdmitsHeadroom | server/gcra.go:72-110 | at one unit per period a representable request is admitted exactly when its cost is within the headroom |
| LeakyBucket.TimestampGrows | server/gcra.go:61-110 | every applied check moves the key's timestamp, and the last one stays within the last limit's bucket |
| LeakyBucket.RateBound | server/gcra.go:61-110 | in any history of checks on one key, from the first applied to the last, the added debts sum to at most the last bucket plus the time between, with limits mixed and the clock free to go back |
| LeakyBucket.RateBoundInUnits | server/gcra.go:61-110 | with one limit, the applied cost times period is at most capacity times period plus units times the time between |
| LeakyBucket.TracksLater | server/gcra.go:61-63 | waiting keeps the machine's debt and the ideal bucket's level in step |
| LeakyBucket.TracksAdmission | server/gcra.go:49-110 | admitting keeps them in step within units - 1 per admission, and the ideal bucket has room for all that the machine admits |
| LeakyBucket.TurnedAwayNearFull | server/gcra.go:107-109 | a request turned away for lack of room would have left the ideal bucket within the accumulated rounding of full |
| LeakyBucket.UnitRateAgrees | server/gcra.go:42-48 | at one unit per period the levels are equal and the decisions the same |
| LeakyBucket.SimulatesIdealBucket | server/gcra.go:49-110 | two-sided simulation of an ideal rational leaky bucket over any run with one limit and a clock that does not go back |
| Group.ReportsInFull | server/throttling.go:80-88 | field by field what each entry reports: whether the unbounded check admits it, its headroom and its wait, on the committed timestamp for a peek and the working one for a Real entry, with cost and units 1 unless positive |
| Group.WorkInFull | server/throttling.go:147-161 | the working timestamps, entry by entry: a Real entry with room moves its own key's by its cost, nothing else moves |
| Group.CommitFrame | server/throttling.go:171-175 | a call changes no timestamp but its Real entries' |
| Group.GroupIsOneByOne | server/throttling.go:90-117 | each Real entry reports what it would as a call of its own after those before it; the call leaves what those calls would if none was throttled, else nothing |
| Group.OrderAcrossKeysIsIrrelevant | server/throttling.go:140-175 | reordering a call without reordering any one key's Real entries changes no report and no final timestamp |
| Group.LocalCall | server/throttling.go:118-125 | what a call reports and commits depends only on the timestamps of the keys it names |
| Generations.LiveByAge | server/store.go:43-69 | a key is hot until its stripe's first rotation after its last use, cold until the second, then gone; never in both |
| Generations.AlikeCall | server/gcra.go:61-63 | stores that differ only in timestamps already past give the same reports and stay so |
| Generations.StaysCovered | server/store.go:121-141 | every dropped key is past its debt and every cold one will be before it can be dropped |
| Generations.GcIsInvisible | README.md:118-121 | if one stripe's rotations are at least a gap apart, no committed burst window exceeds the gap and the clock never goes back, every call of every run reports as on a store that never drops a key |
| Rates.RunIsHistory | server/throttling.go:140-175 | the checks that any stretch of a run of calls makes on a key, all of a group applied or none, form a history from the key's timestamp at its start to the one at its end |
| Rates.RunRateBound | server/throttling.go:140-175 | over any stretch of a run of calls, what is committed on a key adds at most one burst window plus the time from first commit to last, with limits mixed and the clock free to go back |
| Rates.RunRateBoundInUnits | server/throttling.go:140-175 | with one limit in those commits, the cost committed is at most the capacity plus what drains |
| Rates.SameCommits | README.md:118-121 | with rotations spaced by the longest burst window the rotating store commits exactly the calls a store that drops nothing would |
| Rates.CostWithinRate | README.md:38-44 | on the rotating store, the cost committed on a key over any stretch of a run is at most the capacity plus what drains from its first commit to its last |
| Generations.CloseRotationsForget | README.md:118-121 | two rotations too close together admit a request that should have been turned away |
| KeyStore.BucketState.Lock | server/store.go:25-28 | takes a free bucket's lock and changes nothing else |
| KeyStore.Stripe.GetOrCreate | server/store.go:47-62 | the key is hot afterwards, with its old bucket if it was live and a fresh empty one if not; every other key stays where it was |
| KeyStore.Stripe.Rotate | server/store.go:64-69 | hot turns cold, cold is dropped, and a new epoch begins |
| KeyStore.Stripe.LiveIffRecent | server/store.go:43-69 | a key is live exactly when it was looked up in this epoch or the last, and never in both generations |
| KeyStore.Stripe.Size | server/store.go:71-75 | the number of the stripe's live keys |
| KeyStore.Store.constructor | server/store.go:95-113 | an empty store with the default number of stripes for a non-positive argument |
| KeyStore.Store.Lookup | server/store.go:157-159 | one key's lookup through its stripe: the key is live and hot, every other key keeps its bucket and generation, and no two keys share a bucket |
| KeyStore.Store.RotateStripe | server/store.go:64-69 | exactly the hot keys of one stripe and all keys of the others stay, with their buckets |
| KeyStore.Store.KeyCountEstimate | server/store.go:161-167 | the stripe sizes add up to the number of live keys |
| Ordering.SortKeys | server/throttling.go:127-131 | the group's keys in strictly increasing order, each once |
| Ordering.LessAtDifference | server/throttling.go:131 | the order is decided at the first character that differs, or by length if there is none |
| Throttling.Evaluate | server/throttling.go:147-169 | the evaluation loop fills every Real slot with its report, leaves the others, knows whether all admitted and ends with the working timestamps |
| Throttling.LockAll | server/throttling.go:132-134 | every bucket of the group is locked, none twice |
| Throttling.UnlockAll | server/throttling.go:135-139 | every bucket of the group is unlocked again |
| Throttling.WriteBack | server/throttling.go:171-175 | every bucket of the group holds its working timestamp |
| Throttling.EvaluateLocked | server/throttling.go:127-175 | lock, read, evaluate, commit or not, unlock: reports and final timestamps are those of Group, and every lock is free again |
| Throttling.InMemoryThrottler.LookupAll | server/throttling.go:119-125 | every distinct key of the group is live and hot, and its own bucket is found |
| Throttling.InMemoryThrottler.EvaluateRealGroup | server/throttling.go:118-176 | the Real entries as one transaction on the store |
| Throttling.InMemoryThrottler.CheckPeek | server/throttling.go:80-88 | a peek is reported, field by field, on the committed timestamp and commits nothing |
| Throttling.InMemoryThrottler.CheckPeeks | server/throttling.go:68-89 | the first pass answers every peek on its own and leaves Real slots with their key only |
| Throttling.InMemoryThrottler.Throttle | server/throttling.go:52-95 | one call: if its context is done every entry is refused as throttled and nothing changes; otherwise each entry's throttled, remaining and retryAfter are those of the unbounded check on its timestamp, every key named is hot, and the store is left as the specification says |
| Throttling.InMemoryThrottler.GcTick | server/store.go:129-133 | one tick: what was hot is cold, what was cold is gone, nothing is hot |
| Locking.InvStep | server/throttling.go:119-139 | every lookup, lock, read, write, unlock and drop keeps the lock bookkeeping: a locked bucket is held by the call that locked it and found it for that key |
| Locking.WaitsForLaterKey | server/throttling.go:106-112 | whoever holds an awaited lock, if it waits itself, waits for a later key, whichever bucket object of it |
| Locking.WaitChainIncreases | server/throttling.go:106-112 | along any chain of waits the awaited keys strictly increase, so no call waits for itself |
| Locking.DeadlockFree | server/throttling.go:106-112 | after any run, drops included, while a call is unfinished some call can take a step |
| Locking.StepsRunOut | server/throttling.go:118-176 | every step of a call decreases a bound on the steps it has left |
| Serializability.LockPointAgrees | server/throttling.go:112-115 | when a call takes its last lock its buckets hold the atomic machine's timestamps for all its keys |
| Serializability.DecidesAsSnapshot | server/throttling.go:140-169 | deciding on the copies read one by one is deciding on the timestamps held at the last lock |
| Serializability.SimulatesStep | server/throttling.go:118-176 | the machine of atomic calls follows every step of every interleaving |
| Serializability.Serializable | server/throttling.go:112-115 | every interleaving without a mid-call drop is a run of atomic calls, each at its lock point with its own clock reading, that gives every finished call the result it got and every key no call holds the timestamp it has |
| Rotations.RecentIsLive | server/store.go:43-69 | until its stripe has rotated twice since a lookup of it, a key is in one of the two generations |
| Rotations.ShortCallsAreClean | server/store.go:64-69 | if no call is still running at the second rotation of a stripe after its lookup there, no drop ever hits a running call |
| Rotations.RotatingIsSerializable | server/throttling.go:118-176 | then every interleaving of calls and rotations gives every finished call the result atomic calls would |
| Rotations.BucketLost | server/throttling.go:119-134 | a run with two rotations between a call's lookup and its lock, after which two calls on one key are both admitted where there is room for one |
| Dropping.DropsAreInvisible | server/store.go:47-69 | if every call that names a dropped key read its clock no earlier than the dropped timestamp, every call reports as on a store that never drops a key, in whatever order clock readings and calls come |
| Dropping.SpacedIsTimely | README.md:118-121 | that holds if calls that name a key around a drop of it read their clocks at least the longest burst window apart |
| Dropping.ConcurrentDropsAreInvisible | server/throttling.go:118-176 | then every interleaving of concurrent calls and drops, none of them mid-call, gives every finished call the result it would get from atomic calls on a store that never drops a key |
| Breaker.CircuitBreaker.Allow | client/breaker.go:74-86 | moves the documented state and grants exactly when closed, or open past the cooldown with no trial out |
| Breaker.CircuitBreaker.RecordSuccess | client/breaker.go:91-96 | closes the breaker, whatever its state |
| Breaker.CircuitBreaker.RecordFailure | client/breaker.go:105-118 | counts a failure, opens at the threshold, and restarts the cooldown while a trial is out; keeps open iff consecutiveFailures >= threshold, and trialInFlight only while open |
| Breaker.NoGrantDuringCooldown | client/breaker.go:35-37 | no call is let through inside a cooldown |
| Breaker.TrialBlocks | client/breaker.go:38-42 | once a trial is out nothing is let through as long as no outcome is recorded |
| Breaker.StuckForEver | client/conn.go:171-177 | with a trial out, every call is refused for ever, whatever happens, if and only if no call that was let through is still in flight |
| Breaker.TrialCanBeLost | client/conn.go:171-177 | for any settings a fresh breaker can be brought to a lost trial with nothing in flight, from where every call is refused for ever |
| Breaker.OneTrialAtATime | client/breaker.go:38-42 | between two grants while open some outcome was recorded |
| Breaker.TrialDecides | client/breaker.go:43-45 | the first request past the cooldown is the trial, and its recorded outcome closes the breaker or restarts the cooldown |
| Breaker.ClosedBelowThreshold | client/breaker.go:32-34 | from fresh, it is closed exactly while fewer than threshold failures follow the last success |
| Breaker.OpenSinceLastFailure | client/breaker.go:105-118 | from fresh, with threshold failures since the last success, the cooldown runs from the last failure, and the breaker is half-open exactly if a call has been asked for since it was over |
| Breaker.LetThroughExactly | client/breaker.go:74-86 | from fresh, after any history: a call is let through exactly if fewer than threshold failures follow the last success, or it is the first to come a cooldown or more after the last failure |
| Pipeline.StepConserves | client/conn.go:100-123 | no step makes or loses a semaphore token |
| Pipeline.NothingBlocks | client/conn.go:100-123 | in every reachable state free, held and queued tokens add up to 256, so release, enqueue and result sends always find room |
| Pipeline.NothingPendingUnreachable | client/conn.go:379-385 | until a drain step a reader with a line finds its call at the head of the queue |
| Pipeline.FifoUntilDrain | client/conn.go:364-396 | line k goes to the k-th enqueued call if taken before the first drain step |
| Pipeline.OwnAnswer | client/conn.go:246-295 | for every response: it answers a line that is its call's own request and nothing else if and only if that request was written, no failed write left part of a request before it, and of the calls enqueued before it as many were written as were taken by the reader |
| Pipeline.OwnAnswerUntilFailure | client/conn.go:246-295 | a response matched before any drain step answers its call's own request exactly if that was written before any failed write, and one to a request written before any failed write exactly if it was matched before any drain step |
| Pipeline.AnswerOfAnother | client/conn.go:284-296 | a reachable state in which one call has been given the response to the next, because a failed write releases mu before its abort clears the connection |
| Pipeline.DrainRacesReader | client/conn.go:379-425 | a reachable state in which a call written before any failure has been given the response to the call before it, because a drain took that call while the reader held its line |
| Pipeline.StepDelivered | client/conn.go:370-425 | a dequeued call is in one agent's hands or has its one result, never both |
| Pipeline.NoCallLost | client/conn.go:380-425 | once the queue is empty and nobody has a call in hand, exactly the enqueued calls have results |
| Pipeline.SomeoneCanAct | client/conn.go:370-425 | while an enqueued call has no result, the reader, an abort or the writer holding mu can take a step |
| Pipeline.BadLineEndsConnection | client/conn.go:388-393 | a response that did not decode was the last line ever read; the reader takes the connection down, and once done it is not current, its socket is closed and no call waits on it |
| Pipeline.GoodLinesKeepConnection | client/conn.go:370-396 | as long as reads succeed, lines decode and nobody drains, the reader never gives the connection up |
| Pipeline.RetiredForGood | client/conn.go:271-282 | nothing is enqueued on a generation that is no longer current |
| Pipeline.DrainedForGood | client/conn.go:403-425 | once one abort has drained, the queue is empty and stays so |
| Connection.GenerationRuns | client/conn.go:306-362 | every generation of a connection goes through a run of its own pipeline, whatever else happens |
| Connection.Lifecycle | client/conn.go:306-362 | at most one dial in flight, and only while nothing is installed; conn is the one current generation, none once closed; every dialed connection is installed, discarded or about to be; every open socket is the installed one or about to be closed |
| Connection.ClosedForGood | client/conn.go:427-438 | after close nothing is ever installed again, dials in flight included |
| Connection.AnsweredOnce | client/conn.go:254-296 | a call is enqueued on one generation at most, however often it retries |
| ShardConn.ShardConn.Throttle | client/conn.go:144-185 | bad keys are refused on their own; the valid entries are sent exactly if the breaker lets the call through, and get the shard's answers in their own places or one shared refusal, open or closed as the caller chose; the breaker goes through the question, whatever other calls do meanwhile, and the outcome, or nothing if the caller ended the call |
| ShardConn.ShardConn.Admit | client/conn.go:145-169 | bad keys are refused and left out, and the breaker is asked exactly if anything is left to send |
| ShardConn.ShardConn.Complete | client/conn.go:171-184 | the breaker hears how the exchange ended, and every entry sent gets its own answer or the one refusal |
| ShardConn.AllValid | client/conn.go:150-158 | with only valid keys every answer is already in its place |
| Positions.OwnPosition | server/textserver.go:304-316 | a filtered entry's recorded position is the place it came from |
| Positions.SamePlace | client/conn.go:272-295 | two selections of one list agree on an element exactly if it is in both with as many chosen before it |
| Positions.Scatter | client/conn.go:228-231 | every value goes back to the place its entry came from, the other places keep theirs |
| Text.FieldsOfSpaced | server/textserver.go:301 | words written with one space before each are read back as the same words |
| Text.FieldsKeepLetters | server/textserver.go:301 | splitting any text into words drops the spaces and nothing else |
| Text.TrimKeepsFields | client/conn.go:505-506 | trimming the line end changes no field |
| Text.SplitOfJoined | server/textserver.go:374 | parts without a bar, joined with bars, are split into the same parts |
| Text.JoinedOfSplit | server/textserver.go:374 | any text split at its bars and joined with bars is that text again |
| Text.PartsOfSplit | server/textserver.go:374 | no part has a bar, nor a space unless the text has one |
| Text.IntRoundTrip | client/conn.go:496-502 | every int64 survives printing and parsing |
| Text.IntFitsBuffer | client/conn.go:499-502 | every int64 prints into the 20-byte buffer |
| Grammar.SpaceCharacters | internal/dhp1/dhp1.go:29-31 | the spaces are the 25 characters of Unicode's White_Space |
| Grammar.ValidKeyIsOneWord | client/conn.go:440-449 | a key is valid if and only if it is one word of a line and one part of an entry |
| Grammar.DecimalText | client/conn.go:496-502 | integers are written in decimal, most significant digit first |
| Grammar.IntIsParsed | server/textserver.go:382-385 | a sign or none, any zeros and decimal digits are read as that integer if it fits 64 bits, else refused |
| Grammar.ParsedIsInt | server/textserver.go:382-385 | nothing else is read as an integer |
| Grammar.EntryIsParsed | server/textserver.go:373-408 | from the literal text of six parts the server reads exactly that entry, a peek for P and Real for R, if no number is negative; any other last part is refused |
| Grammar.RequestIsPrinted | client/conn.go:461-494 | a request line is THROTTLE and then, for each entry, a space and the entry |
| Grammar.ResultIsPrinted | server/textserver.go:410-423 | the literal text of a printed result: key, 1 or 0 for throttled, headroom, wait; ERR for an error |
| Grammar.ResultIsParsed | client/conn.go:512-545 | from that literal text the client reads exactly that result, if the key is the entry's and the headroom not negative; ERR is a rejection, as throttled |
| Grammar.ResponseIsPrinted | server/textserver.go:349-352 | a response line is RESULT and then, for each result, a space and the result |
| Grammar.ResponseIsParsed | client/conn.go:504-548 | a response line is accepted if and only if its first word is RESULT and each further word reads as a result for the entry at its place |
| Codec.EntryIsPrinted | client/conn.go:473-491 | the literal text of a printed entry: six parts, 1 for units and cost that are not positive, P for a peek and R for a Real entry |
| Codec.EncodeThrottle | client/conn.go:461-494 | the loop writes exactly the command and, for each entry, a space and the entry's literal text |
| Codec.EntryRoundTrip | server/textserver.go:373-408 | the server reads an entry with a valid key back as the same entry with its defaults, if and only if its capacity and period are not negative; else it rejects it |
| Codec.AcceptedIsGenuine | server/textserver.go:373-408 | whatever word the server accepts has a key the client would accept and nothing negative, and printed and parsed again is the same entry with its defaults |
| Codec.CommandIsFirstField | server/textserver.go:257-267 | for any line the command is its first word and the rest holds exactly the others |
| Codec.DecodeResult | client/conn.go:504-548 | the loop returns one result per entry, or nothing at the first malformed token |
| Codec.DecodedMatches | client/conn.go:528-536 | a line decodes exactly if each of its tokens does for the entry at its place, and then every result bears that entry's key |
| Codec.ResultRoundTrip | server/textserver.go:410-423 | the client reads a printed report back unchanged, and an errored one as a rejection |
| Codec.RequestRoundTrip | server/textserver.go:257-267 | the client's line is split into the command and exactly the encoded entries, of which the carried ones parse |
| Codec.AnswersAreWords | server/textserver.go:318-352 | whatever words a request line has, each is answered by a word |
| Codec.ResponseRoundTrip | client/conn.go:504-548 | the server's response line never fails to decode, and gives each entry its report or its rejection in place |
| Lines.ReadLine | server/textserver.go:196-218 | the line up to the newline if it fits the bound, whatever fragments it came in, reading no further once the bound is passed |
| Lines.WholeLine | server/textserver.go:205-217 | a line sent with its newline is read back whole exactly if its bytes fit the bound |
| Lines.ReadInFull | server/textserver.go:196-218 | byte by byte: the newline and one carriage return before it go, the bound counts both, and no newline gives no line |
| Lines.Utf8Form | client/conn.go:461-494 | text goes out in the form of RFC 3629, section 3 |
| Lines.RequestIsOneLine | client/conn.go:461-494 | a request for valid keys is always one line, however its keys are encoded |
| Lines.ResponseIsOneLine | server/textserver.go:349-352 | the server's answer to any request line is one line, whatever words the line has |
| Lines.ReplyIsRead | client/conn.go:370-378 | a reply is read back whole up to its newline, whatever follows it in the stream |
| Lines.DecodeOfUtf8 | server/textserver.go:215 | text sent as bytes is read back as the same text |
| Lines.RequestFits | client/conn.go:451-470 | the space reserved before writing is enough for the whole request in bytes |
| TextServer.ParseTokens | server/textserver.go:304-316 | the entries that parse, in order, with the position each came from |
| TextServer.FillResults | server/textserver.go:318-345 | every report lands at its entry's position, ERR everywhere else |
| TextServer.AnswersPlaced | server/textserver.go:318-345 | placing reports by position is the same as answering the tokens one after the other |
| TextServer.TextServer.HandleThrottle | server/textserver.go:300-353 | one line is one throttler call on its parsed entries, and every token is answered in its place |
| TextServer.TextServer.Dispatch | server/textserver.go:220-298 | only THROTTLE touches the store, only QUIT closes, and STATS counts the live keys |
| TextServer.TextServer.constructor | server/textserver.go:93-102 | a non-positive line bound falls back to the default |
| TextServer.TextServer.HandleLine | server/textserver.go:165-193 | one turn of a connection: an over-long line is answered with an error, ends the connection and never reaches the throttler; a blank one is passed over; any other is dispatched |
| TextServer.BlankHasNoWord | server/textserver.go:178-180 | the lines passed over are those without a word |
| TextServer.RepliesInFull | server/textserver.go:220-298 | what is written back to each command, newline included, by the words of the line |
| Wire.NormalizedCommit | types.go:93-110 | filling in the defaults on one side of the wire and again on the other changes no commit |
| Wire.NetworkIsEmbedded | server/textserver.go:167-172 | for a request with valid keys, what the network returns equals what the embedded call returns if and only if no capacity and no period is negative and the request line fits the server's bound |
| Wire.LongKeyDoesNotFit | server/textserver.go:199-218 | a single entry whose key is as long as the bound does not fit it |
| Wire.NegativeLimitBlocks | server/gcra.go:31-39 | a Real entry with a negative capacity or period keeps an embedded group from committing anything |
| Wire.CarriedGroupsAgree | server/textserver.go:373-408 | if every Real entry is carried, the embedded group and the one sent commit the same timestamps |
| Wire.WorkMoves | server/gcra.go:98-110 | a group that commits moves the timestamp of every key it names in a Real entry forward |
| Wire.NetworkStoresAsEmbedded | server/textserver.go:167-173 | for a request with valid keys, the network call leaves the timestamps the embedded call would if and only if, with its line within the bound, every Real entry is carried or the carried ones are throttled somewhere or all peeks, and with its line too long, the embedded call itself changes nothing |
| Wire.LongKeyIsNotStored | server/textserver.go:167-173 | an input for which they differ: one Real entry, carried and with room, whose key takes the whole line |
| Wire.TornLineNeverDecodes | client/conn.go:504-511 | whatever the server replies to a line that starts with what a failed write left, the call that wrote the rest gets no results out of it |
| Wire.TooLongIsNoResponse | server/textserver.go:168-173 | the server's answer to an over-long line decodes to no results |
| Wire.NetworkCall | server/textserver.go:156-194 | a call for valid keys, printed, sent as bytes cut anywhere, read within the bound, served and parsed: the specified results and store if its line fits, no results and no change if not |
| Wire.TransparentCall | client/conn.go:461-548 | with no negative capacity or period and a line within the bound, a network call returns what the embedded call would, and leaves the store as it would |
| EndToEnd.ClientIsEmbedded | client/conn.go:144-185 | for every batch, the client's results equal the embedded reports if and only if the batch is empty, or the breaker lets it through, its keys are valid, no capacity and no period is negative and its line fits the server's bound |
| EndToEnd.ClientStoresAsEmbedded | client/conn.go:144-185 | for every batch, the call leaves the timestamps the embedded call would if and only if, with its line served, every Real entry is sent, or neither the embedded call nor the entries sent change anything; and with its line not served, the embedded call changes nothing |
| EndToEnd.ClientCall | client/conn.go:144-185 | key checks, breaker, request, server, response and record in one: the specified results, store and breaker for every batch, and every refusal field by field |
| EndToEnd.AnswerInFull | client/conn.go:144-185 | an entry that is served is answered, field by field, as the unbounded check decides on the committed timestamp of its key or, if it is Real, the one the served entries before it leave |
| EndToEnd.RefusalInFull | client/conn.go:144-185 | any other entry is refused under its own key with no headroom and no wait: a bad key and a rejected limit as throttled, an open breaker and a line too long as the caller's policy says |

## Left out

- Sockets, deadlines, buffered I/O, goroutine scheduling and `context` arithmetic: reads, writes and dials are steps that may succeed or fail at any time, and the ends of exchanges are parameters.
- Metrics, `Close` of the server and throttler, and the accept loop: no result depends on them.
- The loop of `handleConn` around its turns (`TextServer.HandleLine`), with its flushes and deadlines: that a connection's lines are answered in order is taken for granted in Pipeline.
- Custom throttlers behind `TextServer`: its branch for a throttler error or a result of the wrong length cannot be reached over `InMemoryThrottler`.
- The FNV hash and `ShardedClient`'s routing: the stripe of a key is any function of the key.
- Invalid UTF-8: text is a sequence of Unicode characters, and `Lines` says how they are bytes on the wire.
- Error texts: every decode failure is one error, and joined errors are counted, not worded.
- Gcra.CheckMeetsSpec: is stated for instants since the epoch, and with it every result on headroom, waits and rates; the code's subtractions can wrap for a clock before it.
- Retries.GroupRetry: is about calls with one Real entry per key and no other call in between; Retries.RepeatedKeyKeepsWaiting shows what the first condition keeps out.
- Serializability: states nothing about a call whose bucket is dropped while it runs; Rotations.BucketLost shows what can happen to one, and the lock results in Locking hold for such runs too.
- Locking: reads and writes back go in key order, where the code ranges over maps in any order; all locks are held meanwhile. One call's peeks are calls of their own there, as each takes and gives back its own lock.
- Breaker: each of its three methods is one atomic step, so interleavings of their single loads and stores are not modelled.
- Breaker.CircuitBreaker.RecordFailure: wraps its counter, but its correspondence to the documented states is stated below 2^63 - 1 failures in a row.
- Breaker.CircuitBreaker.Allow: the time since opening is exact, where `time.Since` saturates after 292 years.
- Throttling: the loops over the list of Real positions are loops over all entries that skip peeks, and result slices are sequences returned at the end, so slot-by-slot aliasing with the caller's slice is not modelled.
- Generations.GcIsInvisible: is about atomic calls whose clock never goes back; Dropping.ConcurrentDropsAreInvisible is the theorem for concurrent calls. There the spacing is a condition on the clock readings of calls around a drop, since rotations and calls share no clock in that model.
- Rotations: drops a key at some point after the rotation that leaves it in neither generation, where the source drops it in that rotation; every run of the source is among these.
- KeyStore.BucketState.Lock: requires a free lock, where the source's mutex waits for one; waiting is what Locking models.
- ShardConn.ShardConn.Throttle: takes how the exchange ended and what other calls did meanwhile as parameters, any of them; EndToEnd.ClientCall composes the call with its exchange, for a connection that carries it and no other call on the breaker meanwhile.
- ShardConn.ShardConn.Complete: takes how the exchange ended as a parameter.
- EndToEnd.ClientCall: does not go through Pipeline; that a response reaches its own call there is Pipeline.OwnAnswer's subject.
- Wire.TornLineNeverDecodes: takes the part that a failed write left to be whole characters.
- Pipeline: a line counts as sent when its last byte is, and a server is assumed to send one response per line, in order; fairness (that an enabled step is eventually taken) is not modelled.
