# Verified model of the API gateway's core logic

A Dafny model of the parts of this API management platform whose correctness depends on
state, time, order or structure, with proofs about them. `dafny verify dfyconfig.toml`
checks everything; no file needs anything from outside this directory.

| part of the system | modules |
|---|---|
| rate limiting (Redis scripts, gateway plugin, policy engine plugin, response headers) | RequestLog, SlidingWindow, FixedWindow, TokenBucket, WindowCascade, WindowReports, RedisScripts, RateLimitHeaders, Traffic |
| counters that refresh their expiry (login limiter, circuit breaker) | ExpiringCounter, LoginLimiter, CircuitBreaker |
| hash-chained audit log | AuditChain, AuditTamper |
| GraphQL depth and complexity limits | QueryLimits, QueryMeasures |
| gateway route table, its synchronization and its cache | RouteEntry, RouteSync, DeltaSync, RouteMatch, RouteKeys, RegistryRows, RouteCache, GatewayRoutes, RouteRuns |
| response cache format | CacheEntry |
| policy compiler and the two executors | Sorting, PolicyChain, PolicyCompiler, Conditions, ExecutorsAgree |
| JSON body operations | JsonOps, JsonMove |
| shared by several of these | Wrappers, Text |

Conventions. Time is one integer clock that never runs backwards, in milliseconds unless a
name says otherwise. Request ids are distinct. A Redis key with an expiry is modelled with
the deadline it carries, and a key past its deadline reads as absent. Tokens are exact
reals. What reads the network, a clock or a random source in the program is a parameter
here. Code that updates state in place is a class or a method; its contract ties it to a
function of the old state, and the lemmas are about that function.

## What the proofs say about the code

The main results hold for every run, every interleaving or every input:

* the sliding window admits exactly what a complete log of admissions would admit, and
  the key expiry of two windows can never be noticed; the fixed window admits at most
  twice its limit in any interval of one window; the requests that the token bucket admits
  from s to t take at most capacity + rate * (t - s) / 1000 tokens; what a reply says is
  left is exact, and so is the moment from which a denied client can be served again; the
  plugin, called for any requests of any clients, keeps these bounds for each of them and
  puts that truth into its headers;
* any interleaving of appenders, rollbacks included, leaves one unforked audit chain, and
  two logs with the same last hash are equal or exhibit a hash collision;
* the guarded depth and complexity measures terminate on every document and equal the
  plain measures of the inlined query, which exists exactly when no chain of spreads is
  cyclic; the verdict on a document is the one on its inlined operations;
* a circuit breaker's life can be told from its calls alone: every call passes until one
  trips it, every call is refused for the timeout from that one on, and then half_open_max
  calls pass after the first;
* deltas keep the route table equal to a full rebuild exactly when no row is overlooked:
  committed after a read, stamped no later than the second in which the gateway then
  looks at its clock, and making a difference;
* a restart restores the route table exactly under conditions on the entries, on the last
  write of the copy in Redis and on its expiry, and the order of the table decides a match exactly
  when the best match shares its shape with another one;
* parsing a cache entry undoes printing it exactly when the headers are clean;
* running a policy chain is running its four phases in turn; the policy engine and the
  gateway run the same plugins on the same contexts and leave the same one exactly when at
  every context reached they agree on condition, registry and plugin and no plugin fails,
  and where only failures can tell them apart they leave the same context exactly when no
  plugin reached fails;
* setting, deleting and moving a JSON path change exactly the paths they should, on
  mutable trees, and a move carries its value over exactly under a condition that can be
  read off beforehand.

Some things that the code or its documentation suggests are not so. Each has a lemma:

* A circuit breaker that has gone half-open stays half-open: the branch that closes it is
  inside the closed case (`CircuitBreaker.NeverCloses`). One failing response opens a
  fresh breaker unless `error_threshold` exceeds 100, whatever `threshold` above 1 is
  configured (`CircuitBreaker.FirstFailureOpens`). Failures need not be consecutive, and the
  counters do not slide: they count a streak without a pause as long as the window
  (`CircuitBreaker.OpensExactlyWhenTripped`).
* The login limiter sets its expiry again on every attempt, so it does not count attempts
  per minute (`LoginLimiter.NotPerMinute`). It never admits what a per-minute limiter
  refuses, and exactly when the two decide alike is read off the attempts
  (`LoginLimiter.RunsAgreeExactly`); so it is for the fixed window that the comment names
  (`LoginLimiter.FixedRunsAgreeExactly`).
* The policy engine's Retry-After for the token bucket drops the part of a second, so that
  a client that waits as told is denied again, if nobody else comes, unless the wait is at
  most a second or a whole number of them (`RateLimitHeaders.TruncatedRetryExact`,
  `RateLimitHeaders.TruncatedRetryFails`). The gateway's own rounds up.
* For a fixed window both gateways tell a client to wait for what Redis says is left of the
  key's life. That is rounded to seconds, so a client can be early by up to half a second
  (`RateLimitHeaders.FixedRetryExact`, `RateLimitHeaders.FixedRetryFails`), except that the
  gateway says at least one second and so is not early when nothing is left
  (`RateLimitHeaders.GatewayFixedRetryExact`).
* The two executors are not interchangeable. They evaluate conditions on absent headers
  and on claims that are not text differently (`Conditions.EvaluationsAgreeExactly`), know
  different kinds of policies (`ExecutorsAgree.RegistriesDiffer`), treat a failing plugin
  differently (`ExecutorsAgree.FailuresDiffer`), and only the gateway looks at the context
  before the first policy (`ExecutorsAgree.StoppedStartExactly`).
* docs/DEPLOYMENT.md:374 verifies the audit chain by comparing row N with row N - 1. The
  id sequence does not roll back, so on a good chain this succeeds exactly where no
  rolled-back insert used the id in between (`AuditChain.NeighbourCheckExact`,
  `AuditChain.NeighbourCheckCanFail`).
* A delta can miss a change for good (`DeltaSync.LostForGood`). That happens to a route
  changed after the registry's read in a second that has begun when the gateway looks at
  its clock (`DeltaSync.SecondCrossed`), and also, since updated_at is the start of the
  writing transaction, to one written by a transaction that began in an earlier second and
  commits after the read (`DeltaSync.LongTransaction`).
* A delta that removes the last route leaves the old table in Redis, so that a restart
  before the copy expires brings deactivated routes back as active
  (`GatewayRoutes.DeactivatedComesBack`).
* The registry's unique index does not give the gateway one row per key: that is so
  exactly when no two rows agree once normalized (`RegistryRows.OneRowPerKeyExactly`), and
  a prefix with and without a final slash makes two such rows
  (`RegistryRows.SlashCollides`). A delta keeps the last row of a key and a rebuild the
  first active one, so the two can differ (`RouteSync.DeltaIsRebuildExactly`,
  `RouteSync.TwoRowsDiffer`).
* A JSON `move` from a path to a path above it deletes, inside the moved value, what
  stands where the source stood; one to the root, to itself or to a path below it loses
  the value. One from the root deletes nothing and makes the root contain itself
  (`JsonMove.MovePath`).
* A request denied by a later window has still used up the earlier ones
  (`WindowCascade.InvIsFair`).

## Model

| member | source | states |
|---|---|---|
| RedisScripts.Redis.SlidingWindow | gateway/src/pipeline/plugins/rate-limit/lua-scripts.ts:11-32 | the script changes its own key only, and key and reply are those of one step of the sliding window |
| RedisScripts.Redis.FixedWindow | gateway/src/pipeline/plugins/rate-limit/lua-scripts.ts:39-55 | the script changes its own counters only, and counters and reply, remaining life included, are those of one step of the fixed window |
| RedisScripts.Redis.TokenBucket | gateway/src/pipeline/plugins/rate-limit/lua-scripts.ts:63-92 | the script changes its own bucket only, and bucket and reply are those of one step of the token bucket |
| RedisScripts.Redis.CheckWindow | gateway/src/pipeline/plugins/rate-limit/index.ts:111-140 | one check runs the strategy on the key of its own period, leaves the other periods, clients and strategies alone, and what it reports is true of the key it leaves: of the requests that follow at the same moment exactly as many are admitted as are said to remain, after a sliding denial the reported reset time is the exact opening, and a fixed window is said to last as long as its key lives, to half a second |
| RedisScripts.Redis.CheckWindows | gateway/src/pipeline/plugins/rate-limit/index.ts:82-98 | the chain over minute, hour and day leaves the keys and names the denying window as the cascade of the window protocol does, and reports exactly the configured windows up to it; no other client's keys change |
| RedisScripts.Redis.CheckBucket | gateway/src/pipeline/plugins/rate-limit/index.ts:59-73 | the bucket is reported as a minute's window whose remaining requests are the remaining tokens and which resets after the wait; no other client's bucket changes |
| RedisScripts.Redis.RateLimit | gateway/src/pipeline/plugins/rate-limit/index.ts:50-106 | without a limit nothing changes; otherwise the configured strategy decides, every configured window up to the denying one is reported truly, the denying one is the one returned, the headers tell of the reported windows and of the wait, and no other header and no other client's key changes |
| Traffic.ServeAll | gateway/src/pipeline/plugins/rate-limit/index.ts:27-107 | the plugin called for a sequence of requests of any clients decides each client's and leaves its windows as serving its own requests one after another does; of a client that begins without windows no more than rpm requests get past the minute's limit in any 60000 ms, rph past the hour's in any 3600000 ms, rpd past the day's in any 86400000 ms, twice that for fixed windows |
| Traffic.ServeTokens | gateway/src/pipeline/plugins/rate-limit/index.ts:57-79 | with token buckets every client's requests are decided by its own bucket, one token each, and those admitted from s to t are at most capacity + rate * (t - s) / 1000 |
| Traffic.LimitsInNumbers | gateway/src/pipeline/plugins/rate-limit/index.ts:82-98 | the bounds in numbers for one client's requests served one after another from empty keys |
| WindowReports.InfoTold | gateway/src/pipeline/plugins/rate-limit/index.ts:111-140 | the report of a check, built from the reply, is true: remaining requests, opening and life are those of the key after the check |
| RedisScripts.KeysDiffer | gateway/src/pipeline/plugins/rate-limit/index.ts:121-131 | two periods or two clients never share a Redis key |
| SlidingWindow.KeptIsRecent | gateway/src/pipeline/plugins/rate-limit/lua-scripts.ts:17-20 | purging leaves exactly the requests admitted in the last window, whether or not the key had expired |
| SlidingWindow.StepAgreesWithLog | gateway/src/pipeline/plugins/rate-limit/lua-scripts.ts:17-31 | one call admits exactly when fewer than limit admissions lie in the last window, reports their number, and keeps the set a mirror of the recent log |
| SlidingWindow.ExpiryUnobservable | gateway/src/pipeline/plugins/rate-limit/lua-scripts.ts:25 | a key that has reached its expiry of two windows may be dropped or kept with no difference in any reply |
| SlidingWindow.RunRefinesLog | gateway/src/pipeline/plugins/rate-limit/lua-scripts.ts:11-32 | over every run the bounded set decides as the unbounded log does |
| SlidingWindow.RunWithinLimit | policy-engine/internal/plugins/rate_limit.go:23-40 | in every run from an absent key no interval (s, s + window] holds more than limit admissions |
| SlidingWindow.DenialIsFull | policy-engine/internal/plugins/rate_limit.go:36-39 | a denial reports the oldest admission still counted, and the set is full until that one leaves the window |
| SlidingWindow.FullStep | policy-engine/internal/plugins/rate_limit.go:29-40 | while the set is full a request is admitted exactly from that moment on, and a denial changes nothing |
| SlidingWindow.ResetIsExact | policy-engine/internal/plugins/rate_limit.go:211-216 | after a denial every request by anyone before oldest + window is denied and the first one from then on is admitted |
| SlidingWindow.RemainingIsExact | policy-engine/internal/plugins/rate_limit.go:173-179 | of the requests that follow at the same moment exactly the first limit - current are admitted |
| FixedWindow.StepAgreesWithLog | policy-engine/internal/plugins/rate_limit.go:46-55 | a request is admitted exactly when its window has admitted fewer than limit; the key never expires inside its own window |
| FixedWindow.TwoWindows | policy-engine/internal/plugins/rate_limit.go:247-255 | an interval no longer than the window holds at most twice the limit |
| FixedWindow.RunRefinesLog | gateway/src/pipeline/plugins/rate-limit/lua-scripts.ts:39-55 | over every run the counters, expired by the one clock, decide as the log of admissions by window does |
| FixedWindow.RunWithinLimit | policy-engine/internal/plugins/rate_limit.go:237-271 | every run from absent keys admits at most limit requests per window id and twice that in any interval of one window |
| FixedWindow.RemainingIsExact | policy-engine/internal/plugins/rate_limit.go:258-263 | of the requests that follow in the same window, however late, exactly the first limit - current are admitted |
| FixedWindow.SameWindowKey | policy-engine/internal/plugins/rate_limit.go:247-248 | dividing whole seconds gives the window id that the gateway gets by dividing milliseconds |
| FixedWindow.EndIsExact | policy-engine/internal/plugins/rate_limit.go:46-55 | after a denial every request by anyone before the end of the window is denied and the first one from then on is admitted |
| FixedWindow.FirstCallSetsExpiry | gateway/src/pipeline/plugins/rate-limit/lua-scripts.ts:44-47 | in every run the first call of a window gives its key a window's length to live and no later call changes that |
| TokenBucket.StepKeepsInv | gateway/src/pipeline/plugins/rate-limit/lua-scripts.ts:70-91 | the stored balance always lies between 0 and capacity |
| TokenBucket.ExpiryUnobservable | gateway/src/pipeline/plugins/rate-limit/lua-scripts.ts:83 | a bucket lost to its expiry had refilled completely |
| TokenBucket.SplitRefill | gateway/src/pipeline/plugins/rate-limit/lua-scripts.ts:75-77 | refilling in two steps is refilling once, also across an expiry |
| TokenBucket.DenialLeavesNoTrace | gateway/src/pipeline/plugins/rate-limit/lua-scripts.ts:86-90 | after a denied call the bucket looks, at every later time, as if the call had not been made |
| TokenBucket.DeniedCallsDoNotMatter | gateway/src/pipeline/plugins/rate-limit/lua-scripts.ts:70-91 | leaving all denied calls out of a run leaves every admitted call admitted |
| TokenBucket.Burst | gateway/src/pipeline/plugins/rate-limit/lua-scripts.ts:77-91 | of the calls of one moment exactly the first ones are admitted that the balance has tokens for |
| TokenBucket.RemainingIsExact | gateway/src/pipeline/plugins/rate-limit/lua-scripts.ts:80-90 | of the single-token requests that follow at the same moment exactly the first tokens_remaining are admitted |
| TokenBucket.StepKeepsRate | gateway/src/pipeline/plugins/rate-limit/lua-scripts.ts:74-85 | every admission and the present balance stay paid for by capacity and refill |
| TokenBucket.RunWithinRate | gateway/src/pipeline/plugins/rate-limit/lua-scripts.ts:63-92 | in every run the requests admitted from s to t take at most capacity + rate * (t - s) / 1000 tokens |
| TokenBucket.EveryRunWithinRate | gateway/src/pipeline/plugins/rate-limit/lua-scripts.ts:63-92 | the same for every run from an absent key, in the numbers of the configuration |
| TokenBucket.FreshBucketPaid | gateway/src/pipeline/plugins/rate-limit/lua-scripts.ts:71-72 | an absent bucket meets what the rate bound asks of a starting state |
| TokenBucket.DenialOpensAt | gateway/src/pipeline/plugins/rate-limit/lua-scripts.ts:87 | left alone, a bucket that denied admits exactly from now + wait_ms on, and never if it cannot hold the requested tokens |
| TokenBucket.OpeningIsExact | gateway/src/pipeline/plugins/rate-limit/lua-scripts.ts:86-90 | until somebody is admitted, calls before the opening are denied and the first one from then on is admitted |
| WindowCascade.StepKeepsInv | policy-engine/internal/plugins/rate_limit.go:158-190 | each check of each concurrent request keeps every window's key in agreement with the requests it let through |
| WindowCascade.InvIsFair | policy-engine/internal/plugins/rate_limit.go:158-190 | each window keeps its bound, a fixed one also its limit per window id, a later window's requests are among those of every earlier one, served requests are counted by all, and a denied one by all before the denial |
| WindowCascade.EveryInterleaving | policy-engine/internal/plugins/rate_limit.go:158-190 | all of that in every interleaving of any number of requests, each with a fresh id for every window, and with either strategy for each window |
| WindowCascade.CascadeIsARun | gateway/src/pipeline/plugins/rate-limit/index.ts:82-98 | one request's chain of checks, with the id it draws for each window, is a run of the protocol |
| WindowCascade.ServeIsARun | gateway/src/pipeline/plugins/rate-limit/index.ts:82-98 | so are requests served one after another, and each is denied by the window that its own chain of checks names |
| WindowCascade.ServedFairly | gateway/src/pipeline/plugins/rate-limit/index.ts:82-98 | from empty keys they are therefore served fairly |
| WindowCascade.ServedWithinBound | gateway/src/pipeline/plugins/rate-limit/index.ts:82-98 | of requests served one after another from empty keys, those that got past a window keep to its bound in any interval as long as the window |
| WindowCascade.CascadeLogs | gateway/src/pipeline/plugins/rate-limit/index.ts:82-98 | one request's chain of checks enters it in the log of exactly the windows it got past |
| RateLimitHeaders.ApplyRateLimitHeaders | gateway/src/pipeline/plugins/rate-limit/headers.ts:25-58 | the tightest window speaks for all, each window is reported under its period, Retry-After appears with a denial, and no other header changes |
| RateLimitHeaders.Primary | gateway/src/pipeline/plugins/rate-limit/headers.ts:33-35 | the first of the windows with the least remaining is picked |
| RateLimitHeaders.WritePeriods | gateway/src/pipeline/plugins/rate-limit/headers.ts:46-51 | limit and remaining of every window, and nothing else |
| RateLimitHeaders.ReportsExactly | gateway/src/pipeline/plugins/rate-limit/headers.ts:46-51 | a window is reported exactly when its period's headers show its limit and what is left of it, never less than 0 |
| RateLimitHeaders.SummarizesSays | gateway/src/pipeline/plugins/rate-limit/headers.ts:38-43 | the summarizing headers show limit and length of the window, what is left of it, and the least whole number of seconds that reaches its reset |
| RateLimitHeaders.TightestHasLeast | gateway/src/pipeline/plugins/rate-limit/headers.ts:33-36 | the window they speak of has the least left of all |
| RateLimitHeaders.RetryAfterExact | gateway/src/pipeline/plugins/rate-limit/headers.ts:55 | Retry-After is the least number of seconds, at least one, that reaches the reset time |
| RateLimitHeaders.TruncatedRetryExact | policy-engine/internal/plugins/rate_limit.go:315-317 | after a denial a retry made as soon as the policy engine's Retry-After allows is admitted, if nobody else calls, exactly if the wait was at most a second or a whole number of seconds |
| RateLimitHeaders.TruncatedRetryInRuns | policy-engine/internal/plugins/rate_limit.go:315-317 | whoever else calls, somebody has been admitted by then in exactly those cases |
| RateLimitHeaders.TruncatedRetryFails | policy-engine/internal/plugins/rate_limit.go:315-317 | a reachable bucket that denies a client again after it waited as told |
| RateLimitHeaders.FixedWaitExact | policy-engine/internal/plugins/rate_limit.go:258-269 | after a denial by a fixed window somebody has been admitted by a later call exactly if the window is over by then |
| RateLimitHeaders.FixedRetryExact | policy-engine/internal/plugins/rate_limit.go:260-267 | waiting for the remaining life of the key is early exactly if rounding cut off more than the time the first request came after the window began |
| RateLimitHeaders.GatewayFixedRetryExact | gateway/src/pipeline/plugins/rate-limit/headers.ts:54-57 | the gateway's wait is early exactly in those cases in which the rounded life is at least a second |
| RateLimitHeaders.FixedRetryFails | gateway/src/pipeline/plugins/rate-limit/index.ts:121-128 | a denial after which both gateways' Retry-After is early |
| RateLimitHeaders.TokenBucketRetry | gateway/src/pipeline/plugins/rate-limit/index.ts:63-77 | a client that waits the Retry-After, computed from three successive readings of the clock, is admitted unless somebody was admitted since the denial |
| RateLimitHeaders.ServedAfterReset | policy-engine/internal/plugins/rate_limit.go:211-216 | once the oldest admission has left the window a client is turned away only if somebody was admitted since the denial |
| RateLimitHeaders.WholeWindowRetry | policy-engine/internal/plugins/rate_limit.go:152-156 | the policy engine's Retry-After of a whole window is long enough |
| RateLimitHeaders.SlidingWindowRetry | gateway/src/pipeline/plugins/rate-limit/strategies/sliding-window.ts:40-42 | the same for the sliding window and the reset time derived from its reply |
| ExpiringCounter.CountIsStreak | manager/services/auth/internal/service/ratelimit.go:26-28 | a counter whose expiry is set again on every increment counts the streak without a pause of its lifetime |
| ExpiringCounter.SteadyTrafficNeverResets | manager/services/auth/internal/service/ratelimit.go:26-33 | under steady traffic it never starts again: exactly the first max requests of the streak are admitted, however long it lasts |
| ExpiringCounter.DecidedByStreak | manager/services/auth/internal/service/ratelimit.go:26-33 | every decision of every run is the one made by looking back at the streak |
| LoginLimiter.RateLimitStore.Allow | manager/services/auth/internal/service/ratelimit.go:25-34 | the decision and the new counter are those of the refreshing counter, and no other key changes |
| LoginLimiter.NotPerMinute | manager/services/auth/internal/service/ratelimit.go:15-22 | three attempts half a minute apart are refused a limit of two that no minute exceeds |
| LoginLimiter.StricterThanPerMinute | manager/services/auth/internal/service/ratelimit.go:25-34 | the count is never below that of the last minute, and equal exactly when the minute holds none or all of the attempts, or a pause of a minute came before those it holds |
| LoginLimiter.DecisionsDifferExactly | manager/services/auth/internal/service/ratelimit.go:33 | an attempt is decided differently from a per-minute limiter exactly if it ends a stretch of more than the limit without a pause of a minute, whose first attempt is older than a minute |
| LoginLimiter.RunsAgreeExactly | manager/services/auth/internal/service/ratelimit.go:25-34 | over a run all decisions are those of the per-minute limiter exactly if no attempt ends such a stretch |
| LoginLimiter.FixedCounterCounts | manager/services/auth/internal/service/ratelimit.go:15-22 | a counter that sets its expiry only once counts the attempts since the first one of its minute |
| LoginLimiter.FixedRunsAgreeExactly | manager/services/auth/internal/service/ratelimit.go:15-34 | over a run all decisions are those of that fixed window exactly if no attempt within its limit follows too many others without a pause of a minute |
| CircuitBreaker.Breaker.Execute | policy-engine/internal/plugins/circuit_breaker.go:74-136 | a call's outcome and the new keys are those of one step of the breaker |
| CircuitBreaker.Life | policy-engine/internal/plugins/circuit_breaker.go:74-136 | told by the calls alone: every call of a quiet run passes, and so does the one that trips it; every call less than the timeout after that one is refused and changes nothing; the first one from then on passes, then half_open_max more and no other under steady calls |
| CircuitBreaker.TrippedAt | policy-engine/internal/plugins/circuit_breaker.go:124-126 | the breaker opens and notes the second of the call that trips it |
| CircuitBreaker.QuietPasses | policy-engine/internal/plugins/circuit_breaker.go:102-133 | while nothing has tripped the breaker every call passes |
| CircuitBreaker.QuietCounters | policy-engine/internal/plugins/circuit_breaker.go:109-126 | while nothing trips the breaker, its counters are the streaks of responses and of failures since the last probe that succeeded |
| CircuitBreaker.OpensExactlyWhenTripped | policy-engine/internal/plugins/circuit_breaker.go:112-127 | the breaker opens at exactly the first failing call whose streak of failures reaches the threshold or the error rate |
| CircuitBreaker.FirstFailureOpens | policy-engine/internal/plugins/circuit_breaker.go:117-127 | one failure opens a fresh breaker exactly when the threshold is 1 or the error rate at most 100 |
| CircuitBreaker.StepKeepsSafe | policy-engine/internal/plugins/circuit_breaker.go:108-132 | each step keeps the live failures of a closed breaker among the live responses and below both thresholds |
| CircuitBreaker.EveryReachableStateSafe | policy-engine/internal/plugins/circuit_breaker.go:74-136 | so does every run, although the two counters expire separately |
| CircuitBreaker.EveryFreshRunSafe | policy-engine/internal/plugins/circuit_breaker.go:74-136 | a breaker that is closed after any run from absent keys is safe then and at every later time |
| CircuitBreaker.OpenRefusesAll | policy-engine/internal/plugins/circuit_breaker.go:77-89 | as long as less than the timeout has passed since openAt every call is refused and nothing changes |
| CircuitBreaker.NeverCloses | policy-engine/internal/plugins/circuit_breaker.go:77-100 | a breaker that is not closed never closes, and a half-open one stays half-open |
| CircuitBreaker.HalfOpenLimits | policy-engine/internal/plugins/circuit_breaker.go:91-100 | half-open, calls pass as a refreshing counter limited to half_open_max lets them |
| CircuitBreaker.HalfOpenBudget | policy-engine/internal/plugins/circuit_breaker.go:81-100 | after the timeout that call and the next half_open_max pass, and no other while calls stay less than the timeout apart |
| CircuitBreaker.SameRate | gateway/src/pipeline/plugins/circuit-breaker.ts:60-63 | the gateway's breaker computes the same failure rate in another order of operations |
| AuditChain.StepKeepsInv | manager/services/audit-sink/src/store/pg.ts:44-66 | every statement of every appender keeps the committed rows a chain and the lock holder's view of its tip current |
| AuditChain.RunKeepsInv | manager/services/audit-sink/src/store/pg.ts:44-66 | so does every interleaving |
| AuditChain.EveryInterleavingChains | manager/services/audit-sink/src/store/pg.ts:41-66 | in every interleaving, rollbacks included, the committed rows in id order form one unforked chain: each prev_hash is the row_hash before it, empty at first, and each row_hash that of prev_hash, topic and payload |
| AuditChain.NothingLostOrInvented | manager/services/audit-sink/src/store/pg.ts:54-62 | the log holds exactly the committed appends, once each, in the order of their commits |
| AuditChain.NeverStuck | manager/services/audit-sink/src/store/pg.ts:45-59 | some open transaction can always take its next statement |
| AuditChain.NeighbourCheckExact | docs/DEPLOYMENT.md:374 | the documented check of neighbouring ids succeeds on a row exactly when the id before it was not lost to a rollback |
| AuditChain.NeighbourCheckCanFail | docs/DEPLOYMENT.md:374 | a run that leaves a good chain on which the documented check fails |
| AuditTamper.InputInjective | manager/services/audit-sink/src/store/pg.ts:51-53 | the hashed text determines previous hash, topic and payload when topics hold no bar |
| AuditTamper.SameTipSameLog | manager/services/audit-sink/src/store/pg.ts:49-53 | two chains of any lengths with the same last hash hold the same records, or two texts with equal hash are found |
| QueryLimits.MeasureDepth | manager/bff/src/plugins/depth-limit.ts:9-38 | the loop with its depth accumulator computes depth plus the guarded nesting depth, on cyclic documents too |
| QueryLimits.DepthAtMostComplexity | manager/bff/src/plugins/depth-limit.ts:9-63 | measured depth never exceeds measured complexity |
| QueryLimits.InliningUnique | manager/bff/src/plugins/depth-limit.ts:27-34 | there is at most one way to inline the fragments of a query |
| QueryLimits.MeasuresOfInlined | manager/bff/src/plugins/depth-limit.ts:9-63 | where an inlining exists the set of seen names changes nothing: depth and complexity are its nesting depth and field count |
| QueryLimits.InlinableIffAcyclic | manager/bff/src/plugins/depth-limit.ts:27-34 | an inlining exists exactly when no chain of spreads meets a fragment twice |
| QueryLimits.CheckDocument | manager/bff/src/plugins/depth-limit.ts:69-96 | the verdict is that on the inlined document, each spread standing for the last fragment of its name: if every operation has an inlining, acceptance means exactly that each has nesting depth and number of fields within the limits, and otherwise the first offender is named with the exceeded measure, depth before complexity; without inlinings the guarded measures decide in the same way |
| QueryLimits.FragmentsSpec | manager/bff/src/plugins/depth-limit.ts:70-75 | a name is known exactly if some fragment definition has it, and stands for the selections of the last one |
| QueryMeasures.NestingIsDeepest | manager/bff/src/plugins/depth-limit.ts:9-38 | the nesting depth is the largest number of fields that can be entered one inside another, inline fragments not counting |
| QueryMeasures.FieldsAreCounted | manager/bff/src/plugins/depth-limit.ts:40-63 | the complexity is the number of places at which a field stands |
| QueryMeasures.Example | manager/bff/src/plugins/depth-limit.ts:69-96 | the measures of one query with nested fields and an inline fragment |
| RouteEntry.PrefixStable | gateway/src/proxy/route-table.ts:190-199 | normalizing a prefix again keeps it exactly when it was not two or more slashes and nothing else |
| RouteEntry.HostStable | gateway/src/proxy/route-table.ts:183-188 | normalizing a host again keeps it exactly when the part before the port is neither empty nor ends in a blank |
| RouteEntry.HostFromText | gateway/src/proxy/route-table.ts:183-188 | blanks around a host, its case and a port do not matter |
| RouteEntry.BracketsStay | gateway/src/proxy/route-table.ts:183-188 | an address in brackets keeps what follows them |
| RouteEntry.PrefixFromText | gateway/src/proxy/route-table.ts:190-199 | a prefix loses its query and the slashes at its end and gains one in front if it has none |
| RouteEntry.NormalizeKeeps | gateway/src/proxy/route-table.ts:163-181 | only host, prefix and methods are normalized, and exactly a route without API, prefix or upstream is dropped |
| RouteKeys.MethodsCanonical | gateway/src/proxy/route-table.ts:201-204 | two method lists normalize alike exactly when they stand for the same methods |
| RouteKeys.MethodsStable | gateway/src/proxy/route-table.ts:201-204 | normalizing methods again changes nothing |
| RouteKeys.FirstDifference | gateway/src/proxy/route-table.ts:201-204 | methods are sorted as in a dictionary: the first difference decides, and a beginning comes first |
| RouteKeys.NormalizeRouteMethods | manager/services/registry/internal/repository/api_repo.go:413-433 | the registry's list holds exactly the trimmed upper-case names, once each and sorted, and the gateway's normalization keeps it |
| RouteKeys.KeyIdentifies | gateway/src/proxy/route-table.ts:210-218 | two entries have the same identity key exactly when API, host, prefix, methods and version agree, a host or method list spelled as the wildcard counting as none |
| RouteSync.UpsertKeeps | gateway/src/proxy/route-table.ts:141-149 | one row of a delta keeps keys unique and entries active |
| RouteSync.UpsertLookup | gateway/src/proxy/route-table.ts:141-149 | one row changes the table at its own key only |
| RouteSync.DeltaLookup | gateway/src/proxy/route-table.ts:136-151 | after a delta the table holds, at every key, the last row for it, or what it held before |
| RouteSync.RebuiltLookup | gateway/src/proxy/route-table.ts:126 | a rebuild holds exactly the active rows |
| RouteSync.RebuiltFirst | gateway/src/proxy/route-table.ts:126 | whatever the rows, a rebuild holds the first active one of every key |
| RouteSync.DeltaIsRebuildExactly | gateway/src/proxy/route-table.ts:126-151 | the same rows applied as a delta and as a rebuild give the same table exactly when the last row of every key, if active, is its first active one and otherwise there is none, and no other key was in the table |
| RouteSync.TwoRowsDiffer | gateway/src/proxy/route-table.ts:126-151 | an active row and then an inactive one for the same key: the delta leaves no route and the rebuild the active one |
| DeltaSync.DeltaSyncsExactly | manager/services/registry/internal/repository/api_repo.go:440-457 | with one row per key a delta brings the table back in sync exactly when every changed key has a row newer than since |
| DeltaSync.AlwaysInSyncExactly | gateway/src/proxy/route-table.ts:75-101 | from a table in sync on, it is in sync after every delta exactly when every change is in the first response after it |
| DeltaSync.DeltasEqualRebuild | gateway/src/proxy/route-table.ts:75-101 | after any number of syncs that miss no change the table is, as a keyed map, the full rebuild |
| DeltaSync.SeenExactly | manager/services/registry/internal/repository/api_repo.go:317-336 | a response has every change exactly when no row that changes the table was committed after the last read and stamped no later than since |
| DeltaSync.MissedIsOverlooked | gateway/src/proxy/route-table.ts:77-90 | the same over runs |
| DeltaSync.FromFullSync | gateway/src/proxy/route-table.ts:75-134 | after a full sync and any number of deltas the table always is what a full sync would give exactly when no row is overlooked |
| DeltaSync.LostForGood | gateway/src/proxy/route-table.ts:77-90 | a row stamped at or before since is in no later delta while the registry stays as it is |
| DeltaSync.AddedAndLost | gateway/src/proxy/route-table.ts:90 | a route committed after a read and stamped no later than the second of the clock reading stays missing, while a rebuild has it |
| DeltaSync.SecondCrossed | gateway/src/proxy/route-table.ts:90 | one way to be lost: a second begins between the read and the look at the clock |
| DeltaSync.LongTransaction | manager/services/registry/internal/repository/api_repo.go:336 | the other way: the stamp is the start of a transaction that began in an earlier second |
| DeltaSync.StampedLaterOverlooksNone | gateway/src/proxy/route-table.ts:77-90 | no row is overlooked if every row committed after a read is stamped after the second of the clock reading |
| GatewayRoutes.RouteTable.ApplyDelta | gateway/src/proxy/route-table.ts:136-151 | the in-place loop leaves the list that the upserts leave one after another |
| GatewayRoutes.RouteTable.SyncRoutes | gateway/src/proxy/route-table.ts:75-101 | a good response is applied, the clock's second recorded and the copy in Redis written if a route is left; a failed one changes nothing |
| GatewayRoutes.NormalizeRoutes | gateway/src/proxy/route-table.ts:157-161 | the loop keeps exactly the routes that can be normalized |
| GatewayRoutes.ActivesOfAll | gateway/src/proxy/route-table.ts:126 | normalizing all rows and then filtering is rebuilding from the active ones |
| GatewayRoutes.RouteTable.FullSync | gateway/src/proxy/route-table.ts:117-134 | a good response replaces the table by its active entries, records the whole second and always writes the copy; a failed one changes nothing |
| RouteRuns.Run | gateway/src/proxy/route-table.ts:75-134 | a full sync of the table and any number of syncs, each since the table's own lastSyncAt: after every one of them the table is what a full sync would give exactly when no row is overlooked |
| RouteRuns.FullThenDeltas | gateway/src/proxy/route-table.ts:75-134 | the same about the states that the table goes through |
| RouteRuns.SinceIsTheSecond | gateway/src/proxy/route-table.ts:77-78 | the time of the last sync is the whole second of it, after a full sync and after a delta that leaves routes or none |
| RouteRuns.LaterRowsArrive | gateway/src/proxy/route-table.ts:77-78 | so a row stamped after a sync is in the next response |
| GatewayRoutes.RouteTable.LoadFromCache | gateway/src/proxy/route-table.ts:104-114 | a copy that has not expired replaces the entries, and the sync time stays |
| GatewayRoutes.RouteTable.StartAgain | gateway/src/proxy/route-table.ts:34-35 | a new process has the routes of a copy that has not expired, or none, and no sync time |
| RouteCache.ReloadExact | gateway/src/proxy/route-table.ts:163-181 | an entry survives being cached and normalized again exactly under the two conditions on prefix and host |
| RouteCache.TableReloadExact | gateway/src/proxy/route-table.ts:94-108 | a written table reads back as it was exactly when every entry does |
| GatewayRoutes.CopyIsLastWritten | gateway/src/proxy/route-table.ts:92-130 | after any run a restart reads the table of the last full sync or of the last delta that left a route, until its copy expires, and then none |
| GatewayRoutes.SurvivesExactly | gateway/src/proxy/route-table.ts:92-114 | after any run a restart restores the table exactly when: it is empty, if the copy has expired; otherwise all entries survive the cache, if it was just written, or nothing of the last write can be read back, if a delta just emptied the table, or nothing has happened since the last restart |
| GatewayRoutes.DeactivatedComesBack | gateway/src/proxy/route-table.ts:93-94 | a delta that deactivates the last route: a restart brings it back as active until the copy expires, and then leaves the table empty |
| RegistryRows.KeysAgree | migrations/V7__gateway_route_identity.sql:28-29 | rows that need no normalizing are one route exactly when the registry's unique index takes them for one row |
| RegistryRows.OneRowPerKeyExactly | gateway/src/proxy/route-table.ts:163-218 | the gateway has one row per key exactly when no two rows agree in API, version and normalized host, prefix and methods, a wildcard counting as none |
| RegistryRows.UniqueIndexSuffices | migrations/V7__gateway_route_identity.sql:28-29 | for rows that need no normalizing the index is enough for that |
| RegistryRows.SlashCollides | gateway/src/proxy/route-table.ts:195-199 | a final slash makes a second row at the registry and the same route at the gateway |
| RouteMatch.MatchRoute | gateway/src/proxy/route-table.ts:43-71 | null exactly when no active route serves host, path and method; otherwise a route that does, and of those that do none beats it: bound to a host comes first, then the longer prefix, then bound methods, then the earlier place in the table |
| RouteMatch.PrefixBySegments | gateway/src/proxy/route-table.ts:206-208 | a prefix matches a path exactly when its segments are the first segments of the path |
| RouteMatch.BestServes | gateway/src/proxy/route-table.ts:61-70 | nothing that serves is better than the best match, and what serves and stands earlier is worse |
| RouteMatch.HeadIsBest | gateway/src/proxy/route-table.ts:61-70 | the head of the sorted candidates is that match |
| RouteMatch.SameLengthSamePrefix | gateway/src/proxy/route-table.ts:206-208 | two equally long prefixes of one path are equal |
| RouteMatch.TiesShareShape | gateway/src/proxy/route-table.ts:61-69 | matches that tie share host, prefix and whether they bind methods |
| RouteMatch.OrderDoesNotMatter | gateway/src/proxy/route-table.ts:61-70 | where no two matches share these, any order of the table gives the same answer |
| RouteMatch.OrderMattersExactly | gateway/src/proxy/route-table.ts:61-70 | for any table of normalized routes every order gives the same answer exactly when no other match has the shape of the best one |
| CacheEntry.MarshalCacheEntry | policy-engine/internal/plugins/cache.go:137-151 | the output is the entry printed with each header once, in some order |
| CacheEntry.IndexOf | policy-engine/internal/plugins/cache.go:185-192 | the first position at or after the start, or -1 |
| CacheEntry.ParseCacheEntry | policy-engine/internal/plugins/cache.go:153-183 | on any bytes the parser stays in bounds, fails exactly when there is no first line holding a number, and returns a suffix as body |
| CacheEntry.AtoiItoa | policy-engine/internal/plugins/cache.go:160 | every 64-bit status is read back |
| CacheEntry.RoundTrip | policy-engine/internal/plugins/cache.go:137-183 | for every header order parsing undoes printing exactly when no key is empty or holds a colon or newline and no value holds a newline |
| CacheEntry.HeadersClean | policy-engine/internal/plugins/cache.go:165-181 | headers parsed from any bytes are clean |
| CacheEntry.StoreAndLoad | policy-engine/internal/plugins/cache.go:137-183 | print, then parse: the entry comes back exactly when its headers are clean |
| CacheEntry.Example | policy-engine/internal/plugins/cache.go:137-183 | one entry, byte for byte |
| CacheEntry.StatusForms | policy-engine/internal/plugins/cache.go:160-163 | a status may have a sign; without digits, or with anything else, it is none |
| CacheEntry.StatusLine | policy-engine/internal/plugins/cache.go:156-163 | data are an entry exactly if their first line, ended by a newline, is a status |
| CacheEntry.HeaderLine | policy-engine/internal/plugins/cache.go:167-180 | the part of a line before the first colon names a header, and a later line of that name wins |
| CacheEntry.HeadersEnd | policy-engine/internal/plugins/cache.go:167-176 | an empty line, or data without another newline, ends the headers |
| Sorting.HeadIsFirstLeast | gateway/src/proxy/route-table.ts:61-70 | a stable sort puts the first of the least elements in front |
| Sorting.SortUnique | policy-engine/internal/executor/executor.go:130-138 | without ties an unstable sort has only one outcome |
| Sorting.UniqueIffStrict | policy-engine/internal/compiler/compiler.go:119-128 | with distinct elements, exactly then |
| PolicyChain.Execute | policy-engine/internal/executor/executor.go:40-113 | context and result are those of running some (phase, order)-sorted copy, stopping at the first abort or cache hit, and the result reports the abort with its code and message, or the cache hit, that the context ends with |
| PolicyChain.ReportIsTheContext | policy-engine/internal/executor/executor.go:93-108 | what a run reports is what it left in the context |
| PolicyChain.LeqIsPrecedes | policy-engine/internal/executor/executor.go:130-138 | policies are ordered by pre-request, post-request, pre-response, post-response, and within a phase by their order |
| PolicyChain.ExecuteOrdered | policy-engine/internal/executor/executor.go:58-112 | the loop over sorted policies leaves the context, and reports the abort, cache hit and counts, that running them one by one does |
| PolicyChain.OrderedSplits | policy-engine/internal/executor/executor.go:130-138 | a sorted chain is its four phases one after another |
| PolicyChain.FilterIsSelect | policy-engine/internal/executor/executor.go:62-64 | running with a phase filter is running that phase's policies |
| PolicyChain.RunAppend | policy-engine/internal/executor/executor.go:58-109 | running two lists in a row is running the second where the first left off, unless it stopped |
| PolicyChain.ChainIsPhases | policy-engine/internal/executor/executor.go:116-123 | with distinct (phase, order) pairs running the whole chain is running its four phases in turn, each on its own sorted copy |
| PolicyChain.SameSequence | gateway/src/pipeline/executor.ts:93-95 | filtering and then sorting stably by order gives what sorting by phase and order and then filtering gives, for distinct pairs |
| PolicyChain.ExecutePhase | gateway/src/pipeline/executor.ts:77-121 | the phase is recorded, the loop leaves the context that running its sequence does and summarizes it; without a chain nothing changes |
| Conditions.EvaluationsAgreeExactly | policy-engine/internal/executor/executor.go:148-174 | the two evaluations of a condition agree exactly unless it asks for an empty header that is absent, or for a claim that is neither text nor null |
| Conditions.OtherClaimDiffers | gateway/src/pipeline/executor.ts:133-135 | a condition on a claim that is a number holds at the gateway and not at the policy engine |
| Conditions.HeaderCondition | policy-engine/internal/executor/executor.go:148-174 | a condition on a header holds in both exactly if the header, whatever the case of its name, has that value |
| Conditions.ClaimCondition | gateway/src/pipeline/executor.ts:124-139 | one on a claim that is text or absent holds in both exactly if the claim has that text |
| Conditions.OtherConditions | gateway/src/pipeline/executor.ts:124-139 | one on the method ignores case, one on the plan does not, and any other holds |
| ExecutorsAgree.GoRunsEnabled | policy-engine/internal/executor/executor.go:58-109 | one phase of the policy engine is a run over the enabled policies of the phase, and its statistics count the plugins of that run |
| ExecutorsAgree.TrailsStop | policy-engine/internal/executor/executor.go:93-108 | after an abort or a cache hit neither executor runs another plugin |
| ExecutorsAgree.TrailsAreComplete | gateway/src/pipeline/executor.ts:97-112 | where every policy passes and no plugin stops the request both run all of them, in order |
| ExecutorsAgree.DoTheSameExactly | gateway/src/pipeline/executor.ts:97-112 | with engines of their own the executors run the same plugins on the same contexts and leave the same one exactly when at every context reached condition, registry and plugin agree and no plugin fails |
| ExecutorsAgree.PhaseAgreesExactly | gateway/src/pipeline/executor.ts:77-121 | the same for one phase of a stored chain, however the policy engine sorts its copy |
| ExecutorsAgree.FailuresDecide | policy-engine/internal/executor/executor.go:81-102 | engines alike in all but failures leave the same context exactly when no plugin that is reached fails |
| ExecutorsAgree.PhaseFailuresDecide | policy-engine/internal/executor/executor.go:81-102 | the same for one phase of a stored chain |
| ExecutorsAgree.StoppedStartExactly | gateway/src/pipeline/executor.ts:98 | on a request that is already stopped they do the same exactly when the policy engine lets no policy pass |
| ExecutorsAgree.SameAlongAgrees | gateway/src/pipeline/executor.ts:97-112 | they agree if at the contexts reached condition, registry and plugin do the same and no plugin fails |
| ExecutorsAgree.CompiledKindsAgree | policy-engine/internal/compiler/compiler.go:79-83 | a chain that the policy engine's compiler accepted has only kinds that both know |
| ExecutorsAgree.RegistriesDiffer | gateway/src/pipeline/executor.ts:19-31 | a policy of kind api_key_auth is run by the gateway only |
| ExecutorsAgree.ConditionsDiffer | gateway/src/pipeline/executor.ts:133-135 | so is one whose condition asks for a claim that is a number |
| ExecutorsAgree.FailuresDiffer | gateway/src/pipeline/executor.ts:107-111 | a last plugin that fails: the policy engine answers 500 and the gateway lets the request go on |
| ExecutorsAgree.StoppedStartsDiffer | gateway/src/pipeline/executor.ts:98 | a request that is already stopped: only the policy engine runs a policy |
| PolicyCompiler.CompileFromDSL | policy-engine/internal/compiler/compiler.go:60-132 | either all errors, which are exactly the missing API and what is wrong with each definition, or a chain with its identity whose policies are the definitions' field by field, in the order of phases and orders |
| PolicyCompiler.ErrorsSay | policy-engine/internal/compiler/compiler.go:63-97 | an error is reported exactly if it applies: of a definition an unknown type, or else an unknown phase, or else what the plugin has against its configuration |
| PolicyCompiler.ErrorsInOrder | policy-engine/internal/compiler/compiler.go:63-97 | the errors come in the order of the definitions, the missing API first |
| PolicyCompiler.AllMade | policy-engine/internal/compiler/compiler.go:99-113 | each definition's policy has its kind, order, state, configuration and condition, the phase of that name, and its id or a new one |
| PolicyCompiler.NoErrorsExactly | policy-engine/internal/compiler/compiler.go:63-97 | there is no error exactly when the API is named and every definition is valid |
| PolicyCompiler.AllPolicies | policy-engine/internal/compiler/compiler.go:76-113 | of valid definitions none is left out, and each becomes its own policy |
| PolicyCompiler.ResortingIsIdle | policy-engine/internal/compiler/compiler.go:119-128 | sorting a compiled chain again changes nothing exactly when it has no ties |
| JsonOps.GetPath | gateway/src/pipeline/plugins/transform/json-ops.ts:108-115 | the loop reads what the path leads to, and undefined where it ends early |
| JsonOps.MakeParents | gateway/src/pipeline/plugins/transform/json-ops.ts:119-126 | every proper prefix leads to an object afterwards; only prefixes that led to none read differently |
| JsonOps.SetPath | gateway/src/pipeline/plugins/transform/json-ops.ts:117-128 | the path reads the value, and every path neither a prefix nor an extension of it reads as before |
| JsonOps.DeletePath | gateway/src/pipeline/plugins/transform/json-ops.ts:130-139 | exactly the last field of the path is gone, if the path led to it |
| JsonOps.DeletedSpec | gateway/src/pipeline/plugins/transform/json-ops.ts:130-139 | in a tree the path then reads undefined and every path that does not extend it reads as before |
| JsonOps.OnePath | gateway/src/pipeline/plugins/transform/json-ops.ts:108-139 | in a tree only one path leads to an object |
| JsonOps.WrapThenUnwrap | gateway/src/pipeline/plugins/transform/json-ops.ts:69-82 | wrapping and unwrapping with one key gives back the very same object, unchanged |
| JsonMove.MovePath | gateway/src/pipeline/plugins/transform/json-ops.ts:59-67 | the source reads undefined afterwards; everything at and below it is at and below the target exactly when the move carries over; unrelated paths read as before; a move from the root writes the root below itself and deletes nothing |
| JsonMove.MoveExact | gateway/src/pipeline/plugins/transform/json-ops.ts:59-67 | get, set and delete on the heap carry the value over exactly when the target is neither root, source nor below it, and a target above it leaves nothing in its way |

## Left out

- RedisScripts.Redis.TokenBucket: capacity, rate and requested tokens are positive, as every caller passes them.
- RedisScripts.Redis.RateLimit: takes the limits as configured; resolving them from text, subscription plans and client identity is plain lookup.
- WindowReports.InfoTold: the opening after a sliding denial is stated for positive times, as the clock's are; an oldest score of 0 would read as none.
- TokenBucket.RunWithinRate: tokens are exact reals; rounding in Lua's floating point is not modelled, nor is clock skew between gateways.
- CircuitBreaker.Breaker.Execute: a call is one step; Redis commands of concurrent calls interleaving within it are not modelled. Configuration values are positive integers.
- CircuitBreaker.SameRate: in exact arithmetic; floating-point rounding can make the gateway's rate one less.
- AuditTamper.SameTipSameLog: asks that topics hold no bar, as the consumed topics do; with a bar in a topic the hashed text no longer determines its parts.
- DeltaSync.DeltaSyncsExactly: asks for one row per key at every read; rows deleted from the registry appear in no delta and are not modelled.
- FixedWindow.RunRefinesLog: Redis expires keys by the clock the callers read; clocks that differ are not modelled.
- RouteEntry.HostStable: letters and blanks are those of ASCII; Unicode case folding and blanks are not modelled.
- CacheEntry.RoundTrip: the status is a 64-bit integer, as it is in the program.
- ExecutorsAgree.PhaseAgreesExactly: asks for distinct (phase, order) pairs, without which the policy engine's own order is not determined, and that no plugin of the gateway aborts with the words the policy engine uses for a failed plugin.
- RouteKeys.KeyIdentifies: no part of a key holds the separators, a zero character or, in a method, a comma; neither can occur in the registry's columns.
- Conditions.EvaluationsAgreeExactly: letters and blanks are those of ASCII; names that JavaScript objects inherit are not modelled.
- JsonOps.SetPath: on trees of objects; arrays, inherited keys and a value already shared with another place are not modelled.
- The copy operation on JSON objects, which shares the value between two places.
- Path parsing, templates and the dispatch over a list of JSON operations.
- The plugins themselves, which are opaque functions of policy and context.
- Redis failures, where the limiters let requests through, and all other network and database failures.
- The cache key and the choice of what to cache.
- The cached fetch of policy chains in the gateway.
- Audit columns that are not hashed, and the re-rendering of payloads as jsonb: the payload is the hashed text.
- The rendering of headers as text and the policy engine's own header names.
- Alternative field names in registry responses.
- HTTP, gRPC and Kafka wiring, certificates, Vault, metrics, configuration loading, user interfaces, resolvers, OAuth and subscription management.
