# Verified models of GaiaOS

GaiaOS is a hazard-intelligence platform with no single kernel. What is hard in it is spread over several small
protocols on shared state (a token bucket and a circuit breaker in Redis, an alert job over a database table, a
parameter cache in front of a file, a checkpoint store), a recursive graph query, a handful of numeric routines
(least-squares calibration and its uncertainty bands, the Wilson bound, expected calibration error, rank fusion) and
a few scans. This project models these parts in Dafny and proves what each is for, for every input, every run or
every interleaving. `dafny verify dfyconfig.toml` checks the whole project.

| file | component |
|---|---|
| `TokenBucket.dfy` | the Redis token-bucket script and the rate limiter's `check` |
| `CircuitBreaker.dfy` | the shared breaker record, atomic and interleaved; the resilient call with retry and cache |
| `ParameterCache.dfy` | the calibrated-parameter cache under concurrent readers and a promoting writer |
| `AlertJob.dfy` | the alert evaluation cycle and the incident table |
| `CausalChains.dfy` | the recursive causal-chain query and its evidence |
| `LeastSquares.dfy`, `UncertaintyBands.dfy` | the calibration fits and the forecasts made from them |
| `PatternMining.dfy`, `PatternMiner.dfy` | the Wilson bound, the acceptance test of a pattern, versioned findings; the mining run |
| `CalibrationError.dfy`, `RankFusion.dfy`, `BreachScan.dfy`, `Chunker.dfy` | the numeric and scanning routines |
| `RequirementsDrift.dfy` | the include-following requirements parser and the drift report |
| `Checkpoints.dfy` | normalisation, framing, and the Redis checkpoint store with paging |
| `Basics.dfy`, `Sorting.dfy` | real arithmetic, options, texts split at colons, stable descending sort |

Code that updates state is modelled by classes and loops (`RedisBucket`, `SharedBreaker`, `Caller`, `Loader`, `Job`,
`Repository`, `Parser`, `Saver`), each method tied to a function of the old state; the laws are then proved about
those functions over whole runs. Code made of expressions is modelled by functions.

## What the models take for granted

- Floating-point numbers are reals. A square root is passed in as a non-negative number with the right square.
- Rate limiter: refill rate above 0, costs not negative, expiry measured on the request clock, and, except in
  `TokenBucket.AdmittedCostIsBoundedAnyTime`, request times that do not go back. Redis may
  drop an expired key at any moment after its expiry, or not yet have dropped it.
- Also for the rate limiter: a caller's role, and so its quota, does not change during a run.
- Circuit breaker: threshold at least 1. A record that does not decode is treated as the source treats it: as missing.
- Parameter cache: every write of the file gets a fresh modification time; each block under the lock and each file
  operation is one step. A truncate followed by a write may be given as two write steps. The system is that of one
  model name; the `Loader` class keeps the whole dictionary.
- Alert job: cycles run one at a time and commit, rule and SLO names are distinct, a rule keeps its
  `consecutive_cycles`, which is at least 1, and rows are inserted in `fired_at` order. A notice is an attempt to send.
- Causal query: the anchor query returns distinct identifiers; anchors and relations are otherwise arbitrary.
- Rank fusion: the two ranked lists have no repeats; the order in which a Python set is enumerated is arbitrary.
- Pattern mining: the hash has no collisions, and the types and regions that occur are enumerated in any order.
- Checkpoints: identifiers hold no colon and no glob character, and keys do not expire. Walking the pages of a store
  assumes that no checkpoint of the thread has an empty identifier; `CheckpointStore.TurnPages` shows why.
- Drift script: resolving an include path and testing a version against a range are parameters, and so is the order in
  which the library yields the specifiers of a lock line.

## Where the code and its own comments disagree

- `resilience/circuit_breaker.py:95-96` speaks of a single probe. The half-open branch lets every caller through
  (`CircuitBreaker.HalfOpenIsDecided`, third clause).
- `resilience/degraded_mode.py:121` says that the call never raises. `ResilientCalls.RaisesExactlyWhen` gives the exact
  condition under which it does.
- `simulation_engine/calibration/report.py:123` says that invalidation acts immediately. A reader that has already read
  the file can put its old values back afterwards (`ParameterCache.PromotionCanBeUndone`);
  `ParameterCache.InvalidationTakesEffectExactlyWhen` gives the exact condition.
- `simulation_engine/calibration/fit_wildfire_spread.py:53-54` clamps the two coefficients separately, which is not the
  constrained optimum (`LeastSquares.ClampedFitCanBeBeaten`); `LeastSquares.OnlyWindClampActs`, `OnlyTempClampActs` and
  `BothClampsAct` say when it is.
- `db/repository.py:728` lists at most 50 open incidents, so a cycle can leave a cleared incident open
  (`AlertJob.LimitLeavesIncidentOpen`); `AlertJob.CycleReconcilesExactlyWhen` and, over histories,
  `AlertJob.IncidentsFollowRunsExactlyWhen` say when it does not.
- `workers/jobs/pattern_mining_job.py:64` and the description text provide for events without a region, but sorting the
  labels fails as soon as some event has one and another has none (`PatternMiner.ExecutePatternMining`, first clause).
- `workers/jobs/pattern_mining_job.py:61` calls the hash an identifier of the candidate, but regions are folded only
  there, so two candidates of one run can share a hash and the later one retires the earlier
  (`PatternMiner.SavedPatternIsActiveExactlyWhen`, `PatternMiner.ColonConfusesKeys`).
- `scripts/check_requirements_drift.py:139-143` speaks of a version pinned with `==`, but the parser keeps the first
  specifier's version whatever its operator (105-109), so `foo>=2.0` counts as pinned (`RequirementsDrift.LooseLockLinePasses`,
  `RequirementsDrift.CheckIsSoundExactlyWhen`).
- `workers/jobs/literature_ingestion_job.py:25` speaks of overlapping chunks of the text, but an overlap of at least the
  size keeps one chunk and drops the rest, and a negative one leaves gaps (`Chunker.LosslessExactlyWhen`).
- `db/causal_repository.py:149` announces the initial trigger's details and gives those of the last event
  (`CausalChains.TriggerDetailsComeFromTheEnd`).
- `orchestrator/graph/checkpointer.py:32` speaks of stripping callables. Objects that are no mapping, tuple, list or set
  are returned as they are, with any callable inside (`Normalisation.OpaqueKeepsItsCallable`,
  `Normalisation.NormalizeIsPrimitiveExactlyWhen`).
- `simulation_engine/calibration/report.py:77-81` compares with the current parameters. The loader may return cached ones,
  so that better values another process has promoted can be replaced by worse (`ParameterCache.StaleEntryLetsScoreRise`,
  `ParameterCache.GateKeepsScoreExactlyWhen`).
- `resilience/circuit_breaker.py:76-78` says that a replica without Redis acts as if closed for itself. A failed read
  followed by a good write forgets the count for all, and with a threshold above 1 closes the circuit (`CircuitBreaker.FailedReadForgets`).

## Model

| member | source | states |
|---|---|---|
| `TokenBucket.RedisBucket.Eval` | gateway/rate_limiter_redis.py:37-65 | the script's hash update, statement by statement, is the pure step on which the laws below are proved, reply included |
| `TokenBucket.RunRefinesFluid` | gateway/rate_limiter_redis.py:37-65 | over every run, the lazily refilled, expiring, unwritten-on-denial hash replies exactly as a bucket that refills continuously and never expires |
| `TokenBucket.RunStaysSound` | gateway/rate_limiter_redis.py:49-58 | after every run the stored tokens lie between 0 and the capacity and the expiry is late enough for a full refill |
| `TokenBucket.AdmittedExactlyWhenRoom` | gateway/rate_limiter_redis.py:41-65 | the decisions of every run said of admissions alone: a request is admitted if and only if its cost is within the capacity and, since every earlier admission, what was admitted from it on and this cost are within the capacity and the gain since; the tokens reported are the most there is room for right behind it |
| `TokenBucket.ExpiryIsUnobservable` | gateway/rate_limiter_redis.py:41-58 | whichever expired keys Redis happens to have dropped, and when, every reply is the same |
| `TokenBucket.AdmittedCostIsBounded` | gateway/rate_limiter_redis.py:37-65 | in every run and every interval the admitted cost is at most the capacity plus the rate times the interval's length |
| `TokenBucket.AdmittedCostIsBoundedAnyTime` | gateway/rate_limiter_redis.py:37-65 | whatever the order of the request times, the admitted cost in every interval is at most the capacity plus the rate times the interval's length and the total by which the times go back |
| `TokenBucket.ClockStepBackOveradmits` | gateway/rate_limiter_redis.py:45-52 | that excess is real: for every quota and every two instants, a request stamped with the earlier one between two stamped with the later one lets the capacity and the gain of the time in between through at the later instant, less what it costs; one that costs nothing attains the bound |
| `TokenBucket.DeniedRequestsAreInvisible` | gateway/rate_limiter_redis.py:53-63 | dropping any of the denied requests from a run leaves every other reply as it was |
| `TokenBucket.RetryAfterIsExact` | gateway/rate_limiter_redis.py:60-62 | with nothing admitted in between, a retry a whole number of seconds later is admitted exactly when that number is at least `retry_after` |
| `TokenBucket.OversizedCostNeverAdmitted` | gateway/rate_limiter_redis.py:49-53 | a cost above the capacity is denied in every state |
| `TokenBucket.RequestsPerWindowAreBounded` | gateway/rate_limiter_redis.py:137-190 | the numbers per role and scope: in any window of the configured length (60 seconds, or the reset window) a caller is admitted at most the configured number of requests plus the burst |
| `TokenBucket.RolesGet` | gateway/rate_limiter_redis.py:137-152 | the settings apply as they are to users, three and two times to researchers, ten and five times to admins, and capped at 10 and 5 to the public |
| `TokenBucket.DenialWaitsAtLeastOneSecond` | gateway/rate_limiter_redis.py:60-63 | a denial never tells the client to retry at once |
| `TokenBucket.Check` | gateway/rate_limiter_redis.py:154-251 | an excluded path, a disabled limiter and an unreachable Redis touch nothing; otherwise EVALSHA and, when its reply is lost, EVAL run with the quota of that role and scope, the last evaluation decides if its reply arrives, and a 429 carries a wait of at least a second |
| `TokenBucket.VerdictFollowsScript` | gateway/rate_limiter_redis.py:199-238 | on one token, the reply that arrives decides, with its wait; without one the request passes |
| `TokenBucket.AdmittedVisitsAreBounded` | gateway/rate_limiter_redis.py:199-223 | the rate bound survives lost replies and second evaluations: over every sequence of checks the requests admitted in an interval are at most the capacity plus the rate times its length |
| `CircuitBreaker.SharedBreaker.IsOpen` | resilience/circuit_breaker.py:92-128 | the answer and the stored record after a query, with a failed read (taken as closed) and a failed write |
| `CircuitBreaker.SharedBreaker.RecordFailure` | resilience/circuit_breaker.py:131-154 | the stored record after a failure, with a failed read and a failed write |
| `CircuitBreaker.SharedBreaker.RecordSuccess` | resilience/circuit_breaker.py:157-171 | the stored record after a success, with a failed read and a failed write |
| `CircuitBreaker.RedisErrors` | resilience/circuit_breaker.py:52-89 | a failed read and a missing record look fresh and closed, and a failed write changes nothing |
| `CircuitBreaker.OwedIsCoherent` | resilience/circuit_breaker.py:92-171 | whatever coherent record an operation read, the one it will write is coherent, counts at most one more failure, and is open if a probe failed |
| `CircuitBreaker.InterleavingKeepsInv` | resilience/circuit_breaker.py:52-171 | the invariant of the store and of every worker between its read and its write survives every interleaving, with Redis failures anywhere |
| `CircuitBreaker.InterleavedBreakerIsSafe` | resilience/circuit_breaker.py:52-171 | under every interleaving closed means below the threshold and otherwise at or above it with an opening time, the count never exceeds the failures begun, and a failed probe always writes open |
| `CircuitBreaker.InterleavedCountIsExactExactlyWhen` | resilience/circuit_breaker.py:92-171 | in every state the invariant allows and every error-free interleaving, after each action the count is the failures since the last success in the order of taking effect, if and only if every write of a failure or a query finds the count it has read |
| `CircuitBreaker.InterleavedCountFromStart` | resilience/circuit_breaker.py:92-171 | from the start such an interleaving ends with the number of failures since the last success |
| `CircuitBreaker.InterleavingLosesAFailure` | resilience/circuit_breaker.py:131-154 | one way to fail: in every state, two failures computed from the same record raise the count by one |
| `CircuitBreaker.StaleQueryLosesAFailure` | resilience/circuit_breaker.py:113-118 | another: in every state with an open circuit whose window has elapsed, a query that half-opens it writes back its old count over a failure counted meanwhile |
| `CircuitBreaker.StaleQueryUndoesASuccess` | resilience/circuit_breaker.py:113-118 | a third, where the count is too high: the same write over a success leaves the circuit half-open with its old count |
| `CircuitBreaker.UndisturbedInterleavingCounts` | resilience/circuit_breaker.py:92-171 | an error-free interleaving in which nobody writes between a worker's read and its write stores what its operations store one after the other in the order of their writes, so the count is exact |
| `CircuitBreaker.CircuitClosesExactlyWhen` | resilience/circuit_breaker.py:131-171 | in every state the invariant allows an action closes an open or half-open circuit exactly when it is the write of a success, or of a failure computed from a closed record that stays below the threshold |
| `CircuitBreaker.FailedReadForgets` | resilience/circuit_breaker.py:64-70 | one `record_failure` with a failed read and a good write stores count 1 whatever the record was: closed, or with a threshold of 1 open from that moment |
| `CircuitBreaker.ReplayCountsFailures` | resilience/circuit_breaker.py:92-171 | in every run of whole operations the count is the number of failures since the last success, and the circuit is not closed exactly when that reaches the threshold |
| `CircuitBreaker.ThresholdOpens` | resilience/circuit_breaker.py:131-149 | from closed, the failure that reaches the threshold opens the circuit at its own time, and any earlier one leaves it closed with the next count |
| `CircuitBreaker.OtherEventsKeep` | resilience/circuit_breaker.py:92-171 | an open circuit counts on without moving its opening time, asking changes nothing but an open circuit whose window has elapsed, and a success resets the record |
| `CircuitBreaker.OpenCircuitBlocks` | resilience/circuit_breaker.py:108-128 | an open circuit, through any number of earlier queries, blocks exactly until the timeout has passed, and the first query after it half-opens |
| `CircuitBreaker.HalfOpenIsDecided` | resilience/circuit_breaker.py:104-164 | from half-open one failure opens with a fresh opening time, one success resets everything, and no caller is blocked meanwhile |
| `ResilientCalls.FallbackServesExactly` | resilience/degraded_mode.py:166-203 | in every run a call that falls back serves the latest value stored live under its key if its read succeeds and the lifetime has not passed, and otherwise reports the source unavailable |
| `ResilientCalls.Caller.WithRetry` | resilience/retry_policy.py:27-37 | every attempt before the deciding one was an HTTP error, the deciding one is the last made, and it is an HTTP error only after the maximum number of attempts |
| `ResilientCalls.Caller.ResilientCall` | resilience/degraded_mode.py:100-164 | the method is the transition the laws below speak of; without bypass the function is not invoked exactly when the breaker blocks |
| `ResilientCalls.OutcomeIs` | resilience/degraded_mode.py:121-164 | a call returns a live value exactly when it gets through and its first attempt that is no HTTP error is that answer, raises exactly when that attempt is another error or a bypass meets an HTTP error, and otherwise falls back |
| `ResilientCalls.RecordFollowsCalls` | resilience/degraded_mode.py:134-164 | over every run without errors on the breaker record, the record is that of the history the calls add: a question each, then a success, a failure or nothing for a call that got through and returned live, fell back or raised |
| `ResilientCalls.DeadSourceOpensCircuit` | resilience/degraded_mode.py:156-164 | after any number of exhausted calls up to the threshold the record counts them, and the one that reaches the threshold opens the circuit at its own time |
| `ResilientCalls.OpenCircuitSparesTheSource` | resilience/degraded_mode.py:134-141 | after that a call within the window does not reach the source and falls back |
| `ResilientCalls.RaisesExactlyWhen` | resilience/degraded_mode.py:121-164 | the call raises exactly when it is a bypass whose one attempt fails, or the circuit lets it through and its attempts reach an error that is not an HTTP error |
| `ResilientCalls.InvokeKeepsTraced` | resilience/degraded_mode.py:146-180 | every call keeps the invariant that each cache entry was supplied by an earlier live answer for the same key |
| `ResilientCalls.CachedValuesWereLive` | resilience/degraded_mode.py:146-203 | in every run of calls a value served as cached was returned live by an earlier call with the same key and had not outlived its time to live |
| `ParameterCache.ValidateParameters` | simulation_engine/parameter_loader.py:23-44 | the validation loop accepts exactly the documents in which every required key is present with an acceptable value |
| `ParameterCache.BuildParameters` | simulation_engine/parameter_loader.py:87-89 | the loop over required keys builds the document's values for exactly those keys |
| `ParameterCache.RunKeepsInv` | simulation_engine/parameter_loader.py:47-116 | every interleaving of reader steps, writes, deletions, invalidations and time keeps the invariant that each cached or held value was the file's content recently enough |
| `ParameterCache.BumpIsHonest` | simulation_engine/parameter_loader.py:71-77 | renewing an entry whose modification time still matches is sound: its values were the file's content at the renewed time |
| `ParameterCache.EveryAnswerIsJustified` | simulation_engine/parameter_loader.py:47-102 | every finished call, under any interleaving, gave the defaults because the file was missing or invalid during the call, or values the file held no earlier than the call's time minus the cache's time to live |
| `ParameterCache.InvalidationTakesEffectExactlyWhen` | simulation_engine/calibration/report.py:116-124 | in every state the invariant allows, all calls begun after an invalidation return content no older than the file of that moment, over all continuations, if and only if every read held over it is of the current content, or is older than the lifetime and so is every call that has seen its modification time |
| `ParameterCache.PendingReadUndoesInvalidation` | simulation_engine/parameter_loader.py:80-116 | first way to fail: a recent held read is published after the invalidation and returned to the next call |
| `ParameterCache.RenewedReadUndoesInvalidation` | simulation_engine/parameter_loader.py:71-94 | second way: an old held read is published, renewed by a recent call that saw its modification time, and returned |
| `ParameterCache.PromotionCanBeUndone` | simulation_engine/calibration/report.py:116-124 | the failure is reachable: from the initial state, for any two valid contents that differ, a slow reader undoes the promotion |
| `ParameterCache.Loader.LoadCalibratedParameters` | simulation_engine/parameter_loader.py:47-102 | the loader run alone is the step machine above run to its end, and touches no other model's entry |
| `ParameterCache.Loader.Invalidate` | simulation_engine/parameter_loader.py:105-116 | removes one model's entry, or all of them when no name is given |
| `ParameterCache.Loader.CheckAndPromote` | simulation_engine/calibration/report.py:69-124 | the candidate replaces the file and the entry is dropped exactly when it scores no worse than what the loader returns; otherwise the file stays |
| `ParameterCache.ComparedIs` | simulation_engine/calibration/report.py:87-91 | the gate compares with the cached values when the entry is within its lifetime or its modification time matches, and otherwise with what the file says, or the defaults |
| `ParameterCache.GateKeepsScoreExactlyWhen` | simulation_engine/calibration/report.py:96-97 | no promotion makes the file's content score worse, whatever the candidate, if and only if the cached values are not used or score no worse than the file's own |
| `ParameterCache.StaleEntryLetsScoreRise` | simulation_engine/calibration/report.py:87-97 | with old values still cached, every candidate between them and better ones promoted elsewhere is promoted over the better ones |
| `AlertJob.FindOpen` | db/repository.py:641-650 | finds an open row of that rule, or reports that none exists |
| `AlertJob.OpenNewestFirst` | db/repository.py:725-737 | lists every open row once, newest first |
| `AlertJob.Job.GetOpenIncident` | db/repository.py:641-650 | the query over the table returns that row |
| `AlertJob.Job.ListFiring` | db/repository.py:725-737 | the listing query returns the newest 50 open rows |
| `AlertJob.Job.FireRules` | workers/jobs/alert_evaluation_job.py:92-129 | rows and notices after the loop over rules |
| `AlertJob.Job.FireSlos` | workers/jobs/alert_evaluation_job.py:131-160 | rows and notices after the loop over SLO alerts |
| `AlertJob.Job.ResolveCleared` | workers/jobs/alert_evaluation_job.py:162-177 | rows and notices after the loop over the listed incidents |
| `AlertJob.Job.RunCycle` | workers/jobs/alert_evaluation_job.py:92-177 | a whole cycle is the transition on which the laws below are proved |
| `AlertJob.TouchRulesCounts` | workers/jobs/alert_evaluation_job.py:92-129 | firing raises the counter of each fired rule by one and of no other, and adds one firing notice exactly when the counter arrives at `consecutive_cycles` |
| `AlertJob.TouchSlosCounts` | workers/jobs/alert_evaluation_job.py:131-160 | likewise for SLOs, whose notice goes out when the incident is opened |
| `AlertJob.CycleCounts` | workers/jobs/alert_evaluation_job.py:92-177 | effect of a whole cycle on any name's counter and on the number of its firing and resolution notices, whatever the number of open incidents |
| `AlertJob.CycleKeepsIncidents` | workers/jobs/alert_evaluation_job.py:92-177 | a cycle loses no incident: each keeps its place and name, a closed one stays as it is, and a count changes only when its name fires |
| `AlertJob.AtMostOneOpenIncident` | db/repository.py:641-682 | after every sequence of cycles no rule has two open incidents |
| `AlertJob.IncidentsFollowRunsExactlyWhen` | workers/jobs/alert_evaluation_job.py:92-177 | over every history, after each cycle every name's counter is the length of its trailing firing run, if and only if in each cycle the open incidents beyond the newest 50 all belong to firing names |
| `AlertJob.ReconcilingHistory` | workers/jobs/alert_evaluation_job.py:92-177 | under that condition firing notices are as many as runs that reached the name's threshold, and resolutions as many as ended runs |
| `AlertJob.IncidentsFollowRuns` | workers/jobs/alert_evaluation_job.py:92-177 | in particular all of this holds with at most 50 names firing over any two neighbouring cycles |
| `AlertJob.CycleReconcilesExactlyWhen` | workers/jobs/alert_evaluation_job.py:162-177 | after a cycle the open incidents are exactly the firing names if and only if every open incident beyond the newest 50 belongs to a firing name |
| `AlertJob.LimitLeavesIncidentOpen` | db/repository.py:725-737 | any 51 or more alerts that fire once and then fall silent leave the oldest incident open |
| `CausalChains.RunQuery` | db/causal_repository.py:54-97 | the working-table loop ends on every graph, cyclic or not, and returns the rows of all rounds up to the depth limit |
| `CausalChains.SnocIsChain` | db/causal_repository.py:87-91 | the join condition extends a row exactly when the longer edge path is still simple and within the depth limit |
| `CausalChains.QueryFindsExactlyTheSimplePaths` | db/causal_repository.py:54-97 | the query returns one row, and no second one, for each edge path with distinct vertices, at most `max_depth` of them, that starts at an anchor; parallel edges give separate rows |
| `CausalChains.MinOf` | db/causal_repository.py:17-25 | the chain confidence is one of the edge confidences and no larger than any |
| `CausalChains.ExtendingNeverRaises` | db/causal_repository.py:17-25 | extending a chain never raises its confidence, and joining two chains takes the smaller one |
| `CausalChains.BuildEvidence` | db/causal_repository.py:128-171 | the loop reports exactly the rows of depth 2 and more, in order, each field by field, with the weakest confidence and the two texts of its event or their defaults |
| `CausalChains.EvidenceIsConsistent` | db/causal_repository.py:137-144 | evidence that tells a path of the query has as many vertices as its depth, within the limit and without repeats from an anchor on, and one edge confidence fewer |
| `CausalChains.TriggerDetailsComeFromTheEnd` | db/causal_repository.py:145-150 | the details a claim gives for the initial trigger are those of the last event of the path |
| `CausalChains.FindCausalChains` | db/causal_repository.py:32-185 | one piece of evidence per simple path with an edge, and it tells that path: its vertices, the type of each one's event, the confidence of each edge, the weakest of them, the last vertex as its chunk, and that event's region and details or the defaults |
| `LeastSquares.ErrorExpands` | simulation_engine/calibration/fit_wildfire_spread.py:38-50 | the squared error at a moved point is the error, plus twice the slope of the normal equations, plus a square |
| `LeastSquares.SolveFireSolves` | simulation_engine/calibration/fit_wildfire_spread.py:38-50 | the closed form satisfies both normal equations |
| `LeastSquares.FireFitExists` | simulation_engine/calibration/fit_wildfire_spread.py:35-47 | there is a fit exactly with at least two samples and a determinant of at least a millionth |
| `LeastSquares.DetNonNegative` | simulation_engine/calibration/fit_wildfire_spread.py:45-45 | the determinant is never negative |
| `LeastSquares.SolveFireIsLeastSquares` | simulation_engine/calibration/fit_wildfire_spread.py:38-50 | whenever the fit goes through, its coefficients are the only minimiser of the squared error over all pairs |
| `LeastSquares.ClampedFitIsBestExactlyWhen` | simulation_engine/calibration/fit_wildfire_spread.py:49-54 | the clamped pair is best within the limits if and only if the slope at it is zero, or points out of the box, in each coordinate |
| `LeastSquares.NoClampActs` | simulation_engine/calibration/fit_wildfire_spread.py:53-54 | when no clamp acts the pair is best within the limits |
| `LeastSquares.OnlyWindClampActs` | simulation_engine/calibration/fit_wildfire_spread.py:53-54 | when only the wind clamp acts it is best exactly when the sum of products of wind and temperature is zero, or, with the other coefficient on a limit, has the right sign |
| `LeastSquares.OnlyTempClampActs` | simulation_engine/calibration/fit_wildfire_spread.py:53-54 | the same when only the temperature clamp acts |
| `LeastSquares.BothClampsAct` | simulation_engine/calibration/fit_wildfire_spread.py:53-54 | when both act it is best exactly when each slope, a combination of the data sums with the two overshoots, has the sign of its own overshoot; in particular when the sum of products agrees with both signs |
| `LeastSquares.ClampedFitCanBeBeaten` | simulation_engine/calibration/fit_wildfire_spread.py:53-54 | two samples for which another pair within the limits has a smaller error |
| `LeastSquares.FitSlope` | simulation_engine/calibration/fit_flood_extent.py:34-43 | a fitted slope lies within its limits |
| `LeastSquares.SlopeFitExists` | simulation_engine/calibration/fit_flood_extent.py:31-38 | there is a fit exactly with some samples and a sum of squared inputs of at least a millionth |
| `LeastSquares.FitSlopeIsLeastSquares` | simulation_engine/calibration/fit_flood_extent.py:34-43 | the fitted slope, even clamped, minimises the squared error over the allowed range |
| `UncertaintyBands.Round4` | simulation_engine/calibration/fit_flood_extent.py:58-62 | rounding to four decimals moves a number by at most half a unit of the fourth |
| `UncertaintyBands.Round4IsNearest` | simulation_engine/calibration/fit_flood_extent.py:58-62 | the result is a whole number of units of the fourth decimal, and of two equally near ones the even |
| `UncertaintyBands.BoundsFactors` | simulation_engine/calibration/math_helpers.py:27-39 | the factors are the defaults for a tiny mean and otherwise keep at least 5 % from 1 on either side |
| `UncertaintyBands.FactorsMarkOneDeviation` | simulation_engine/calibration/math_helpers.py:27-39 | applied to the mean prediction the factors mark one standard deviation below and above it, kept within 10 and 95 % and within 105 and 300 % of it |
| `UncertaintyBands.FittedSlopesAreOrdered` | simulation_engine/calibration/fit_flood_extent.py:50-62 | for every training set the three stored slopes, after rounding, are strictly ordered |
| `UncertaintyBands.FittedSlopesAre` | simulation_engine/calibration/fit_flood_extent.py:41-62 | without a fit the model's constants; otherwise, within half a unit of the fourth decimal, the best slope and it times the two factors of the mean prediction |
| `UncertaintyBands.SlopeForecastIsInside` | simulation_engine/models/flood_extent.py:15-41 | the flood and plume models answer exactly on inputs in range, with the prediction strictly inside its bounds |
| `UncertaintyBands.SlopeForecastIsTheLine` | simulation_engine/models/flood_extent.py:36-41 | at every input in range the squared difference of any observation from the prediction, and from each bound, is the error the fit minimises, at the coefficient and at the bound's slope |
| `UncertaintyBands.FireForecastIsInside` | simulation_engine/models/wildfire_spread.py:15-49 | the same for the wildfire model on both inputs |
| `UncertaintyBands.FireForecastIsThePlane` | simulation_engine/models/wildfire_spread.py:46-49 | the squared difference of any observation from the prediction is the error the wildfire fit minimises, at the two coefficients, and the bounds are the prediction times the two factors |
| `UncertaintyBands.FireForecastSlopes` | simulation_engine/models/wildfire_spread.py:46-47 | predictions that differ in the wind alone differ by that difference times the wind coefficient, and likewise for temperature |
| `UncertaintyBands.FittedFireIs` | simulation_engine/calibration/fit_wildfire_spread.py:53-74 | without a fit the defaults; otherwise, within half a unit of the fourth decimal, the clamped coefficients and the factors of the mean prediction |
| `UncertaintyBands.RoundingMovesForecastLittle` | simulation_engine/calibration/fit_wildfire_spread.py:69-74 | rounding moves a forecast by at most 0.00005 times the sum of wind and temperature |
| `UncertaintyBands.EnsoForecastIsInside` | simulation_engine/models/enso_forecast.py:15-50 | the fitted La Niña threshold is below the El Niño one, the phases follow the thresholds, and the prediction is strictly inside its bounds |
| `UncertaintyBands.EnsoForecastIs` | simulation_engine/models/enso_forecast.py:15-50 | the model answers exactly in range, with the anomaly and the two offsets around it, and calls it neutral exactly between the thresholds |
| `UncertaintyBands.FittedEnsoIs` | simulation_engine/calibration/fit_enso_forecast.py:31-57 | below five samples the defaults; otherwise, within half a unit of the fourth decimal, the values nine tenths and one tenth up the sorted anomalies within their limits, and the deviation within 0.05 and 1 to either side |
| `WilsonBound.Proportion` | workers/jobs/pattern_mining_job.py:44-44 | the proportion stays in the unit interval even when co-occurrences outnumber sources |
| `WilsonBound.BoundIsSmallerRoot` | workers/jobs/pattern_mining_job.py:45-50 | the closed form solves the score equation and no other solution is smaller |
| `WilsonBound.BoundIsMonotone` | workers/jobs/pattern_mining_job.py:45-50 | a larger proportion never gives a smaller bound |
| `WilsonBound.LowerBoundIsWilson` | workers/jobs/pattern_mining_job.py:41-51 | the final clamp never acts; the result is the smaller root and lies between 0 and the proportion |
| `WilsonBound.LowerBoundIsMonotone` | workers/jobs/pattern_mining_job.py:41-51 | the function as called, guards and clamps included, is monotone in the number of successes |
| `WilsonBound.NoSuccessNoBound` | workers/jobs/pattern_mining_job.py:41-42 | without successes or trials the bound is zero |
| `WilsonBound.AcceptedPatternsAreValid` | workers/jobs/pattern_mining_job.py:146-200 | no candidate makes the uncertainty estimate fail validation, and an accepted one has a valid interval, enough confidence and at least one co-occurrence |
| `WilsonBound.AcceptedExactlyWhen` | workers/jobs/pattern_mining_job.py:146-200 | a candidate is accepted if and only if it has sources, targets, enough support, more pairs than the targets' share of all events would give, and a score equation without a solution below the demanded confidence; it then carries the least solution, widened by 0.08 to either side within the unit interval |
| `PatternMiner.CountFollowing` | workers/jobs/pattern_mining_job.py:150-162 | the double loop counts the pairs in which the target follows the source within the window, and collects exactly the identifiers that occur in such a pair |
| `PatternMiner.MatchingPicks` | workers/jobs/pattern_mining_job.py:133-144 | the events compared are all events of the type in the region, in order |
| `PatternMiner.AcceptedIsQualified` | workers/jobs/pattern_mining_job.py:146-190 | the decision on the counts is the condition on the events |
| `PatternMiner.WiderWindowKeepsPattern` | workers/jobs/pattern_mining_job.py:154-190 | a pattern accepted with one window is accepted, with no less confidence, with every wider one, through support, lift and bound |
| `PatternMiner.JoinTallies` | workers/jobs/pattern_mining_job.py:123-238 | counters and accepted patterns of two disjoint groups of candidates add up to those of their union |
| `PatternMiner.ExecutePatternMining` | workers/jobs/pattern_mining_job.py:94-257 | the run fails exactly when labelled and unlabelled events meet; otherwise it tries each ordered pair of types, region and window once, accepts exactly those that qualify by their events (support, lift above one, confidence), each once and with the identifiers of its supporting events, and accepted plus rejected is the number of candidates |
| `PatternMiner.RunJob` | workers/jobs/pattern_mining_job.py:94-257 | the run with its saves, on a table left by any earlier ones: a failed run saves nothing; otherwise each pattern that qualifies is saved once, in order, and its row is active exactly when no later pattern of the run is hashed from the same text |
| `PatternMiner.RawKeyIdentifies` | workers/jobs/pattern_mining_job.py:54-67 | for types without a colon the hashed texts agree exactly when types and window agree and the regions fold to the same label, colons in regions included |
| `PatternMiner.RawKeyAgreesExactlyWhen` | workers/jobs/pattern_mining_job.py:54-67 | for all types the hashed texts agree exactly when the windows and the joined types and folded region do |
| `PatternMiner.ColonConfusesKeys` | workers/jobs/pattern_mining_job.py:62-66 | any three texts joined by a colon in two ways give two candidates with the same text |
| `PatternMiner.SavedPatternIsActiveExactlyWhen` | workers/jobs/pattern_mining_job.py:202-238 | after a run's saves, on top of any earlier ones, a pattern's row is active exactly when no later pattern of the run is hashed from the same text |
| `PatternMiner.LastOfItsRegion` | workers/jobs/pattern_mining_job.py:202-238 | for types without a colon: exactly when no later one differs from it at most in a region that folds to the same label |
| `PatternFindings.Latest` | db/repository.py:765-775 | the highest version stored under a hash, or 0 |
| `PatternFindings.Retire` | db/repository.py:774-778 | deactivates every row of the hash and changes nothing else |
| `PatternFindings.Repository.SavePatternVersion` | db/repository.py:744-803 | the table after a save, and the row returned |
| `PatternFindings.VersionsAreConsecutive` | db/repository.py:764-803 | after every history of saves the k-th save of a hash has version k, and exactly the last one of each hash is active |
| `CalibrationError.CalculateCalibration` | eval/metrics/calibration.py:32-58 | the loop computes the binned error, and rejects an empty input and a bin count of zero as the code does |
| `CalibrationError.BinErrorIsExcess` | eval/metrics/calibration.py:54-56 | the contribution of a bin is the absolute excess of its confidences over its successes, divided by the number of predictions |
| `CalibrationError.ExactlyOneBin` | eval/metrics/calibration.py:42-49 | every confidence in the unit interval, both ends included, falls in exactly one bin |
| `CalibrationError.EceIsSumAbs` | eval/metrics/calibration.py:54-56 | the weighted mean of gaps is the sum over bins of the absolute excess confidence, divided by the number of predictions |
| `CalibrationError.EceBounds` | eval/metrics/calibration.py:38-58 | the error lies in the unit interval and is at least the gap between overall confidence and accuracy |
| `CalibrationError.SplittingNeverLowers` | eval/metrics/calibration.py:38-58 | splitting every bin into k equal bins never lowers the error |
| `RankFusion.Rank` | db/repository.py:399-400 | the one-based position of an element in a list |
| `RankFusion.ScoreAll` | db/repository.py:405-412 | the loop scores every chunk found by either search with the sum of its reciprocal ranks |
| `RankFusion.Fuse` | db/repository.py:396-427 | the evidence loop returns as many chunks as there are up to k, each once and found by a search, by falling score, with the score over the largest possible one |
| `RankFusion.ScoreIsEarned` | db/repository.py:399-412 | a score is what the chunk earns in the two lists, equally weighted: the reciprocal of 60 and its place, or nothing |
| `RankFusion.NormalisedInUnit` | db/repository.py:418-427 | a normalised score lies above 0 and at most at 1, so the clamp never acts |
| `RankFusion.NoOmittedOutscores` | db/repository.py:414-416 | no chunk left out scores more than one returned |
| `RankFusion.DominatingChunkComesFirst` | db/repository.py:399-416 | a chunk ranked better in every list that holds another one is returned ahead of it whenever that one is returned |
| `BreachScan.QueueDepthBreach` | workers/scaling_policy.py:176-200 | true exactly when some contiguous stretch is all in breach, has no gap above the limit and lasts long enough |
| `BreachScan.UtilizationBreach` | workers/scaling_policy.py:203-227 | the same for utilisation |
| `BreachScan.BreachMeans` | workers/scaling_policy.py:176-227 | a sample is in breach with a queue deeper than the threshold, or workers at least as busy as it |
| `BreachScan.HistoricalVerdict` | workers/scaling_policy.py:289-334 | the verdict is decided by the two stretches and the maxima, and a triggered verdict implies a crossed threshold |
| `BreachScan.SustainedCrosses` | workers/scaling_policy.py:289-334 | a sustained breach implies that a maximum is over its threshold |
| `Chunker.ChunkText` | workers/jobs/literature_ingestion_job.py:24-36 | terminates with the stated number of chunks, each at its offset; a non-positive size gives the text whole and an overlap not below the size gives one chunk |
| `Chunker.RebuildsTheText` | workers/jobs/literature_ingestion_job.py:24-36 | dropping the overlap from every later chunk and joining rebuilds the text |
| `Chunker.LosslessExactlyWhen` | workers/jobs/literature_ingestion_job.py:24-36 | for every text, size and overlap each character is in some returned chunk if and only if the size is not positive, or the text fits one chunk, or the overlap is at least zero and below the size |
| `Chunker.ChunksDetermineTextExactlyWhen` | workers/jobs/literature_ingestion_job.py:24-36 | under the same condition, and only then, the chunks tell the text from every other of its length |
| `Chunker.LargeOverlapKeepsOneChunk` | workers/jobs/literature_ingestion_job.py:34-35 | with an overlap of at least the size, everything behind the first chunk is dropped, however long the text |
| `RequirementsDrift.Parser.ParseFile` | scripts/check_requirements_drift.py:16-62 | terminates on every include graph; names, origins and the shared visited set are those of the files newly met, the winning line of each name being the last in reading order, and an error names a reachable culprit |
| `RequirementsDrift.PartialIncludes` | scripts/check_requirements_drift.py:43-48 | merging a nested file's result keeps the loop's account of names and files |
| `RequirementsDrift.WinnersAppend` | scripts/check_requirements_drift.py:47-47 | updating a dictionary with a nested result is reading the nested lines in place |
| `RequirementsDrift.LaterLineWins` | scripts/check_requirements_drift.py:36-57 | a declaration overrides everything read before it, an include overrides it with what wins in the target unless that file has been met, and any other line changes nothing |
| `RequirementsDrift.HarvestFromScratch` | scripts/check_requirements_drift.py:16-62 | from an empty visited set the files met are exactly those reachable from the root, and the names exactly those declared in them |
| `RequirementsDrift.ParseRoot` | scripts/check_requirements_drift.py:65-116 | parsing succeeds exactly when every reachable file exists and parses, and then yields the names declared reachably, each from the last such line of its file |
| `RequirementsDrift.Compare` | scripts/check_requirements_drift.py:128-152 | raises exactly when some specifier test does; otherwise says of each required name that it is missing, unpinned or drifted exactly when it is, once, and nothing of others |
| `RequirementsDrift.CheckDrift` | scripts/check_requirements_drift.py:119-152 | the report is empty exactly when the version kept from the winning lock line of every name reachably required lies within its effective range; then all are pinned exactly when each of those lock lines is a single equality |
| `RequirementsDrift.CheckIsSoundExactlyWhen` | scripts/check_requirements_drift.py:105-109 | whatever the specifier test, passing means pinned within range, if and only if each winning lock line of a required name is a single equality, or some name has no version so that nothing passes |
| `RequirementsDrift.LooseLockLinePasses` | scripts/check_requirements_drift.py:105-109 | `foo>=2.0` in the lock file passes for `foo>=1`, as does every lock line of one bound other than `==` and `===` whose version is in range, although nothing is pinned |
| `Normalisation.NormalizeIsPrimitiveExactlyWhen` | orchestrator/graph/checkpointer.py:31-53 | where the function looks, no callable and no set is left and keys are text without repeats, whatever the value; at any depth this holds if and only if it does inside every surviving object of another kind, such as a frozenset or a dataclass instance |
| `Normalisation.NormalizeHasFormExactlyWhen` | orchestrator/graph/checkpointer.py:31-53 | the general theorem, with or without stream writers forbidden and with or without the inside of other objects: the result has the form exactly when the surviving parts of the value meet it |
| `Normalisation.OpaqueKeepsItsCallable` | orchestrator/graph/checkpointer.py:53-53 | a callable inside such an object is kept |
| `Normalisation.NormalizeIsIdempotentExactlyWhen` | orchestrator/graph/checkpointer.py:31-53 | normalising again changes nothing, under the same condition and only then |
| `Normalisation.TwicePassedIsNormalExactlyWhen` | orchestrator/graph/checkpointer.py:61-66 | what is stored, normalised by the saver and again by the serialiser, is settled: further passes change nothing; it is in normal form at any depth exactly when the objects of other kinds that survive are |
| `Normalisation.DisguisedWriterNeedsTwoPasses` | orchestrator/graph/checkpointer.py:35-46 | a key that is not a string and prints as `stream_writer` slips through one pass and is dropped by the second |
| `Normalisation.ItemsKeepOrder` | orchestrator/graph/checkpointer.py:47-52 | lists are normalised element by element, in order, callables dropped |
| `Normalisation.NormalizedKinds` | orchestrator/graph/checkpointer.py:31-53 | what each kind of value becomes: tuples stay tuples, lists and sets become lists, both of exactly their items that are not callables, normalised, in order; a callable becomes none, and everything else stays |
| `Normalisation.NormalizedEntry` | orchestrator/graph/checkpointer.py:35-46 | a normalised mapping has a key exactly when some entry prints as it whose key is not the stripped string and whose value is no callable, with the normalised value of the last such entry |
| `Normalisation.NormalizedLookup` | orchestrator/graph/checkpointer.py:35-46 | looking up a key after normalisation gives the normalised value of the last kept entry that prints as it |
| `Normalisation.FrameRoundTrip` | orchestrator/graph/checkpointer.py:71-79 | a framed payload splits back into tag and payload, whatever colons the payload holds |
| `Normalisation.UnframeWithoutTag` | orchestrator/graph/checkpointer.py:75-79 | data without a colon is taken whole as msgpack |
| `CheckpointStore.RenderInjective` | orchestrator/graph/checkpointer.py:209-246 | different addresses never share a Redis key |
| `CheckpointStore.WritesScan` | orchestrator/graph/checkpointer.py:167-173 | the prefix scan for writes meets only write batches of that thread and checkpoint |
| `CheckpointStore.PointScan` | orchestrator/graph/checkpointer.py:270-271 | the prefix scan for a thread meets only its checkpoints, and the rest of the key is the identifier |
| `CheckpointStore.TaskOfKey` | orchestrator/graph/checkpointer.py:173-173 | the last part of a write key is the task it was stored under |
| `CheckpointStore.Saver.Put` | orchestrator/graph/checkpointer.py:188-224 | stores the twice normalised checkpoint and moves the latest pointer, or fails without a thread and stores nothing |
| `CheckpointStore.Saver.PutWrites` | orchestrator/graph/checkpointer.py:226-251 | replaces the batch of that task by exactly its writes that are neither the stream writer's nor callables or type objects, in order, each twice normalised under its channel; or fails without a thread or checkpoint |
| `CheckpointStore.WholeBatchComesBack` | orchestrator/graph/checkpointer.py:239-244 | a batch without such writes is kept whole, write by write |
| `CheckpointStore.Saver.PendingWrites` | orchestrator/graph/checkpointer.py:166-178 | collects each task's stored batch whole, in order and once, and nothing else |
| `CheckpointStore.Saver.GetTuple` | orchestrator/graph/checkpointer.py:136-186 | answers exactly when the wanted, or the latest, checkpoint exists, with its content and its pending writes |
| `CheckpointStore.HistoryIsRemembered` | orchestrator/graph/checkpointer.py:136-251 | after any history the store holds each thread's latest pointer, each checkpoint with its metadata and configuration as last put, twice normalised, and exactly the ordinary writes of the last batch of each task |
| `CheckpointStore.ReadBack` | orchestrator/graph/checkpointer.py:136-251 | running any history through the saver and reading a checkpoint by name, or the latest without one, finds it exactly when it was put, with checkpoint, metadata and configuration as last put, twice normalised, and of each task exactly the ordinary writes of its last batch, in order |
| `CheckpointStore.Saver.Gather` | orchestrator/graph/checkpointer.py:269-311 | the scan collects every checkpoint of the thread once, with its contents and pending writes |
| `CheckpointStore.Saver.List` | orchestrator/graph/checkpointer.py:253-337 | a page is taken from the thread's checkpoints, complete with contents and pending writes and newest first, after the cursor and up to the limit |
| `CheckpointStore.Page` | orchestrator/graph/checkpointer.py:319-337 | the counter-and-flag loop yields the items after the cursor, up to the limit; an empty cursor is none, and a limit of zero no limit |
| `CheckpointStore.TurnPages` | orchestrator/graph/checkpointer.py:319-337 | following cursors with any positive limit through one listing sees every item once, in order, if no page ends with an empty identifier; if one does, that cursor starts over and the pages never stop |
| `CheckpointStore.ListingIsUnique` | orchestrator/graph/checkpointer.py:313-317 | with distinct timestamps every scan and sort of a thread lists the same checkpoints in the same order |
| `CheckpointStore.OldListingIsSuffix` | orchestrator/graph/checkpointer.py:269-317 | while only newer checkpoints are added, the listing a thread had is the end of every later listing |
| `CheckpointStore.WalkPages` | orchestrator/graph/checkpointer.py:253-337 | with distinct timestamps a client that pages through the store with any positive limit, each call scanning anew and others putting newer checkpoints and writes in between, visits every checkpoint the thread had at the start once, newest first, as it was; without writes in between it also gets each one's pending writes |

## Left out

- HTTP clients, webhook delivery, MCP servers, object storage, database dumps, CLI, SDK and admin interface: input and output.
- Authentication, tokens, password hashing and settings validation: library wrappers and single checks.
- The replanning loop and the fan-out coordinator of the orchestrator: little logic of their own.
- The API-stability script: many branches without a law that holds across them.
- The description text, rounding and timing of a saved pattern.
- The scores of candidate parameters, RMSE and standard deviation: the gate is proved for every scoring function, the bands for every deviation that is not negative.
- Sorting and percentile choice in the ENSO fit, and its mismatch-counting validation loop: the thresholds are proved ordered for every list of values.
- Pool-size recommendation in the scaling policy: one expression.
- PostGIS predicates, embeddings and full-text ranking: anchor sets and ranked lists are arbitrary inputs.
- JSON, YAML and msgpack encoding, logging, metrics and the waits between retries.
- Expiry of checkpoint keys, and I/O errors in the parameter loader.
- Threads interleaving inside the alert job or the checkpoint saver.
