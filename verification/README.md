# Verified model of a SQL-over-HTTP workflow proxy

A Dafny model of the seven parts of the proxy whose correctness spans many calls, runs or
interleavings, with proofs over all inputs.

- **Condition aliases** (`Expr`, `AliasOrder`, `AliasExpand`, `AliasChecks`,
  `StepReferences`, `ExprNodes`). Named conditions may refer to each other. They are ordered by
  Kahn's algorithm, expanded by tree patching and checked for unsafe divisions and
  forward references to steps. The parser is an arbitrary function, and operators, member access
  and calls have an arbitrary semantics, so the meaning-preservation theorem holds for any
  expression library.
- **Rate limiter** (`RatePool`, `RateCleanup`, `RateSequential`, `RateRace`, `RateWindow`,
  `RateAccounting`, `Decimal`). Token buckets over exact integer time with periodic removal of
  stale ones, three clock readings to a request; the same with buckets as objects and requests that
  overlap; and the limiter's pools and counters as a transition system of threads, every instruction
  inside a locked section a step of its own.
- **Metrics** (`Metrics`, `MetricsTotals`). `Record` as a transition system of calls with program
  counters: double-checked endpoint creation, atomic additions and two compare-and-swap loops.
- **Cache** (`CacheState`, `Cache`, `CacheInterleaving`, `CacheRace`, `MapSum`). Size accounting and
  oldest-first eviction, sequentially as a class, as interleaved instructions of locked sections,
  and as interleaved sections of concurrent calls. The store behind it may refuse any entry.
- **Public ids** (`PublicId`). XTEA, fixed-width base 62 and a prefix.
- **SQL text** (`Scanner`, `SqlText`, `SqlTokens`, `SqlBatch`, `SqlRouting`, `SqlCase`, `Params`).
  The literal-stripping scanner, write classification, and named parameters in the three drivers.
- **Executor** (`Executor`, `ExecutorRuns`). Workflow runs and block iterations; step execution,
  conditions and cancellation are answered by an arbitrary host.

`Collections` holds facts on sequences and sets, `Options` the type of a value that may be missing.

`dafny verify dfyconfig.toml` checks everything.

## What does not hold

Where the code does less than its comments say, the model keeps the code, shows a failing case and
states when the promise is kept.

- The comment at internal/cache/cache.go:267 says that the limit is checked under the lock to
  prevent a race. Eviction and insertion are separate sections, so two concurrent calls can exceed
  the limit without bound (`NoBoundUnderConcurrency`). For entries that fit alone the limit holds
  exactly when calls do not overlap (`LimitHoldsIffAlone`), and without overlap exactly when every
  entry fits alone (`RunWithinLimitIffEntriesFit`).
- The comment at internal/sqlutil/sqlutil.go:157 calls permission checking a superset of routing.
  It is not (`WithRoutesWithoutPermission`). The exceptions are exactly the statements that start
  with WITH, match keywords only at the end of longer names, and have no mutating keyword that
  routing does not look for (`RoutedWithoutPermissionIff`).
- Validation of step references follows aliases one level deep, and takes `steps[x]` for a
  reference to a step called `x`, although a comment calls such access dynamic
  (`NestedAliasEscapesValidation`, `AliasIndexEscapesValidation`). `GatheringExactIff` and
  `AcceptedLookBackIff` say when validation is exact and when it is safe.
- The rate bound, burst plus rate times the length of the window, does not survive overlapping
  requests: one may take its token from a bucket that was removed while it held it
  (`StraysGetThrough`). In every interleaving it holds exactly when there is a single thread whose
  buckets refill in time (`WithinRateIff`); with more threads and buckets that refill in time it is
  exceeded by at most as many requests as do so (`ExcessIsStrayed`).
- Removing stale buckets can change decisions. A request reads the clock for the time of last use
  before it reads it for its token; where every request draws on the bucket in the pool, decisions
  change, and more gets through than burst and rate, exactly when a burst takes longer to refill
  than ten minutes and a nanosecond less the gap between the two readings (`CleanupInvisibleIff`,
  `WindowBoundIff`). With burst equal to 600 times the rate a gap of two nanoseconds is enough
  (`RefillCondition`). For requests one after another the exact condition is weaker
  (`SequentialInvisibleIff`).
- The limiter's totals lose counts exactly when a named pool has the name of an inline pool
  (`ConservedIffNoCollision`); configuration validation forbids such names.
- A batch is not always classified as the disjunction of its parts: a first part that does not end
  in code can hide the second, unless it needs write access by itself (`BatchDistributesIff`).

## Model

| member | source | states |
|---|---|---|
| `Expr.PatchIsOverlay` | internal/workflow/compile.go:473-484 | evaluating a patched tree equals evaluating the unpatched tree with every replaced identifier bound to the value of its replacement, for any operator semantics |
| `Expr.EvalAgrees` | internal/workflow/compile.go:473-496 | evaluation depends on nothing but the identifiers that occur in the tree |
| `Expr.PatchAgrees` | internal/workflow/compile.go:473-484 | two replacement maps that agree on the identifiers of a tree patch it alike |
| `Expr.PatchFixed` | internal/workflow/compile.go:481-483 | a tree with no identifier to replace is left as it is |
| `Expr.PatchIdents` | internal/workflow/compile.go:473-484 | every identifier after a patch was there and has no replacement, or comes from the replacement of one that was: replacements are not walked again |
| `AliasOrder.AliasRefFinder.Visit` | internal/workflow/compile.go:505-515 | the visitor adds an identifier node's name exactly when it is an alias, and lists no name twice |
| `AliasOrder.AliasRefFinder.Walk` | internal/workflow/compile.go:505-531 | after the walk the collected names are exactly the alias names among the identifiers of the tree |
| `ExprNodes.IdentIff` | internal/workflow/compile.go:505-515 | the identifiers of a tree are the names of the identifier nodes that occur anywhere in it, so an alias is found wherever it stands |
| `AliasOrder.ExtractAliasRefs` | internal/workflow/compile.go:519-531 | fails exactly on syntax errors; otherwise the references, without repetition, are the identifiers that are aliases |
| `AliasOrder.BuildDeps` | internal/workflow/compile.go:545-553 | reports an alias that does not parse, and otherwise builds exactly the dependency graph of the parsed sources |
| `AliasOrder.CountDependents` | internal/workflow/compile.go:555-565 | the in-degree of every alias is the number of aliases that depend on it |
| `AliasOrder.InitialQueue` | internal/workflow/compile.go:567-573 | the queue starts with exactly the aliases nobody depends on, each once |
| `AliasOrder.PopKeepsDraining` | internal/workflow/compile.go:576-580 | processing the head of the queue keeps the loop invariant, its dependencies now waiting for their decrement |
| `AliasOrder.DecrementKeepsDraining` | internal/workflow/compile.go:582-588 | one decrement, with queueing at zero, keeps it: in-degrees count the unprocessed dependents, and what is at zero is processed or queued exactly once |
| `AliasOrder.ReleaseAll` | internal/workflow/compile.go:582-588 | the inner loop restores the invariant after a pop |
| `AliasOrder.Drain` | internal/workflow/compile.go:575-589 | the queue loop terminates with every dependent processed before what it depends on and nothing releasable left |
| `AliasOrder.Reverse` | internal/workflow/compile.go:603-606 | the swap loop reverses the sequence |
| `AliasOrder.StuckIsLargestTrap` | internal/workflow/compile.go:591-601 | what is left with a positive in-degree is non-empty, contains a cycle, and is the largest set in which every alias is awaited by a member |
| `AliasOrder.TrapHasCycle` | internal/workflow/compile.go:591-601 | a non-empty set in which every alias is awaited by a member contains a reference cycle (pigeonhole on backward paths) |
| `AliasOrder.TopoOrderHasNoCycle` | internal/workflow/compile.go:533-534 | an order with dependencies first exists only without cycles |
| `AliasOrder.ReversedDrainIsTopo` | internal/workflow/compile.go:603-608 | the reversed drain is a permutation of the alias names with dependencies first |
| `AliasOrder.TopoSortAliases` | internal/workflow/compile.go:535-609 | succeeds if and only if every alias parses and none reaches itself, and then returns a topological permutation, whatever order the maps are ranged over; a circularity error names exactly the largest trapped set |
| `AliasExpand.BuildAliasASTs` | internal/workflow/compile.go:613-635 | fails exactly if some ordered alias does not parse; otherwise returns the fold that patches each source with the trees expanded before it, the empty-map shortcut included |
| `AliasExpand.ExpandAllIsExpansion` | internal/workflow/compile.go:613-635 | along a topological order that fold yields trees that are each their source with all aliases replaced, and that mention no alias |
| `AliasExpand.CompileCondition` | internal/workflow/compile.go:487-496 | an alias error exactly when some alias does not parse or is circular, a condition error exactly when then the condition does not parse; otherwise the tree is the condition with every alias expanded, and it compiles exactly when the library's boolean type check accepts that tree |
| `AliasExpand.OrderExists` | internal/workflow/compile.go:533-534 | every acyclic alias map has a dependencies-first order |
| `AliasExpand.ExpansionSolves` | internal/workflow/compile.go:613-635 | the values of the expanded trees solve the equations that give each alias the value of its source |
| `AliasExpand.SolutionUnique` | internal/workflow/compile.go:613-635 | for acyclic aliases nothing else solves them |
| `AliasExpand.ExpansionPreservesMeaning` | internal/workflow/compile.go:473-496 | for every acyclic alias map, condition, environment and operator semantics, the patched condition evaluates as the condition does when each alias denotes the recursively evaluated value of its source |
| `AliasExpand.SecondPassChangesNothing` | internal/workflow/compile.go:487-496 | an expanded condition mentions no alias, so another patch pass changes nothing |
| `AliasExpand.ExpansionUnique` | internal/workflow/compile.go:613-635 | the expanded trees do not depend on which topological order was used |
| `AliasChecks.DivisionValidator.Visit` | internal/workflow/compile.go:645-671 | an error is added exactly at a "/" node whose divisor is not a non-zero number literal |
| `AliasChecks.DivisionValidator.Walk` | internal/workflow/compile.go:645-690 | no error is added exactly when every "/" node of the tree is safe |
| `ExprNodes.SafeIff` | internal/workflow/compile.go:645-671 | the trees that pass are exactly those in which every "/" node that occurs anywhere divides by an integer or floating-point literal other than zero |
| `AliasChecks.ValidateDivisions` | internal/workflow/compile.go:677-690 | accepts exactly the sources that parse to a tree with only safe divisions |
| `AliasChecks.PatchKeepsDivisionsSafe` | internal/workflow/compile.go:473-484 | replacing identifiers by safe trees keeps a tree safe, because a divisor is never an identifier |
| `AliasChecks.ExpansionKeepsDivisionsSafe` | internal/workflow/validate.go:72-77 | if the condition and every alias source pass the check, every "/" of the fully expanded condition has a non-zero literal divisor |
| `AliasChecks.SafeTreesNeverDivideByZero` | internal/workflow/validate.go:547-550 | a safe tree evaluates alike under any two semantics of "/" that agree on non-zero number divisors: it never divides by anything else |
| `StepReferences.StepRefFinder.Visit` | internal/workflow/compile.go:698-733 | adds the step named by a member access on the identifier `steps`, by string literal or by identifier, unless empty |
| `StepReferences.StepRefFinder.Walk` | internal/workflow/compile.go:698-748 | collects exactly the step references of the tree |
| `ExprNodes.StepRefIff` | internal/workflow/compile.go:698-733 | a step is referred to exactly if `steps` indexed by its name, as a string literal or as an identifier, occurs anywhere in the tree, and the name is not empty |
| `StepReferences.ExtractStepRefs` | internal/workflow/compile.go:737-748 | fails exactly on syntax errors; otherwise the references are those of the tree, without repetition |
| `StepReferences.GatherStepRefs` | internal/workflow/validate.go:558-594 | gathers exactly the step references of the condition and of the aliases it mentions directly, skipping aliases that do not parse |
| `StepReferences.ValidateStepRefs` | internal/workflow/validate.go:557-607 | among the references gathered, reports as unknown exactly those that are no step, as self references exactly those of the current index and as forward references exactly those of a larger one, once each; reports nothing if and only if the source does not parse or every gathered reference is a known step of smaller index |
| `StepReferences.ExpandedIsGathered` | internal/workflow/validate.go:571-594 | every step the expanded tree names was gathered, if no alias the tree mentions names more once expanded |
| `StepReferences.GatheredIsExpanded` | internal/workflow/validate.go:571-594 | every gathered step is named by the expanded tree, if no alias the tree mentions names less once expanded |
| `StepReferences.GathersAllIff` | internal/workflow/validate.go:557-594 | no step of the expanded condition is missed, for every condition that indexes `steps` by no alias outside a given set, if and only if no alias stands for `steps`, expanding one names no step its source does not, and the aliases of the set name as indexes nothing but themselves besides |
| `StepReferences.GathersOnlyIff` | internal/workflow/validate.go:557-594 | nothing else is gathered if and only if no alias is called `steps` and none names less once expanded |
| `StepReferences.GatheringExactIff` | internal/workflow/validate.go:557-594 | what is gathered equals the references of the expanded condition, for every condition that indexes `steps` by no alias outside a given set, if and only if the aliases name alike; with all aliases in the set this covers every condition |
| `StepReferences.AcceptedLookBackIff` | internal/workflow/validate.go:596-606 | every accepted condition, once expanded, names only known steps of strictly smaller index, whatever the steps, if and only if no alias names more once expanded |
| `StepReferences.AcceptedLookBackIffStepsFlow` | internal/workflow/validate.go:571-606 | where no alias is called `steps` and no source indexes `steps` by an alias: every accepted condition without such an index looks back, if and only if no alias is the bare `steps` and every alias names the steps of the aliases it mentions |
| `StepReferences.GatheringExactIffSourcesFlow` | internal/workflow/validate.go:571-594 | for all conditions at once and read off the sources: exact if and only if no alias is called `steps` or is the bare `steps`, every alias names the steps of the aliases it mentions, and every alias is its own name as a string or names a step of its own name |
| `StepReferences.GatheringExactIffStepsFlow` | internal/workflow/validate.go:571-594 | for the conditions that do not index `steps` by an alias, where no alias source does: exact if and only if the first two hold |
| `StepReferences.FlatAliasesAreExact` | internal/workflow/validate.go:571-606 | aliases that do not refer to one another, none of them `steps` or the bare `steps`: the gathering is exact for every condition that does not index `steps` by an alias, and an accepted one looks back |
| `StepReferences.NestedAliasEscapesValidation` | internal/workflow/validate.go:583-593 | one alias level is followed: a nested alias hides a forward reference from validation |
| `StepReferences.AliasIndexEscapesValidation` | internal/workflow/compile.go:715-727 | `steps[a]` with `a` an alias for the identifier `later`: the name of the alias is checked, not what it stands for |
| `RatePool.Pool.GetOrCreateBucket` | internal/ratelimit/ratelimit.go:260-284 | returns the bucket of the key, a full new one if there is none, and stores it without touching any other |
| `RatePool.Pool.MaybeCleanup` | internal/ratelimit/ratelimit.go:287-314 | when more than five minutes have passed, removes exactly the buckets last used more than ten minutes ago in whole seconds; otherwise changes nothing |
| `RatePool.CleanupIs` | internal/ratelimit/ratelimit.go:287-314 | in numbers: due when no cleanup was made or more than 300 s have passed since, and then exactly the buckets stay whose second of last use is at or after the second 600 s ago |
| `RatePool.Pool.Allow` | internal/ratelimit/ratelimit.go:206-246 | the decision is whether a token is there at the second clock reading; the new pool state is the reference step, with the first reading as time of last use and the third for the cleanup; a denied request learns the wait |
| `RatePool.AdmitsIff` | internal/ratelimit/ratelimit.go:206-218 | a request is admitted exactly if the burst is positive and the bucket, if there is one, has filled up to one token by then |
| `RatePool.UseDraws` | internal/ratelimit/ratelimit.go:206-226 | an admitted request takes exactly one token from the level reached by then, a denied one takes none; either marks the second of its first reading |
| `RatePool.Pool.Reset` | internal/ratelimit/ratelimit.go:429-437 | empties the pool and returns how many buckets there were |
| `RatePool.Pool.ResetKey` | internal/ratelimit/ratelimit.go:440-449 | removes the bucket of one key and says whether it existed |
| `RatePool.WaitingAsToldIsEnough` | internal/ratelimit/ratelimit.go:221-226 | a denied client that waits the advertised time finds a token, truncation to seconds included |
| `RatePool.WaitIsTight` | internal/ratelimit/ratelimit.go:221-226 | the advertised wait is a positive number of whole seconds, and a second less gives at most one token |
| `RatePool.StaleIsIdle` | internal/ratelimit/ratelimit.go:305-311 | a bucket judged stale in truncated seconds has not been drawn on for more than 600 s, less the gap between the two clock readings of a request |
| `RatePool.DecisionsAgree` | internal/ratelimit/ratelimit.go:206-314 | if idle buckets refill in the time they are kept, less the gap, a cleaning pool decides every request of every run with such gaps as one that never cleans, where every request draws on the bucket in the pool |
| `RateCleanup.CleanupShows` | internal/ratelimit/ratelimit.go:206-313 | otherwise there is a run with such gaps whose last request is allowed with cleanup and denied without |
| `RateCleanup.CleanupInvisibleIff` | internal/ratelimit/ratelimit.go:206-314 | on runs in which every request draws on the bucket in the pool, for every bound g on the gap between the readings for `lastUsed` and for the token: cleanup changes no decision if and only if a burst refills in 600 s plus one nanosecond minus g |
| `RateCleanup.RefillCondition` | internal/ratelimit/ratelimit.go:208-211 | in whole numbers: burst <= 600 * rps for gaps of at most a nanosecond (rates below 10^9), burst < 600 * rps for longer gaps with rps * (g - 1) up to one second, and never for gaps over ten minutes |
| `RatePool.SpentAndLeft` | internal/ratelimit/ratelimit.go:206-226 | tokens spent plus tokens left in a window never exceed a full bucket plus the refill of the window |
| `RatePool.WindowBound` | internal/ratelimit/ratelimit.go:206-314 | with cleanup, on runs in which every request draws on the bucket in the pool, the requests allowed for one key in a window of length T number at most burst + rps * T, if idle buckets refill in time |
| `RateCleanup.WindowBoundIff` | internal/ratelimit/ratelimit.go:206-314 | on runs in which every request draws on the bucket in the pool, that bound holds for all windows of all keys with gaps up to g if and only if idle buckets refill in time |
| `RateSequential.SequentialDecisionsAgree` | internal/ratelimit/ratelimit.go:206-314 | with requests one after another, cleanup changes no decision if buckets refill in time for that: burst tokens plus what the gap yields (at most one token) in 600 s and a nanosecond, and one token in that time less the gap |
| `RateSequential.SequentialCleanupShows` | internal/ratelimit/ratelimit.go:206-314 | otherwise there is a run of requests one after another whose last decision depends on cleanup |
| `RateSequential.SequentialInvisibleIff` | internal/ratelimit/ratelimit.go:206-314 | with requests one after another, cleanup changes no decision on any run with gaps up to g if and only if buckets refill in time for that |
| `RateRace.StepKeepsInv` | internal/ratelimit/ratelimit.go:206-314 | with buckets as objects and the sections of requests interleaved, every step keeps: pool entries and threads refer to buckets of their key, and no bucket is drawn on later than the gap after its last mark |
| `RateRace.TakeDraws` | internal/ratelimit/ratelimit.go:213-226 | the section that takes the token draws exactly one, counted once, from a bucket that has one, and leaves any other as it is |
| `RateRace.LeaveCleans` | internal/ratelimit/ratelimit.go:287-314 | the section that cleans does so after more than 300 s, and keeps exactly the buckets whose second of last use is at or after the second 600 s ago |
| `RateRace.StepBudget` | internal/ratelimit/ratelimit.go:260-314 | tokens taken from buckets in the pool plus tokens left grow by at most the refill, across creation, marking, taking and removal |
| `RateRace.ExcessIsStrayed` | internal/ratelimit/ratelimit.go:206-314 | in every interleaving the requests allowed for one key in a window exceed burst + rps * T by at most the number of them that took their token from a bucket removed while they held it |
| `RateRace.StraysGetThrough` | internal/ratelimit/ratelimit.go:260-314 | for every number of requests up to the burst and any rate and gap there is a run in which, at one moment, a burst and all of those get through: the excess is attained |
| `RateWindow.LoneStep` | internal/ratelimit/ratelimit.go:206-314 | with a single thread every step keeps: the bucket it holds is in the pool, and every bucket is full by the time it can be found stale |
| `RateWindow.AloneWithinRate` | internal/ratelimit/ratelimit.go:206-314 | a single thread whose buckets refill in time keeps every window of every key within burst and rate |
| `RateWindow.AloneOverRate` | internal/ratelimit/ratelimit.go:206-314 | a single thread whose buckets do not has a run that goes over: by two bursts, by a token gained in the gap, by tokens drawn as they come back, or by one token drawn at the end of the gap |
| `RateWindow.WithinRateIff` | internal/ratelimit/ratelimit.go:206-314 | in every interleaving every window of every key keeps within burst and rate, if and only if there is no thread, or a single one and burst tokens plus what the gap yields (at most one token) refill in 600 s and a nanosecond, and one token in that time less the gap |
| `RateWindow.WithinRateIffAlone` | internal/ratelimit/ratelimit.go:206-314 | where buckets refill in time for overlapping requests, the bound holds in every interleaving if and only if there is at most one thread |
| `RateAccounting.SharedPoolIff` | internal/ratelimit/ratelimit.go:139-145 | two inline limits have the same pool key if and only if rate, burst and effective key template agree, the template of a limit without one being the client address |
| `RateAccounting.New` | internal/ratelimit/ratelimit.go:68-112 | fails at the first configuration with a fault and names its first fault (missing or repeated name, rate, burst, missing or invalid key template); otherwise every configuration has a name, a positive rate and burst and a key template, and the limiter has a pool with these under each name and zero counters for it |
| `RateAccounting.NoFaultIff` | internal/ratelimit/ratelimit.go:78-95 | a configuration is accepted exactly if its name is new and not empty, its rate and burst are positive and its key template is there and valid |
| `RateAccounting.LookupAnswers` | internal/ratelimit/ratelimit.go:149-199 | a limit that names a pool is served by that pool or answered with an error; one with a positive rate and burst by an inline pool; any other is not limited |
| `RateAccounting.VerdictIsCounted` | internal/ratelimit/ratelimit.go:213-246 | what the bucket decided is what the call answers, and is counted once in the totals and once for the pool |
| `RateAccounting.StepKeepsStructure` | internal/ratelimit/ratelimit.go:149-247 | every step of every thread keeps: one lock holder, pools found where threads found them, inline pools spelled out by their keys, counters for exactly the registered pools |
| `RateAccounting.RegisterKeepsBooks` | internal/ratelimit/ratelimit.go:179-192 | registering an inline pool's counters replaces none, so the books stay balanced |
| `RateAccounting.CountPoolKeepsBooks` | internal/ratelimit/ratelimit.go:228-241 | counting the total and then the pool keeps both the balance and each pool's exact count |
| `RateAccounting.AccountsHoldWheneverFree` | internal/ratelimit/ratelimit.go:228-241 | in every interleaving, whenever the lock is free TotalAllowed and TotalDenied are the sums over pools and each counter is the number of answers of that pool |
| `RateAccounting.AnswersAre` | internal/ratelimit/ratelimit.go:228-241 | the number of answers of a pool is the number of finished calls that pool answered so |
| `RateAccounting.OnePoolPerConfiguration` | internal/ratelimit/ratelimit.go:163-194 | two calls at any two moments of any run are served by the same inline pool object if and only if rate, burst and effective key template agree, whatever the pools are called |
| `RateAccounting.ReservedPrefixAvoidsCollisions` | internal/validate/validate.go:293-296 | the validated rule that no named pool starts with `_inline:` rules out name collisions |
| `RateAccounting.CollisionLosesCounts` | internal/ratelimit/ratelimit.go:180-191 | a named pool with an inline pool's name loses its counts when the inline limit is first used |
| `RateAccounting.ConservedIffNoCollision` | internal/ratelimit/ratelimit.go:163-194 | the totals are the sums over pools in every run whenever the lock is free, if and only if no named pool has the name of a possible inline pool |
| `Metrics.NextKeepsInv` | internal/metrics/metrics.go:399-454 | every step of every call keeps: one data object per endpoint, every counter equal to the contributions so far, extremes attained and not beaten by any call past its loop |
| `Metrics.OneDataPerEndpoint` | internal/metrics/metrics.go:546-571 | in every interleaving no two data objects belong to one endpoint, and two calls work on the same object if and only if they name the same endpoint |
| `Metrics.QuiescentIsExact` | internal/metrics/metrics.go:421-454 | with no call in flight every endpoint counter is exactly the total over the recorded requests, max and min are the largest and smallest of the durations and of their initial values, and count * min <= total <= count * max |
| `MetricsTotals.QuiescentTotals` | internal/metrics/metrics.go:405-432 | with no call in flight an endpoint has counted its requests, those with an error text and those with status 504, and added up their rows, durations and query times |
| `MetricsTotals.QuiescentGlobals` | internal/metrics/metrics.go:405-412 | with no call in flight the global counters are the numbers of all requests, of those with an error text and of those with status 504 |
| `MetricsTotals.RequestsForAre` | internal/metrics/metrics.go:419-421 | the requests an endpoint is charged with are those recorded under its name, as often as they were |
| `Metrics.GlobalCountIsSumOfEndpoints` | internal/metrics/metrics.go:405-432 | with no call in flight the global request count is the sum over endpoints and the number of calls |
| `Metrics.FailedSwapMeansProgress` | internal/metrics/metrics.go:434-454 | a compare-and-swap fails only because the extreme got strictly better, set by a call that has left its loop |
| `Metrics.StepUsesOneUp` | internal/metrics/metrics.go:434-454 | every step, a failed swap included, lowers a bound on the steps the calls in flight can still take |
| `Metrics.SchedulesAreBounded` | internal/metrics/metrics.go:434-454 | lock freedom: every schedule of the calls in flight ends within that bound, however often swaps fail |
| `Cache.EndpointCache.Delete` | internal/cache/cache.go:321-339 | a tracked key leaves the map, its size leaves the total and one eviction is counted; an untracked key changes nothing |
| `Cache.EndpointCache.KeysByAge` | internal/cache/cache.go:497-513 | all keys, each once, oldest first, ties in any order |
| `Cache.EndpointCache.DeleteUntilFreed` | internal/cache/cache.go:515-523 | deletes a prefix of the list that frees enough, or all of it, and no shorter prefix would do |
| `Cache.EndpointCache.EvictFromEndpoint` | internal/cache/cache.go:489-524 | evicts a shortest oldest-first prefix that frees what is needed, or everything: without the last victim too little would be freed, and no key that stays is older than a victim |
| `Cache.EndpointCache.Insert` | internal/cache/cache.go:301-315 | records the entry, replacing the size of an earlier one of the same key |
| `Cache.EndpointCache.Set` | internal/cache/cache.go:259-318 | with no limit, or if the size and the entry are within it, every other key stays with its metadata and no eviction is counted; otherwise exactly the victims of a shortest oldest-first eviction for the size of the entry go and are counted; an entry the store took is recorded and counted, and the accounts stay exact |
| `Cache.EndpointCache.Clear` | internal/cache/cache.go:344-364 | deletes a snapshot of the keys one by one, counting each as evicted |
| `Cache.EndpointCache.ClearAll` | internal/cache/cache.go:376-379 | drops all keys and zeroes the size, counting no eviction |
| `Cache.Cache.RegisterEndpoint` | internal/cache/cache.go:141-172 | a disabled endpoint changes nothing, an invalid schedule is an error and changes nothing; otherwise fresh bookkeeping with the limit in bytes takes the name and the others stay |
| `Cache.Cache.Set` | internal/cache/cache.go:259-318 | works on the named endpoint if registered and leaves all others alone |
| `Cache.Cache.ClearAll` | internal/cache/cache.go:367-382 | clears every endpoint |
| `CacheState.EvictionMakesRoom` | internal/cache/cache.go:515-523 | freeing only the size of the new entry suffices: what is left plus the entry is no more than before, or nothing is left |
| `CacheState.SetEvictsIffFull` | internal/cache/cache.go:267-315 | the same of every step of a run: `Set` evicts exactly if the limit is positive and the size and the entry exceed it |
| `CacheState.SetKeepsLimit` | internal/cache/cache.go:259-318 | an entry that fits alone never takes the endpoint above the larger of its limit and its former size; an endpoint within its limit stays so if and only if the entry was refused or fits alone |
| `CacheState.StepKeepsAccounts` | internal/cache/cache.go:259-382 | Set, Delete, Clear and ClearAll keep the size equal to the sum over keys and keys plus evictions at most sets; an endpoint within a positive limit stays within it exactly when the operation stores nothing that does not fit alone |
| `CacheState.RunWithinLimitIffEntriesFit` | internal/cache/cache.go:259-318 | over every sequential run the size stays within a positive limit if and only if every accepted entry fits under it alone |
| `CacheInterleaving.NextKeepsInv` | internal/cache/cache.go:301-381 | every instruction of every locked section keeps the accounts up to what that section still owes |
| `CacheInterleaving.AccountsHoldWheneverFree` | internal/cache/cache.go:301-338 | in every interleaving, whenever the lock is free sizeBytes is the sum over the keys map and every set is a key, an eviction, an overwrite or a dropped key; sizeBytes is never negative, lock or no lock |
| `CacheInterleaving.RecordSection` | internal/cache/cache.go:301-315 | the section run to its end stores the key with its size, corrects the total by the size it replaces and counts one set |
| `CacheInterleaving.RemoveSection` | internal/cache/cache.go:321-339 | run to its end it takes out the key and its size and counts an eviction, if the key was there |
| `CacheInterleaving.ResetSection` | internal/cache/cache.go:376-379 | run to its end it drops all keys and zeroes the size, counting no eviction |
| `CacheRace.ReachableIsAccounted` | internal/cache/cache.go:259-382 | in every interleaving of the sections of concurrent Set, Delete, Clear and ClearAll calls the accounts hold |
| `CacheRace.ChecksLimit` | internal/cache/cache.go:267-279 | the section that checks changes nothing, and victims are listed next exactly if the limit is positive and the size and the entry exceed it |
| `CacheRace.RaceGainsOne` | internal/cache/cache.go:267-279 | two Set calls at a full endpoint that list the same victim leave it one entry larger |
| `CacheRace.NoBoundUnderConcurrency` | internal/cache/cache.go:267-279 | although every entry fits alone, two callers reach every multiple of any entry size up to the limit |
| `CacheRace.AloneWithinLimit` | internal/cache/cache.go:259-382 | with at most one caller the size never exceeds a positive limit, at any section of any call |
| `CacheRace.LimitHoldsIffAlone` | internal/cache/cache.go:267-315 | for a positive limit and entries that fit alone: the size stays within the limit in every run of k concurrent callers if and only if k is at most one |
| `PublicId.CycleUndone` | internal/publicid/publicid.go:141-143 | one XTEA cycle is undone half by half with the same running sum, and conversely |
| `PublicId.DecryptUndoesEncrypt` | internal/publicid/publicid.go:159-163 | any number of cycles is undone in reverse |
| `PublicId.EncryptUndoesDecrypt` | internal/publicid/publicid.go:140-144 | and conversely |
| `PublicId.CipherBijective` | internal/publicid/publicid.go:135-166 | decryption and encryption are inverse permutations of the 64-bit words for every key, number of cycles and mixing term |
| `PublicId.EncryptWord` | internal/publicid/publicid.go:135-147 | the loop computes the reference encryption |
| `PublicId.EncryptIs32Turns` | internal/publicid/publicid.go:130-147 | for every key and word, XTEA encryption is 32 turns of the recurrence with both half-cycle terms, the constant 0x9E3779B9 and the key words selected by the sum and by the sum shifted by eleven written out |
| `PublicId.SumOfTurns` | internal/publicid/publicid.go:142 | after n turns the running sum is n times the constant, modulo 2^32 |
| `PublicId.XteaMix` | internal/publicid/publicid.go:141-143 | the mixing term of a half cycle, on numbers, is `(((v << 4) ^ (v >> 5)) + v) ^ k` on the 32-bit words that stand for them |
| `PublicId.DecryptWord` | internal/publicid/publicid.go:150-166 | the two loops compute the reference decryption, the sum recovered by repeated addition |
| `PublicId.SymbolIsAlphabet` | internal/publicid/publicid.go:34 | the digit-to-character rule is indexing of the alphabet, inverted by the search in it |
| `PublicId.SymbolIndexFindsAll` | internal/publicid/publicid.go:194-197 | a character is found if and only if it is in the alphabet |
| `PublicId.ElevenDigitsSuffice` | internal/publicid/publicid.go:168-169 | 62^11 is at least 2^64 |
| `PublicId.ValueOfDigits` | internal/publicid/publicid.go:175-181 | the digits of a number small enough have that number as positional value |
| `PublicId.DigitsOfValue` | internal/publicid/publicid.go:192-208 | a string of alphabet characters is the digits of its value |
| `PublicId.ZeroDigits` | internal/publicid/publicid.go:171-173 | the special case for zero agrees with the digit loop |
| `PublicId.EncodeBase62` | internal/publicid/publicid.go:170-182 | the array loop and the zero case give the eleven base-62 digits of the number |
| `PublicId.DigitAt` | internal/publicid/publicid.go:175-181 | the character at each position is the alphabet's at the quotient by the power of 62 of that position, modulo 62 |
| `PublicId.DecodeBase62` | internal/publicid/publicid.go:186-211 | accepts if and only if the string has eleven alphabet characters worth less than 2^64, and returns that value: the two overflow guards reject nothing else |
| `PublicId.Encoder.Encode` | internal/publicid/publicid.go:76-93 | fails exactly on an unknown namespace; otherwise the prefixed digits of the encrypted id, negative ids as two's complement |
| `PublicId.Encoder.Decode` | internal/publicid/publicid.go:96-122 | for a known namespace returns an id if and only if the string is that id's public form, so exactly the public forms are accepted |
| `PublicId.DecodedIdEncodesBack` | internal/publicid/publicid.go:96-122 | whatever decodes to an id is the encoding of that id |
| `PublicId.OnlyOwnIdDecodes` | internal/publicid/publicid.go:76-122 | the encoding of an id is accepted and decodes to that id |
| `PublicId.RoundTrip` | internal/publicid/publicid.go:76-122 | Decode after Encode gives back every 64-bit id in every namespace |
| `SqlText.SkipQuoted` | internal/sqlutil/sqlutil.go:47-104 | the scan past a quoted literal ends behind its closing quote, doubled quotes being content |
| `SqlText.SkipBlock` | internal/sqlutil/sqlutil.go:33-45 | the scan past a block comment ends behind its terminator or at the end |
| `SqlText.SkipLine` | internal/sqlutil/sqlutil.go:24-31 | the scan past a line comment ends before the newline |
| `SqlText.SkipBracket` | internal/sqlutil/sqlutil.go:105-115 | the scan past a bracketed name ends behind the bracket |
| `SqlText.NextToken` | internal/sqlutil/sqlutil.go:20-119 | one turn of the main loop consumes one token and writes a space for whatever is stripped, the character itself for code |
| `SqlText.StripLiterals` | internal/sqlutil/sqlutil.go:15-122 | the loop writes exactly one character per token |
| `SqlText.StripIsClean` | internal/sqlutil/sqlutil.go:12-15 | in the output no comment, quote or bracket starts |
| `SqlText.StripIdempotent` | internal/sqlutil/sqlutil.go:12-122 | stripping twice is stripping once, and the texts left alone are exactly the clean ones |
| `SqlText.StripAround` | internal/sqlutil/sqlutil.go:20-122 | from a position at which the main loop stands, the text is stripped independently of what precedes it |
| `SqlText.LiteralBodyIsInvisible` | internal/sqlutil/sqlutil.go:47-104 | a quoted literal strips to one space whatever its body, so the text strips to strip(before), a space, strip(after) |
| `SqlTokens.LineCommentIsInvisible` | internal/sqlutil/sqlutil.go:23-31 | a line comment strips to one space and ends before the end of its line: what follows the line is stripped as if it stood alone |
| `SqlTokens.BlockCommentIsInvisible` | internal/sqlutil/sqlutil.go:33-45 | a block comment strips to one space and ends behind its first terminator, or with the text if there is none |
| `SqlTokens.BracketIsInvisible` | internal/sqlutil/sqlutil.go:104-115 | a bracketed name strips to one space and ends behind the first closing bracket, or with the text if there is none |
| `SqlTokens.OpenLiteralRunsOut` | internal/sqlutil/sqlutil.go:47-102 | a literal without its closing quote takes the rest of the text |
| `SqlTokens.CodeStays` | internal/sqlutil/sqlutil.go:117-118 | any other character, one that is no quote or opening bracket and begins no comment, stays |
| `SqlTokens.CleanIff` | internal/sqlutil/sqlutil.go:12-15 | the clean texts are those without quotes and opening brackets and without two dashes or a slash and a star in a row |
| `SqlText.RequiresWriteAccess` | internal/sqlutil/sqlutil.go:176-194 | true if and only if some maximal identifier run of the uppercased stripped text is a mutating keyword |
| `SqlCase.PermissionIgnoresCase` | internal/sqlutil/sqlutil.go:176-177 | texts that differ only in the case of letters need write access alike |
| `SqlCase.WordNeedsWriteIff` | internal/sqlutil/sqlutil.go:124-194 | a statement that is a single word needs write access if and only if it is one of the eleven keywords in any case |
| `SqlBatch.KeywordNeedsWrite` | internal/sqlutil/sqlutil.go:125-160 | each of the eleven keywords, written out, needs write access |
| `SqlCase.UpperIff` | internal/sqlutil/sqlutil.go:131-177 | upper case forgets the case of letters and nothing else |
| `SqlText.WordOfEither` | internal/sqlutil/sqlutil.go:179-192 | no word extends across a character that is no identifier character |
| `SqlText.BatchNeedsWrite` | internal/sqlutil/sqlutil.go:169-194 | if the first part ends in code, `a;b` needs write access if and only if `a` or `b` does |
| `SqlBatch.PlainStatementSwallowed` | internal/sqlutil/sqlutil.go:20-115 | a first part that does not end in code swallows a plain second statement entirely |
| `SqlBatch.FirstStatementStays` | internal/sqlutil/sqlutil.go:20-122 | what the first part says before the token that swallows the separator is still said in the batch |
| `SqlBatch.BatchDistributesIff` | internal/sqlutil/sqlutil.go:169-194 | for a given first part, the answer for every batch is the disjunction if and only if that part ends in code or needs write access by itself |
| `SqlRouting.RoutingImpliesPermission` | internal/sqlutil/sqlutil.go:129-160 | a statement routed as a write by its first word or, under WITH, by a keyword with no identifier character before it, needs write access |
| `SqlRouting.WithRoutesIffMatch` | internal/sqlutil/sqlutil.go:136-144 | under WITH a statement is routed as a write if and only if some write keyword stands before a space or at the end |
| `SqlRouting.FirstWordRoutes` | internal/sqlutil/sqlutil.go:146-151 | otherwise a statement is routed as a write if and only if a write keyword starts it, before white space or alone |
| `SqlRouting.LeadingSpaceIsIgnored` | internal/sqlutil/sqlutil.go:131 | white space before a statement does not change its route |
| `SqlRouting.TrailingSpaceIsIgnored` | internal/sqlutil/sqlutil.go:131 | nor does white space after one that ends in code |
| `SqlCase.RoutingIgnoresCase` | internal/sqlutil/sqlutil.go:129-131 | texts that differ only in the case of letters are routed alike |
| `SqlCase.WordRoutesIff` | internal/sqlutil/sqlutil.go:124-151 | a statement that is a single word is routed as a write if and only if it is one of the eight write keywords in any case |
| `SqlRouting.NeedsWriteIffWord` | internal/sqlutil/sqlutil.go:131-194 | the trimmed text that routing looks at has a mutating keyword as a word if and only if write access is needed |
| `SqlRouting.PermissionIff` | internal/sqlutil/sqlutil.go:129-194 | a statement routed as a write needs write access if and only if it is routed by its first word or an unglued keyword, or has a keyword that routing under WITH does not look for: one that calls a procedure, or one before a character other than a space |
| `SqlRouting.RoutedWithoutPermissionIff` | internal/sqlutil/sqlutil.go:136-144 | the statements routed as writes without needing write access are exactly those that start with WITH, match keywords only at the end of longer names, and have no such other keyword |
| `SqlRouting.PermissionIffByWord` | internal/sqlutil/sqlutil.go:129-194 | where every keyword is a write keyword before a space or the end, write access is needed if and only if routing is by a whole word |
| `SqlRouting.WithRoutesWithoutPermission` | internal/sqlutil/sqlutil.go:136-144 | under WITH keywords are sought as substrings: any name ending in one is routed as a write without needing write access |
| `Params.FindAllOrdered` | internal/sqlutil/sqlutil.go:10 | the matches are maximal, in order and apart |
| `Params.FindAllComplete` | internal/sqlutil/sqlutil.go:10 | every at sign before a word character, at or after the position scanned from, starts a match |
| `Params.MatchesAreWords` | internal/sqlutil/sqlutil.go:10 | every match is an at sign with the longest word behind it, and its name is that word |
| `Params.NamesPutBack` | internal/db/mysql.go:297-317 | putting the names back at the placeholders of the translation gives the query, which has that many fewer question marks |
| `Params.WriteMatches` | internal/db/mysql.go:293-312 | the loop writes the reference translation and collects the value of each occurrence in order |
| `Params.MySqlTranslateQuery` | internal/db/mysql.go:287-318 | one question mark and one argument per occurrence: the value supplied under its name, or nil if none was; putting `@name` back at the inserted placeholders restores the query, and no other question mark is added or lost |
| `Params.SqlServerBuildArgs` | internal/db/sqlserver.go:270-288 | exactly one named argument per distinct parameter name, with the value supplied under that name, or nil if none was |
| `Params.SqliteTranslateQuery` | internal/db/sqlite.go:370-392 | the query unchanged and exactly one named argument per distinct parameter name, with the value supplied under that name, or nil if none was |
| `Params.DriversBindAlike` | internal/db/mysql.go:287-318 | the three drivers run on one query: every occurrence gets positionally the value supplied under its name, or nil, and it is the value that exactly one named argument gives its name in the SQLite and in the SQL Server driver |
| `Executor.Execute` | internal/workflow/executor.go:56-179 | of the one run the host determines: Success if and only if nothing stopped it; the error is that of the stopping event; ResponseSent if and only if an executed step of explicit type response succeeded; the results conditions see are the results reported |
| `Executor.OnlyEnabledStepsRun` | internal/workflow/executor.go:76-86 | executed steps are enabled steps in order, and nothing follows an aborting failure, hard error or observed cancellation |
| `ExecutorRuns.StepRunsIff` | internal/workflow/executor.go:76-109 | in every run a step runs, or fails hard, if and only if it is enabled, the run is not cancelled there, and it has no condition or its condition holds of the results recorded before it |
| `ExecutorRuns.StepResultIs` | internal/workflow/executor.go:111-126 | what is recorded of a step that ran has the success, error and data it returned for the results recorded before it, under its configured name, or `step_` and its position, and its type |
| `ExecutorRuns.StepFailsHard` | internal/workflow/executor.go:111-116 | a hard error is the one the step returned |
| `ExecutorRuns.RecordedIsLast` | internal/workflow/executor.go:118-126 | a name is on record exactly if a step ran under it, with the result of the last one |
| `ExecutorRuns.EndsWhereStopped` | internal/workflow/executor.go:76-162 | a whole run goes on to the last step unless its last event is a cancellation, a hard error or a failure under an unset or abort policy, and no earlier event is one of these |
| `ExecutorRuns.ConclusionIs` | internal/workflow/executor.go:76-179 | the verdict and the error of the executor are those of the last event of the run, and a response was sent exactly if a step of explicit type response ran and succeeded |
| `Executor.TopStep` | internal/workflow/executor.go:76-123 | one turn of the loop gives the event that the step configuration, the host and the results on record determine |
| `Executor.UnstoppedIffNoStop` | internal/workflow/executor.go:76-165 | a run ends unstopped if and only if every step was come to and no event anywhere in it is a cancellation, a hard error or an aborting failure |
| `Executor.IsTheRun` | internal/workflow/executor.go:76-165 | the answers of the host determine exactly one whole run |
| `Executor.PrefixIsRun` | internal/workflow/executor.go:76-162 | every prefix of a run is a run in which nothing has stopped yet, each event caused by the results recorded before it |
| `Executor.WholeRunUnique` | internal/workflow/executor.go:76-162 | two whole runs with the same host are equal |
| `Executor.CancellationOnlyCuts` | internal/workflow/executor.go:81-87 | observing cancellation more often only cuts a run short: up to the cut all events are the same |
| `Executor.NestedStep` | internal/workflow/executor.go:371-425 | a nested step behaves as a top-level step that sees no cancellation and supports only queries and calls |
| `ExecutorRuns.NestedStepRunsIff` | internal/workflow/executor.go:371-399 | a nested step runs, or fails hard, if and only if it is enabled and has no condition or its condition holds; cancellation is not observed |
| `ExecutorRuns.NestedResultIs` | internal/workflow/executor.go:401-432 | only queries and calls run, and what they return is recorded as for top-level steps |
| `ExecutorRuns.NestedFailsHard` | internal/workflow/executor.go:401-424 | a nested step of any other type fails hard with its type in the error |
| `Executor.RunIteration` | internal/workflow/executor.go:360-441 | an iteration is a whole run of the nested steps; it succeeds if and only if no nested step that ran failed, its error is that of the last failure, and a hard error drops it |
| `ExecutorRuns.IterationIs` | internal/workflow/executor.go:360-448 | an iteration is reported under its item and position, as a success exactly if every nested step that ran succeeded |
| `ExecutorRuns.LastErrorIs` | internal/workflow/executor.go:434-436 | its error is that of the last nested step that ran and failed |
| `Executor.RunItems` | internal/workflow/executor.go:350-461 | at every exit the counts add up to the recorded iterations, which cover a prefix of the items in order; under abort only the last can have failed; the reported error is that of the cancellation, hard error or failed iteration at which the loop ended, and none if it completed |
| `ExecutorRuns.BlockEnds` | internal/workflow/executor.go:350-461 | the iterations are those of the first items, begun without cancellation; under an unset or abort policy all but the last succeeded; the next item is left out only for a failure under that policy, a cancellation or a hard error; and the counts are the numbers of iterations that succeeded and failed |
| `Executor.ExecuteBlockStep` | internal/workflow/executor.go:318-476 | an iterate expression that is no array fails the block without iterations; otherwise the loop's guarantees hold, every item is recorded unless the block was aborted, cancelled or failed hard, and Success holds exactly when all items were recorded and all iterations succeeded |
| `Decimal.DecimalInjective` | internal/ratelimit/ratelimit.go:144 | different numbers print differently |
| `Decimal.DecimalDenotes` | internal/ratelimit/ratelimit.go:144 | what is printed denotes the number in base ten, without leading zeros |

## Left out

- HTTP handling, middleware, gzip, logging, Prometheus registration, service installation and configuration loading: input and output.
- Database connections, sessions, isolation levels and reconnects: foreign calls.
- The expression parser, type checker, optimiser and virtual machine: the parser is an arbitrary function.
- Array, map, slice and built-in call nodes of the expression language: like calls they only pass the walk on to their parts.
- Predicates, `let`, optional chaining and node locations of the expression language, and the sharing of one replacement node by several places: trees are values, patching returns a new tree.
- Expr.Patch: the walk that patches in place is modelled as a function on trees, so aliasing between alias trees is not captured.
- AliasOrder.Reverse: the in-place swaps are assignments to a sequence variable.
- AliasExpand.CompileCondition: the type check itself is an arbitrary predicate on the expanded tree.
- StepReferences.GatheringExactIffSourcesFlow: for alias maps without an empty name, which no expression can mention.
- RatePool.Pool.Allow: the floating-point rounding of the limiter library is replaced by exact arithmetic, and reserve, delay and cancel are one step; the reading that stamps a new bucket is not told apart from the one for its token, since the stamp is overwritten and the bucket full.
- RateCleanup.CleanupInvisibleIff: on runs in which every request draws on the bucket in the pool; with requests that draw on removed buckets more gets through than without cleanup (`RateRace.StraysGetThrough`).
- RatePool.DecisionsAgree: on such runs too.
- RatePool.WindowBound: on such runs too; `RateRace.ExcessIsStrayed` is about all interleavings.
- RateCleanup.WindowBoundIff: on such runs too; `RateWindow.WithinRateIff` is about all interleavings.
- RatePool.Pool.GetOrCreateBucket: buckets are values in the map and the lock is not visible; `RateRace` has them as objects, with the double check.
- RateCleanup.RefillCondition: for other combinations of rate and gap the exact condition is the one in `CleanupInvisibleIff`.
- Checking several limits for one request, `Snapshot`, `ResetAll`, `ResetPool` and the pool lookups: easy members on top of the ones modelled.
- 64-bit overflow of the metrics and limiter counters, and the Prometheus part of `Record`.
- The cache store itself, its time to live, hit counting, `GetOrCompute` and scheduled eviction.
- Key derivation by HMAC-SHA256: every namespace comes with an arbitrary four-word key, and the length check on the secret is not modelled.
- Cache.Cache.RegisterEndpoint: the scheduled clearing itself is not started.
- SqlText.RequiresWriteAccess: text is ASCII; Unicode case mapping and non-ASCII white space are not modelled.
- `HasReturningClause`, which inspects only the first occurrence of its word.
- Executor.Execute: step caching, templates, timeouts, durations and log lines are inside the host's answers or absent; each cancellation check is a free choice of the host, and the error of a context that is done is one fixed text.
- "At most one response per request", which the executor does not enforce.
