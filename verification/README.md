# API priority and fairness, and the KEP checks: a verified model

This project models two parts of the Kubernetes enhancements repository and proves what their
authors rely on.

**API priority and fairness** (KEP 1040) decides how many requests an API server executes at
once and which one goes next. Four mechanisms carry its guarantees.

* *Shuffle sharding* turns a 64-bit hash into a hand of distinct queues and puts the request
  into the least loaded one. `ShuffleShard` models the recursive program with its composed
  closures and proves that it deals exactly the hands that the text defines, each of them
  equally often up to one.
* *Collision analysis* computes how likely a light flow is to be shadowed by heavy ones.
  `NthDeal` holds the loops, `Collisions` the Markov step that they compute, `Covering` a bound
  on how soon the deck is covered, `Binomial`
  Vandermonde's identity and the counting of subsets, and `Deals` the sample space: the
  distribution, the expectation and the covering probability that the program arrives at are
  exact fractions of the counted set of all series of hands.
* *Borrowing of concurrency* between priority levels. `Levels` holds the configured limits and
  the smoothing of demand, `FairShare` a sort-and-walk solver for the clipped proportional
  problem, `Borrowing` the three-case allocator, `Fairness` what it means for each level,
  `Adjustment` the whole adjustment with the exempt levels and the rounding.
* *Fair queuing with seats*. `FairQueue` proves that one number per queue, `virtualStart`,
  stands in for the virtual start and finish of every request; `Scheduler` is the state
  machine of a priority level, with the seat limit and the rule that a chosen request
  accumulates seats before anything else may start; `IdleSeats` says exactly when this rule
  leaves seats idle.

**The KEP checks** reconcile the annotations of a `kep.yaml` with its `OWNERS` file
(`NodeApprovers`), apply the stage-dependent approver rules (`TechLeads`), infer the upcoming
release from tags (`Releases`, `ReleaseGrowth`) and split a KEP document into metadata and body
(`FrontMatter`). `Text` holds the string operations they share.

`Sums`, `Sorting`, `Sequences`, `Integers`, `Reals` and `Options` are the common ground: finite sums over
functions, merge sort with weights that do not depend on order, division with remainder, and
inequalities over the reals.

`dafny verify dfyconfig.toml` checks the whole project.

## Findings

Seven expectations, most of them stated by the sources, do not hold as written. Each is refuted
at a concrete input, and the exact condition under which it does hold is proved.

1. *The CurrentCLs always add up to ServerCL, give or take rounding*
   (`keps/sig-api-machinery/1040-priority-and-fairness/README.md:848-852`). When the exempt
   levels leave less than the sum of the MinCLs, the sum exceeds ServerCL by the gap.
   See `Adjustment.SumIsServerCLExactlyWhen` and `Adjustment.SumCanExceedServerCL`.
2. *A proportion FairProp can be found that makes the CurrentCLs sum to what remains*
   (lines 993-997). There is one exactly when what remains lies between the sum of the lower
   bounds and the most that the levels with a positive Target may take. See `FairShare.Solve`
   and `Adjustment.SeatsCanBeUnabsorbable`.
3. *If all requests had the same width, the guess G would not matter*
   (lines 1343-1348). The guess also enters through the requests that are still executing, so
   queues with different numbers of them can change places. The choice is the same for every
   guess exactly when the queue chosen under guess zero has the fewest guessed seats; for
   requests of width one, when it has the fewest requests executing. See
   `Scheduler.ChoiceIgnoresGuessExactlyWhen`, `FairQueue.GuessIrrelevantExactlyWhen` and
   `Scheduler.ChoiceCanTurn`.
4. *Annotations that equal OWNERS pass* (`pkg/nodeapprovers/verify.go:196-300`). Handles are
   normalized once when read and once more when compared, and normalization is idempotent
   only on handles without a second "@" or white space behind the first. See
   `NodeApprovers.KEPPassesAsSets`, `NodeApprovers.KEPPassesWithoutLeads` and, for the handle
   "@@x", `NodeApprovers.DoubleAtIsReported`.
5. *The fallback 999 means that alpha KEPs are strictly enforced*
   (`test/node_approvers_test.go:68-69`). A later upcoming release relaxes the rules; see
   `TechLeads.ReleaseMattersExactlyWhen` and, for 999, `TechLeads.FallbackIsNotStrict`.
6. *More tags never lower the upcoming release* (`pkg/nodeapprovers/verify.go:579-596`). The
   successor in line 594 wraps around when a tag names the largest 64-bit integer; see
   `ReleaseGrowth.MoreTagsExactlyWhen` and `ReleaseGrowth.MoreTagsCanLower`.
7. *The executing widths add up to as much as they can without exceeding the limit*
   (`keps/sig-api-machinery/1040-priority-and-fairness/README.md:1048-1049`). The rule of lines
   1649-1655 keeps seats idle for a chosen request. Once nothing can be chosen or started, a
   waiting request is held back from seats it could use exactly when a request has been chosen
   and some waiting request needs no more than the free seats; so never when nothing is chosen,
   nor when no waiting request is narrower than the chosen one. See
   `IdleSeats.SeatsIdleExactlyWhen`, `IdleSeats.FullUnlessNarrower` and
   `IdleSeats.SeatsCanIdle`.

## Model

| member | source | states |
|---|---|---|
| `ShuffleShard.ClosuresRefineList` | keps/sig-api-machinery/1040-priority-and-fairness/README.md:444-470 | the recursion over composed closures equals dealing the hash's digits from an explicit list of what is left and scanning the hand in order, for every hash, hand size and queue length function |
| `ShuffleShard.TooManyCards` | keps/sig-api-machinery/1040-priority-and-fairness/README.md:448-451 | a hand larger than the deck always ends in a division by zero |
| `ShuffleShard.HandIsAsDesigned` | keps/sig-api-machinery/1040-priority-and-fairness/README.md:396-400 | the k-th index of the hand is the A[k]-th entry of the indices excluding those dealt before; all are distinct and in range |
| `ShuffleShard.PicksFromHand` | keps/sig-api-machinery/1040-priority-and-fairness/README.md:463-469 | the program returns the earliest of the hand's shortest queues, or -1 if none is shorter than the initial minimum |
| `ShuffleShard.PickFailsExactlyWhen` | keps/sig-api-machinery/1040-priority-and-fairness/README.md:444-476 | the result is -1 if and only if every dealt queue is at least as long as the initial minimum |
| `ShuffleShard.MixedRadix` | keps/sig-api-machinery/1040-priority-and-fairness/README.md:390-393 | the digits found by repeated division satisfy the bounds and the falling-factorial sum, and they are the only ones that do |
| `ShuffleShard.HandIffResidue` | keps/sig-api-machinery/1040-priority-and-fairness/README.md:390-400 | a hash deals a given hand if and only if it is congruent to that hand's number modulo ff(numQueues, H) |
| `ShuffleShard.ExactlyOncePerWindow` | keps/sig-api-machinery/1040-priority-and-fairness/README.md:390-400 | among any ff(numQueues, H) consecutive hash values, each ordered hand of distinct queues is dealt exactly once |
| `ShuffleShard.DealIsEven` | keps/sig-api-machinery/1040-priority-and-fairness/README.md:394-396 | over all 2^64 hash values the counts of any two hands differ by at most one |
| `ShuffleShard.EveryHandDealt` | keps/sig-api-machinery/1040-priority-and-fairness/README.md:394-396 | when ff(numQueues, H) < 2^60 every hand is dealt by at least 16 hash values |
| `Binomial.SubsetCount` | keps/sig-api-machinery/1040-priority-and-fairness/README.md:508-509 | the number of subsets of size m of a set of size n is the binomial coefficient |
| `Binomial.Vandermonde` | keps/sig-api-machinery/1040-priority-and-fairness/README.md:541-549 | the ways of reaching every number of new cards add up to all hands |
| `Binomial.HypergeometricMean` | keps/sig-api-machinery/1040-priority-and-fairness/README.md:541-550 | the ways weighted by the number of new cards: the mean of the hypergeometric distribution, cleared of fractions |
| `NthDeal.ChooseLoop` | keps/sig-api-machinery/1040-priority-and-fairness/README.md:508-518 | the loop computes the binomial coefficient for all n and m, zero when m > n |
| `NthDeal.SumLoop` | keps/sig-api-machinery/1040-priority-and-fairness/README.md:497-506 | copying, sorting and adding gives the sum of the slice |
| `NthDeal.InflowLoop` | keps/sig-api-machinery/1040-priority-and-fairness/README.md:540-549 | the inner loop adds up, over the number of new cards, the ways times the previous probability |
| `NthDeal.LaterEntries` | keps/sig-api-machinery/1040-priority-and-fairness/README.md:538-552 | the outer loop fills the three arrays with the next distribution, its terms of the expectation and of the covering probability |
| `NthDeal.NthDeal` | keps/sig-api-machinery/1040-priority-and-fairness/README.md:530-556 | the four results are the next distribution, its total, the mean number of distinct cards and the mean chance of covering |
| `NthDeal.DealUntilCovered` | keps/sig-api-machinery/1040-priority-and-fairness/README.md:558-568 | the tabulating loop with its guard: it stops, after at most twice as many deals as there are cards, at the first deal whose probNextCovered is at least 0.01; there the total is exactly 1 and the expectation is D*(1-(1-h/D)^n) |
| `Covering.CoverAtLeast` | keps/sig-api-machinery/1040-priority-and-fairness/README.md:529-551 | after n deals probNextCovered is at least 1 - h*(1-h/D)^n |
| `Covering.CoveredByHalf` | keps/sig-api-machinery/1040-priority-and-fairness/README.md:558-568 | from twice as many deals as there are cards on, probNextCovered is at least one half |
| `Collisions.Duality` | keps/sig-api-machinery/1040-priority-and-fairness/README.md:539-552 | averaging any quantity over the next distribution equals averaging its one-deal outlook over the previous one |
| `Collisions.NextConservesMass` | keps/sig-api-machinery/1040-priority-and-fairness/README.md:527-549 | a deal preserves the total of the distribution, so distSum stays 1 |
| `Collisions.NextNonNegative` | keps/sig-api-machinery/1040-priority-and-fairness/README.md:526-549 | a deal keeps all entries non-negative |
| `Collisions.NextExpectation` | keps/sig-api-machinery/1040-priority-and-fairness/README.md:528-550 | E' = E*(1-h/D) + h times the mass, which is E + h*(D-E)/D for a probability distribution |
| `Collisions.NextCoverGrows` | keps/sig-api-machinery/1040-priority-and-fairness/README.md:529-551 | a deal never lowers probNextCovered |
| `Collisions.CoverIsProbability` | keps/sig-api-machinery/1040-priority-and-fairness/README.md:529-551 | probNextCovered lies in [0, 1] for every probability distribution |
| `Collisions.SeriesMass` | keps/sig-api-machinery/1040-priority-and-fairness/README.md:558-568 | after every number of deals the distribution is non-negative and sums to 1 |
| `Collisions.SeriesExpectation` | keps/sig-api-machinery/1040-priority-and-fairness/README.md:558-568 | the closed form of the expected number of distinct cards after n deals |
| `Collisions.SeriesCover` | keps/sig-api-machinery/1040-priority-and-fairness/README.md:558-568 | over a series, probNextCovered stays in [0, 1] and never decreases |
| `Deals.AddingCount` | keps/sig-api-machinery/1040-priority-and-fairness/README.md:542-545 | the number of hands that show exactly k cards not seen before is the product the program computes |
| `Deals.TallyStep` | keps/sig-api-machinery/1040-priority-and-fairness/README.md:539-549 | the number of series of n+1 hands with u distinct cards, from the numbers for n hands |
| `Deals.SeriesCount` | keps/sig-api-machinery/1040-priority-and-fairness/README.md:520-522 | the sample space: there are exactly C(D, h)^n series of n hands |
| `Deals.DistIsExactProbability` | keps/sig-api-machinery/1040-priority-and-fairness/README.md:520-526 | dist[u] after n deals is the fraction of all series of n hands, counted as a set, that show exactly u distinct cards |
| `Deals.ExpectationIsExact` | keps/sig-api-machinery/1040-priority-and-fairness/README.md:528 | expectedUniques after n deals is the number of pairs of a series and a card it shows, over the number of all series |
| `Deals.CoverIsExact` | keps/sig-api-machinery/1040-priority-and-fairness/README.md:529 | probNextCovered after n deals is the fraction of all series of n+1 hands whose last hand deals only cards already dealt |
| `Levels.NominalDrift` | keps/sig-api-machinery/1040-priority-and-fairness/README.md:675-676 | the NominalCLs of n levels sum to at least ServerCL and to less than ServerCL + n |
| `Levels.NominalIsCeiling` | keps/sig-api-machinery/1040-priority-and-fairness/README.md:675-676 | NominalCL is the one integer n with ServerCL*ACS <= n*sum_acs < ServerCL*ACS + sum_acs |
| `Levels.RoundPercentNearest` | keps/sig-api-machinery/1040-priority-and-fairness/README.md:690-702 | rounding a percentage is off by at most half a seat |
| `Levels.ConfiguredLimits` | keps/sig-api-machinery/1040-priority-and-fairness/README.md:684-706 | LendableCL and BorrowingCL are the two configured percentages of NominalCL, rounded; without a borrowing percentage there is no limit |
| `Levels.ConfiguredIsValid` | keps/sig-api-machinery/1040-priority-and-fairness/README.md:684-706 | a lendable percentage of at most 100 yields LendableCL <= NominalCL after rounding, which the borrowing equations need |
| `Levels.SmoothBetween` | keps/sig-api-machinery/1040-priority-and-fairness/README.md:881-905 | over every run from zero, the smoothed demand lies between the latest envelope and the largest envelope so far |
| `Levels.DecaysToward` | keps/sig-api-machinery/1040-priority-and-fairness/README.md:888-894 | through n periods of the same envelope e that does not exceed it, SmoothSeatDemand becomes e + A^n times its excess over e |
| `Levels.SmoothDecays` | keps/sig-api-machinery/1040-priority-and-fairness/README.md:888-894 | in particular under zero demand it decays geometrically with factor A |
| `Levels.TracksRise` | keps/sig-api-machinery/1040-priority-and-fairness/README.md:881-885 | an envelope above the smoothed demand is tracked at once |
| `FairShare.Solve` | keps/sig-api-machinery/1040-priority-and-fairness/README.md:991-1007 | sorting and a greedy walk find a FairProp whose clipped shares sum exactly to the total; they fail exactly when the total is out of reach, and then no FairProp exists |
| `FairShare.SolutionsAgree` | keps/sig-api-machinery/1040-priority-and-fairness/README.md:997-1003 | all values of FairProp that meet the sum yield the same share for every level |
| `FairShare.SolutionsMonotone` | keps/sig-api-machinery/1040-priority-and-fairness/README.md:995-1003 | a larger total lowers nobody's share |
| `FairShare.TotalIsRamps` | keps/sig-api-machinery/1040-priority-and-fairness/README.md:1002-1007 | the sum of clipped shares is the sum of the lower bounds plus one ramp for every point where a bound starts or stops to bind |
| `FairShare.SegmentIsLine` | keps/sig-api-machinery/1040-priority-and-fairness/README.md:1005-1007 | between two neighbouring events in sorted order those ramps add up to a straight line, which is what makes the greedy walk work |
| `FairShare.SolvedIsReachable` | keps/sig-api-machinery/1040-priority-and-fairness/README.md:991-1003 | whatever FairProp attains lies between the sum of the lower bounds and the most that levels with a positive Target may take |
| `Borrowing.LevelBounds` | keps/sig-api-machinery/1040-priority-and-fairness/README.md:907-917 | MinCL <= MinCurrentCL <= NominalCL <= MaxCL for every valid non-exempt level |
| `Borrowing.ProportionalSum` | keps/sig-api-machinery/1040-priority-and-fairness/README.md:952-961 | the proportional case hands out exactly what remains |
| `Borrowing.AllocationBoundsAndSum` | keps/sig-api-machinery/1040-priority-and-fairness/README.md:842-845 | in all three cases MinCL <= CurrentCL <= MaxCL, and the sum is the larger of RemainingServerCL and MinCLSum |
| `Borrowing.AllocationMonotone` | keps/sig-api-machinery/1040-priority-and-fairness/README.md:942-1003 | raising RemainingServerCL lowers no level's CurrentCL, within each case and across their boundaries |
| `Borrowing.AllocationUnique` | keps/sig-api-machinery/1040-priority-and-fairness/README.md:942-1003 | the equations determine the CurrentCLs |
| `Borrowing.Allocate` | keps/sig-api-machinery/1040-priority-and-fairness/README.md:934-1007 | the case order never divides by zero; there is a result exactly when the remaining seats can be absorbed, and otherwise no vector satisfies the equations |
| `Fairness.LessOnlyWhen` | keps/sig-api-machinery/1040-priority-and-fairness/README.md:966-1003 | with the needs met, a level that gets less in proportion to its wish (the larger of its smoothed demand and its high demand kept within its limits) than another has borrowed all it may, or the other gets no more than it needs |
| `Fairness.ProportionalToWishes` | keps/sig-api-machinery/1040-priority-and-fairness/README.md:975-989 | levels strictly between their need and their borrowing limit share in proportion to their wishes |
| `Fairness.NeedsAreMet` | keps/sig-api-machinery/1040-priority-and-fairness/README.md:1001-1003 | nobody gets less than the high demand kept within the level's limits, nor more than nominal plus borrowing |
| `Fairness.WishesGranted` | keps/sig-api-machinery/1040-priority-and-fairness/README.md:966-973 | when the wishes add up to what remains and none exceeds what may be borrowed, everybody gets exactly the wish |
| `Fairness.KeptOnly` | keps/sig-api-machinery/1040-priority-and-fairness/README.md:942-950 | with no more than what is never lent, everybody gets nominal minus lendable |
| `Fairness.NeedsInProportion` | keps/sig-api-machinery/1040-priority-and-fairness/README.md:952-961 | in between, everybody gets the same fraction of the need above what is never lent |
| `Adjustment.Adjust` | keps/sig-api-machinery/1040-priority-and-fairness/README.md:919-1003 | the adjustment including the case without pressure and the exempt levels; there is a result exactly when the remaining seats can be absorbed, and otherwise no limits satisfy the equations |
| `Adjustment.NoPressureExactlyWhen` | keps/sig-api-machinery/1040-priority-and-fairness/README.md:914-926 | when no adjustment is needed, in terms of what each level lends and has demanded |
| `Adjustment.UnpressuredKeepNominal` | keps/sig-api-machinery/1040-priority-and-fairness/README.md:923-925 | then everybody keeps the nominal limit |
| `Adjustment.ExemptGetsItsDemand` | keps/sig-api-machinery/1040-priority-and-fairness/README.md:910-932 | an exempt level gets at least what it never lends and all it demanded, and no more than the larger of the two |
| `Adjustment.SumIsServerCLExactlyWhen` | keps/sig-api-machinery/1040-priority-and-fairness/README.md:847-852 | the exact sum of all CurrentCLs, and the condition under which it is ServerCL |
| `Adjustment.SumCanExceedServerCL` | keps/sig-api-machinery/1040-priority-and-fairness/README.md:847-852 | a server that has an adjustment, and all of whose adjustments sum to one and a half times ServerCL |
| `Adjustment.SeatsCanBeUnabsorbable` | keps/sig-api-machinery/1040-priority-and-fairness/README.md:991-1003 | a server with an idle exempt level for which no CurrentCLs satisfy the equations |
| `Adjustment.UnpressuredSum` | keps/sig-api-machinery/1040-priority-and-fairness/README.md:923-925 | without pressure the sum is ServerCL plus less than one seat per level |
| `Adjustment.AdjustmentWithinBounds` | keps/sig-api-machinery/1040-priority-and-fairness/README.md:839-845 | every non-exempt level's CurrentCL lies between its MinCL and its MaxCL, with or without pressure |
| `Adjustment.RoundingDrift` | keps/sig-api-machinery/1040-priority-and-fairness/README.md:1009-1010 | rounding n limits moves their sum by at most n/2 |
| `Adjustment.RoundedWithinBounds` | keps/sig-api-machinery/1040-priority-and-fairness/README.md:1009-1010 | rounding to the nearest integer keeps a limit within its integer bounds |
| `Adjustment.RoundedSumNearServerCL` | keps/sig-api-machinery/1040-priority-and-fairness/README.md:847-852 | under pressure that leaves the MinCLs, the rounded limits sum to ServerCL up to half a seat per level |
| `FairQueue.StepRefines` | keps/sig-api-machinery/1040-priority-and-fairness/README.md:1440-1453 | every arrival, dispatch, finish and ejection keeps virtualStart in agreement with the request-by-request account |
| `FairQueue.RunRefines` | keps/sig-api-machinery/1040-priority-and-fairness/README.md:1421-1453 | every run of the compact queue is a run of the account, and the two agree at its end |
| `FairQueue.VirtualStartAfterRun` | keps/sig-api-machinery/1040-priority-and-fairness/README.md:1440-1453 | after every run virtualStart is R at the start of the busy period, plus width times actual length of the finished requests, plus width times G of the executing ones |
| `FairQueue.ChainIsTotal` | keps/sig-api-machinery/1040-priority-and-fairness/README.md:1398 | chaining r_finish = r_dispatch + len*width from request to request adds up the work of all before |
| `FairQueue.FinishIsChained` | keps/sig-api-machinery/1040-priority-and-fairness/README.md:1398 | each request finishes width times length after its dispatch, and is dispatched at the finish of the one before |
| `FairQueue.ComputedFinishIsChained` | keps/sig-api-machinery/1040-priority-and-fairness/README.md:1147-1162 | the finish computed from virtualStart and the position in the queue is the chained r_finish |
| `FairQueue.FinishAfterRun` | keps/sig-api-machinery/1040-priority-and-fairness/README.md:1421-1438 | that holds of every waiting request after every run |
| `FairQueue.UndoneFinish` | keps/sig-api-machinery/1040-priority-and-fairness/README.md:1451-1453 | learning the duration of the request found executing removes exactly that one from those executing |
| `FairQueue.LiveQueue.constructor` | keps/sig-api-machinery/1040-priority-and-fairness/README.md:1409-1412 | a new queue is empty and idle |
| `FairQueue.LiveQueue.Arrive` | keps/sig-api-machinery/1040-priority-and-fairness/README.md:1447-1450 | in place: the request joins the FIFO, and virtualStart becomes the current R if the queue was idle |
| `FairQueue.LiveQueue.Dispatch` | keps/sig-api-machinery/1040-priority-and-fairness/README.md:1444-1447 | in place: the head moves to the executing set and virtualStart advances by width times the guess |
| `FairQueue.LiveQueue.Finish` | keps/sig-api-machinery/1040-priority-and-fairness/README.md:1451-1453 | in place: the request leaves the executing set and virtualStart is corrected by width times (actual - guess) |
| `FairQueue.LiveQueue.Eject` | keps/sig-api-machinery/1040-priority-and-fairness/README.md:1053-1054 | in place: a waiting request is removed and virtualStart stays |
| `FairQueue.ShiftedRun` | keps/sig-api-machinery/1040-priority-and-fairness/README.md:1350-1352 | a run with guess G differs from the run with guess zero only in virtualStart, by G times the seats executing |
| `FairQueue.NextFinishUnderGuess` | keps/sig-api-machinery/1040-priority-and-fairness/README.md:1343-1352 | the head's finish under any guess, from the run with guess zero |
| `FairQueue.GuessIrrelevantExactlyWhen` | keps/sig-api-machinery/1040-priority-and-fairness/README.md:1343-1348 | no guess changes the order of two queues, ties included, if and only if the one ahead on completed work has no more guessed seats, and queues that are level have equally many |
| `FairQueue.GuessCanMatter` | keps/sig-api-machinery/1040-priority-and-fairness/README.md:1343-1348 | two queues of one-seat requests: one is ahead under guess 0, the other under guess 10 |
| `Scheduler.SelectQueue` | keps/sig-api-machinery/1040-priority-and-fairness/README.md:1461-1465 | the scan over all queues finds the one with the least next finish, the first in turn among equals, or none exactly when no queue has a waiting request |
| `Scheduler.PickIsLeast` | keps/sig-api-machinery/1040-priority-and-fairness/README.md:1412-1416 | the pick's next finish is the least of all queues with a waiting request |
| `Scheduler.PickIsUnique` | keps/sig-api-machinery/1040-priority-and-fairness/README.md:1404-1409 | round-robin order leaves one pick only |
| `Scheduler.TiesGoRound` | keps/sig-api-machinery/1040-priority-and-fairness/README.md:1404-1409 | among queues that are level, the pick is the first one after the queue last dispatched from, counting indices modulo the number of queues |
| `Scheduler.NotAgainWhileLevel` | keps/sig-api-machinery/1040-priority-and-fairness/README.md:1404-1409 | the queue last dispatched from is not picked while another one is level with it |
| `Scheduler.CursorIsLastStarted` | keps/sig-api-machinery/1040-priority-and-fairness/README.md:1407-1409 | over every run the cursor is one of the queues and moves with a start only, to the queue that is dispatched from |
| `Scheduler.ActionIs` | keps/sig-api-machinery/1040-priority-and-fairness/README.md:1409-1412 | each action is one event of one queue with the width, the time and the duration it names, and leaves the other queues alone |
| `Scheduler.ChoiceHasLeastChainedFinish` | keps/sig-api-machinery/1040-priority-and-fairness/README.md:1401-1438 | after every run of the whole scheduler, whatever may be chosen has the least explicit r_finish_virtual, chained over all requests of its queue's busy period, and is chosen only while no seat is occupied or some are free |
| `Scheduler.ChoiceIgnoresGuessExactlyWhen` | keps/sig-api-machinery/1040-priority-and-fairness/README.md:1343-1348 | for any number of queues with any histories, and wherever the round robin stands: every guess leads to the same choice if and only if the queue chosen under guess zero has the fewest guessed seats of all queues with a waiting request |
| `Scheduler.OneSeatChoiceIgnoresGuessExactlyWhen` | keps/sig-api-machinery/1040-priority-and-fairness/README.md:1343-1348 | the case the text speaks of: with requests of width one, if and only if no other queue with a waiting request has fewer requests executing |
| `Scheduler.ChoiceCanTurn` | keps/sig-api-machinery/1040-priority-and-fairness/README.md:1343-1348 | two queues of one-seat requests from which guess 0 chooses the first and guess 10 the second, wherever the round robin stands |
| `Scheduler.RunProjects` | keps/sig-api-machinery/1040-priority-and-fairness/README.md:1409-1412 | a run of the scheduler is, queue by queue, a run of each queue |
| `Scheduler.StepKeepsInv` | keps/sig-api-machinery/1040-priority-and-fairness/README.md:855-862 | every action keeps the seat invariant |
| `Scheduler.SeatSafety` | keps/sig-api-machinery/1040-priority-and-fairness/README.md:1048-1051 | in every reachable state, for every limit and all widths, the seats in use are within the limit or exactly one request is executing |
| `Scheduler.NoOvertaking` | keps/sig-api-machinery/1040-priority-and-fairness/README.md:1649-1659 | in every run after a request is chosen, nothing begins to execute before it: up to some point it stays chosen and the executing requests only get fewer, and the action at that point, if any, starts exactly that request and changes no other queue, or ejects it |
| `Scheduler.ChosenCanStart` | keps/sig-api-machinery/1040-priority-and-fairness/README.md:1656-1659 | no deadlock: completions alone always lead to a state in which the chosen request may start |
| `IdleSeats.SeatsIdleExactlyWhen` | keps/sig-api-machinery/1040-priority-and-fairness/README.md:1048-1051 | in every state that keeps the invariant, hence every reachable one, in which nothing can be chosen or started: some waiting request could execute if and only if a request has been chosen and some waiting request needs no more than the free seats |
| `IdleSeats.FullUnlessNarrower` | keps/sig-api-machinery/1040-priority-and-fairness/README.md:1048-1051 | occupancy is as high as it can be when nothing is chosen, or no waiting request is narrower than the chosen one |
| `IdleSeats.SeatsCanIdle` | keps/sig-api-machinery/1040-priority-and-fairness/README.md:1643-1645 | a run with three seats after which one stays idle although a one-seat request waits |
| `Scheduler.SeatsNotWasted` | keps/sig-api-machinery/1040-priority-and-fairness/README.md:1656-1659 | when requests wait and nothing can be chosen or started, fewer seats are free than the widest waiting request needs |
| `NodeApprovers.FixedIffNormalForm` | pkg/nodeapprovers/verify.go:87-89 | normalizing leaves alone exactly the trimmed, lowercase handles without a leading "@" |
| `NodeApprovers.IdempotentIffNoStutter` | pkg/nodeapprovers/verify.go:87-89 | normalizing twice equals normalizing once if and only if no "@" or white space follows the leading "@" |
| `NodeApprovers.HandleReadBack` | pkg/nodeapprovers/verify.go:84-89 | a handle is read the same with white space around it, with an "@" or without, in upper or lower case |
| `NodeApprovers.ContainsNormalized` | pkg/nodeapprovers/verify.go:186-194 | reports whether some entry of the list normalizes to the user |
| `NodeApprovers.UsersLoop` | pkg/nodeapprovers/verify.go:101-117 | collects the normalized handles of the scalar entries that pass a test, in order; nothing for a missing sequence |
| `NodeApprovers.UsersNormalExactlyWhen` | pkg/nodeapprovers/verify.go:106-116 | the collected handles are in normal form if and only if no kept entry stutters |
| `NodeApprovers.MarkedExactlyWhen` | pkg/nodeapprovers/verify.go:91-96 | an entry is marked if and only if its comment is white space, at most one "#", white space, the marker, white space |
| `NodeApprovers.MarkersAre` | pkg/nodeapprovers/verify.go:41-46 | the two markers, spelled out |
| `NodeApprovers.MissingLoop` | pkg/nodeapprovers/verify.go:254-273 | one violation, in order, for every annotated user that OWNERS does not list |
| `NodeApprovers.UnannotatedLoop` | pkg/nodeapprovers/verify.go:277-297 | one violation, in order, for every owner that is neither annotated nor a listed tech lead |
| `NodeApprovers.AbsentLoop` | pkg/nodeapprovers/verify.go:227-242 | without an OWNERS file, one violation for every annotated user |
| `NodeApprovers.VerifyKEP` | pkg/nodeapprovers/verify.go:201-300 | the whole list of violations, for a missing and for a present OWNERS file, and that it is empty if and only if the entries pass |
| `NodeApprovers.ReappearingIsNormal` | pkg/nodeapprovers/verify.go:277-278 | if normalizing annotated handles once more still covers them all, it changes none of them |
| `NodeApprovers.ReconciledExactlyWhen` | pkg/nodeapprovers/verify.go:254-286 | the two-way check succeeds if and only if the normalized sets are equal and every annotated handle is in normal form |
| `NodeApprovers.PassesExactlyWhen` | pkg/nodeapprovers/verify.go:219-299 | for every input, there are no violations if and only if reviewers equal, annotated approvers are owners, and every owner is annotated or a listed tech lead; without OWNERS, if and only if there are no annotations |
| `NodeApprovers.ApproversPassExactlyWhen` | pkg/nodeapprovers/verify.go:264-297 | for every list of annotated approvers, with tech leads in normal form: no approver violations if and only if every annotated one is in normal form and an owner, and every owner is annotated or a listed tech lead |
| `NodeApprovers.KEPPassesExactlyWhen` | pkg/nodeapprovers/verify.go:201-300 | from the raw entries of the file: no violations if and only if the annotated reviewers are the owning ones and none of them stutters, annotated approvers are owners, and owning approvers are accounted for |
| `NodeApprovers.KEPPassesAsSets` | pkg/nodeapprovers/verify.go:253-299 | for all entries, with tech leads in normal form: passing is that no annotated entry of either role stutters, the reviewers are the owning ones, the approvers are owners, and every owning approver is annotated or a listed tech lead |
| `NodeApprovers.KEPPassesWithoutLeads` | pkg/nodeapprovers/verify.go:196-199 | without tech leads: the annotated handles are the owning ones in both roles and no annotated entry stutters |
| `NodeApprovers.OneReviewerPassesExactlyWhen` | pkg/nodeapprovers/verify.go:201-299 | from the raw text of a single entry: it passes if and only if its comment says sig-node-assigned-reviewer and nothing else, its handle is the owner's, and it does not stutter |
| `NodeApprovers.OneApproverPassesExactlyWhen` | pkg/nodeapprovers/verify.go:201-299 | the same of a single approver and sig-node-assigned-approver |
| `NodeApprovers.LeadsNormalExactlyWhen` | pkg/nodeapprovers/verify.go:346-349 | the tech leads are in normal form if and only if no member of the alias stutters |
| `NodeApprovers.StutteringLeadExcuses` | pkg/nodeapprovers/verify.go:287-297 | otherwise a stuttering annotated approver can pass: "@@x" with "@@@x" listed and "@@x" a member of the alias |
| `NodeApprovers.StutteringHandleIsReported` | pkg/nodeapprovers/verify.go:277-286 | equal sets with a handle that is not in normal form are reported all the same |
| `NodeApprovers.DoubleAtStutters` | pkg/nodeapprovers/verify.go:87-89 | "@@x" normalizes to "@x", and that to "x" |
| `NodeApprovers.DoubleAtIsReported` | pkg/nodeapprovers/verify.go:275-286 | a reviewer annotated as "@@x" and listed in OWNERS as "@@x" is reported as not annotated, and nothing else is |
| `NodeApprovers.MoreTechLeadsFewerViolations` | pkg/nodeapprovers/verify.go:287-297 | naming more tech leads only removes violations from the list, and reorders none |
| `TechLeads.ReadMetadata` | pkg/nodeapprovers/verify.go:395-428 | the trimmed scalars, and one entry per scalar approver |
| `TechLeads.ScalarReadBack` | pkg/nodeapprovers/verify.go:402-411 | a scalar reads as its text without the white space around it, a missing one as nothing |
| `TechLeads.EntriesAgree` | pkg/nodeapprovers/verify.go:415-425 | the entries and their marks are what the other verification reads as listed and annotated approvers |
| `TechLeads.ScanEntries` | pkg/nodeapprovers/verify.go:464-473 | the two flags say whether some approver is a tech lead, and whether some is marked |
| `TechLeads.VerifyTechLeadApprovers` | pkg/nodeapprovers/verify.go:440-510 | the whole list of findings, by status, milestone, stage, leads and marks |
| `TechLeads.PassesRulesExactlyWhen` | pkg/nodeapprovers/verify.go:440-510 | for every input, no findings if and only if the status is withdrawn, rejected or replaced, or the minor is below 36, or the KEP is in alpha with a minor not below the upcoming one, lists a lead and marks leads only, or it is not and lists a lead or a mark |
| `TechLeads.NamedExactlyWhen` | pkg/nodeapprovers/verify.go:489-498 | a user is named if and only if marked without being a tech lead |
| `TechLeads.MoreLeadsFewerFindings` | pkg/nodeapprovers/verify.go:464-508 | naming more tech leads only removes findings |
| `TechLeads.LaterReleaseFewerFindings` | pkg/nodeapprovers/verify.go:475-508 | a later upcoming release never gives more findings |
| `TechLeads.ReleaseMattersExactlyWhen` | pkg/nodeapprovers/verify.go:475-508 | a later release gives fewer findings if and only if it ends the active alpha of a KEP that marks somebody who is no lead |
| `TechLeads.FarReleaseIsRelaxed` | test/node_approvers_test.go:66-69 | with an upcoming release beyond the milestone the stage plays no part |
| `TechLeads.FallbackIsNotStrict` | test/node_approvers_test.go:66-69 | an alpha KEP for v1.40 that has two findings when the upcoming release is 40 and none when it is 999 |
| `Releases.MinorRoundTrip` | pkg/nodeapprovers/verify.go:371-383 | the minor version of 1.n, with or without "v" and patch level, is read back as n |
| `Releases.MajorPlaysNoPart` | pkg/nodeapprovers/verify.go:374-382 | whatever stands before the first dot |
| `Releases.QuotedMilestone` | pkg/nodeapprovers/verify.go:372-373 | a milestone in quotes, with white space inside them, reads as the bare one |
| `Releases.NoDotNoMinor` | pkg/nodeapprovers/verify.go:374-377 | without a dot the minor is 0 |
| `Releases.AtoiRoundTrip` | pkg/nodeapprovers/verify.go:378-381 | every 64-bit integer is read back from its decimal text, and no other number is |
| `Releases.AtoiRejects` | pkg/nodeapprovers/verify.go:378-381 | what is empty or has a character that is no digit, a leading sign apart, is not a number |
| `Releases.TagRoundTrip` | pkg/nodeapprovers/verify.go:561-576 | the tag of version 1.n is read as minor n, released exactly for the suffixes "0" and "0-rc." |
| `Releases.OnlyVersionTags` | pkg/nodeapprovers/verify.go:561-564 | a name without a leading "v" names no version |
| `Releases.CollectTags` | pkg/nodeapprovers/verify.go:558-577 | the two sets hold exactly the minor versions that some tag names, and that some tag marks as released |
| `HighestOf.Highest` | pkg/nodeapprovers/verify.go:579-585 | walking the set in any order yields its largest positive member, or zero |
| `Releases.UpcomingMinor` | pkg/nodeapprovers/verify.go:556-597 | the successor of the highest version named if it is released, else that version; an error exactly when no tag names a positive one |
| `Releases.UpcomingIs` | pkg/nodeapprovers/verify.go:591-596 | with m the highest version named, the result is m if no tag marks it as released, else m+1 |
| `Releases.UpcomingIgnoresOrder` | pkg/nodeapprovers/verify.go:556-597 | the result depends on the tags as a set only |
| `ReleaseGrowth.MoreTagsExactlyWhen` | pkg/nodeapprovers/verify.go:556-597 | a longer list of tag names never lowers the result, if and only if it does not make the successor overflow |
| `ReleaseGrowth.MoreTagsStillUpcoming` | pkg/nodeapprovers/verify.go:556-597 | a longer list of tag names never turns a result into an error |
| `ReleaseGrowth.MoreTagsCanLower` | pkg/nodeapprovers/verify.go:593-594 | with v1.n.0 alone the result is n+1; with the tag of the largest 64-bit minor as well it is the smallest 64-bit integer |
| `FrontMatter.Parse` | api/proposal.go:159-188 | the loop yields the two parts, or on a read error the body read so far |
| `Text.ContainsExactlyWhen` | api/proposal.go:166 | a text contains another if and only if that is found at some position |
| `FrontMatter.SeparatesExactlyWhen` | api/proposal.go:165-166 | a line separates if and only if it has three dashes in a row at some position; its line end plays no part |
| `FrontMatter.ScanningLines` | api/proposal.go:160-165 | scanning yields the lines without their line ends, a carriage return before a newline included; a last line without a line end counts unless it is empty |
| `FrontMatter.AllMetadata` | api/proposal.go:184-188 | a document without separators is all metadata |
| `FrontMatter.OneSeparator` | api/proposal.go:164-175 | with one separator, what follows is metadata and what precedes is body |
| `FrontMatter.TwoSeparators` | api/proposal.go:164-175 | with more, the lines between the first two are metadata and all other lines, separators apart, are body |
| `FrontMatter.NothingLost` | api/proposal.go:164-175 | every line that is not a separator lands in exactly one part, in its order |
| `FrontMatter.RoundTripExactlyWhen` | api/proposal.go:159-188 | splitting a rendered document returns its metadata and its body if and only if no line contains three dashes or ends in a carriage return |
| `FrontMatter.RenderNormalizesExactlyWhen` | api/proposal.go:159-188 | for every text: rendering its parts and splitting again gives the same parts if and only if no line that is kept ends in a further carriage return |

## Left out

- Rounding of 64-bit floating point and the debug output of the programs in KEP 1040: quantities are exact reals or integers.
- `ShuffleShard`: the conversion of a digit to a signed integer, which matters only beyond 2^63 queues, and the work-based queue weight that replaces the queue length (any length function is covered).
- `Levels`: a sum of shares equal to zero, for which the text gives no NominalCL; the averages and deviations behind the envelope are inputs.
- `FairQueue`: the progress meter R is an input of each arrival, not computed as an integral; the step that keeps virtualStart from falling behind the current R is not modelled, nor is the effect of corrected durations on other queues, which the text itself says is ignored. A busy period ends when the queue is really idle, as in the implementation, rather than when its virtual finish has passed.
- `Scheduler`: a value state machine with a fixed limit; changes of the limit while requests execute, bounds on queue length and on waiting time are not modelled. Extra latency is part of the time before a request completes, since its seats are held until then. Ejecting the chosen request undoes the choice, on which the text is silent.
- Long-run fairness between queues: the text says the current design does not attain it.
- `Text`: only ASCII letters change case.
- `NodeApprovers` and `TechLeads` take parsed entries and values; YAML, the file system, walking directories, the lookup of alias members and the wording of messages are not modelled. A finding carries the rule and the user, not the path.
- Releases.UpcomingMinor: takes the tag names; fetching them is not modelled.
- FrontMatter.Parse: takes the scanned lines and whether scanning failed; the scanner's limit on line length is behind that flag, and decoding and validating the metadata are not modelled.
- Watch initialization, cost estimation, metrics, example configurations and observed requests of KEP 1040, and all other KEPs: prose or data.
- Queries, approvals, group lists, output formats and command plumbing of the KEP tools: simple filters and I/O.
