# Replay models of the retrieval quality gate

This project models the deterministic replay code of the repository and proves what it
guarantees. A retrieval run leaves a log behind; the quality gate runs the log again and
accepts it only if every recorded decision is the one the algorithm would have made.
The model follows that code branch by branch and states what every accepted run keeps.

* **Path labels and the per-node archive** (`Rounding`, `Ordering`, `Labels`, `EntryOrder`,
  `Archive`, `ArchiveLaws`, `ParetoFront`, `ArchiveOutcomes`, `ArchiveReplay`): dominance between
  labels, the bounded list every popped state is offered to, its invariant, conservation of
  observations, and when the list is the Pareto front of everything offered.
* **The best-first frontier** (`Frontier`, `FrontierLaws`, `FrontierPaths`, `FrontierOutcomes`,
  `SearchLogs`, `FrontierReplay`): the replay as a state machine over pops, as a closed form, and
  as the loop with heap, dictionary and tables that decides it. Prefix closure, forced pop order,
  conservation, rounding of distances, and the reason for stopping. `JointReplay` joins it to the
  archive; `RecordedFields` says what the records of both must hold.
* **Cycle rewards** (`CycleReward`, `RewardOutcomes`, `RewardReplay`): events matched to the cycles
  a path closes, under a cap.
* **Relation calibration** (`Calibration`, `CalibrationOutcomes`): interpolated quantiles,
  winsorised min-max, distance from strength.
* **Token packing** (`Lexer`, `Packing`, `PackingOutcomes`, `PackingAudit`): a maximal-munch
  tokenizer and a greedy selection.
* **Residual k-means** (`Codebooks`, `ResidualLevels`, `TrainingTraces`, `TrainingLoops`): Lloyd's
  iteration, training level by level, and encoding.
* **Provider time** (`Intervals`, `IntervalOutcomes`): the one-pass interval union against the measure of the union.
* **Origins of packages** (`Ancestry`, `AncestryAudit`): the two recursions over packages that
  quote other packages, both bounded by their ancestors.
* **Clean-up inventories** (`Framing`, `Inventory`): the builder whose hash an operator must
  repeat before a destructive clean-up.

`Basics`, `Options` and `Ordering` hold what several modules share.

Each operation is described twice. The first description follows the code; the second
(`ArchiveOutcomes`, `RecordedFields`, `SearchLogs`, `RewardOutcomes`, `PackingOutcomes`,
`TrainingTraces`, `CalibrationOutcomes`, `IntervalOutcomes`, `Lexer.Tokenizes` and
`Intervals.Measure`) speaks of the fields of the records, or of all positions at once, and uses
none of the first one's predicates for decisions and values. Theorems there whose names end
in `Exactly` say that the two agree for all inputs.

Runs are ghost sequences of states (`IsRun`, `IsReplay`, `IsHistory`); a theorem about "every
run" quantifies over those sequences, and the loops are proved to compute them. Hash functions,
`exp` and `log` are function values: results hold for all of them, collisions included, except
where a lemma asks for injectivity or monotonicity.

## Where the code does less than it seems to

Each of these is a lemma: a concrete input, the exact condition under which the expected
property holds, or both.

* The dominance replay by itself accepts observations in which a better label is turned away for
  repeating a retained path identity (`ParetoFront.RepeatCanHideTheFront`). A log that passes both
  replays never contains such a repeat (`JointReplay.RepeatBranchIsDead`), so there the archive is
  the Pareto front (`JointReplay.AcceptedRunsKeepFrontAndBest`).
* An accepted path can earn more than its cap, by at most 1e-9, and only if a multiple of 1e-6
  lies that closely above the cap (`CycleReward.AcceptedOverdraftExactly`,
  `CycleReward.OffGridCapOverdraws`).
* A provider span that starts after the elapsed time is clipped to a reversed interval, which the
  sweep subtracts, even below zero (`Intervals.LateSpanSubtracts`, `Intervals.ProviderTimeExactly`).
* The audit of expansion rows shares verdicts by the origin's own id, so a second origin with
  that id goes unaudited (`AncestryAudit.SharedVerdictCanHideACycle`); what a pass does vouch for is
  `AncestryAudit.AuditPassesExactly`.
* An inventory builder that has passed its limit can still be finalised as complete, with a total
  that exceeds the sum of its counts (`Inventory.FinalisedPastItsLimit`,
  `Inventory.TotalIsTheSumExactly`).
* Label validity admits zero counts, under which dominance is not an order
  (`Labels.ZeroCountsDominateBothWays`).
* Five tests of the frontier replay can never fail (`FrontierPaths.GuardsNeverFire`).

## Model

| member | source | states |
|---|---|---|
| `Rounding.TiesGoToEven` | scripts/_quality_gate.py:4831-4833 | rounding to six decimals sends a tie to the even neighbour |
| `RecordedFields.EntryExactly` | scripts/_quality_gate.py:4220-4287 | a state without edges is sound if and only if it sits at its root and its names and totals make sense |
| `RecordedFields.ExtensionExactly` | scripts/_quality_gate.py:4220-4287 | a state one edge longer is sound if and only if the shorter one is and the edge makes sense |
| `RecordedFields.SoundStatesGrow` | scripts/_quality_gate.py:4220-4287 | every sound state with edges is such an extension |
| `RecordedFields.MetricsMayBeLeftOut` | scripts/_quality_gate.py:4268-4286 | per-edge numbers may be left out unless they are asked for |
| `RecordedFields.LabelFactExactly` | scripts/_quality_gate.py:4188-4217 | a label is the one a state is replayed to if and only if its distance is the rounded one, its sets and depth are the state's, and each type is counted by its positions |
| `RecordedFields.QueueKeyExactly` | scripts/_quality_gate.py:4489-4508 | the queue key is open required facets, rewarded distance, number of edges, minus the number of roles |
| `RecordedFields.ObservationExactly` | scripts/_quality_gate.py:4928-4989 | an observation is taken if and only if its state is sound and every other field follows from the state and the configuration; the tests on the label, the node and the budget's sign are implied |
| `RecordedFields.CandidateMatchesExactly` | scripts/_quality_gate.py:4290-4342 | candidate and popped state match if and only if they are one state but for numbers a billionth apart |
| `RecordedFields.GridMatchIsEquality` | scripts/_quality_gate.py:4290-4342 | on the six-decimal grid matching states are equal |
| `RecordedFields.LabelMatchesExactly` | scripts/_quality_gate.py:4345-4431 | a label matches a popped state if and only if, blanks filled in, it is the report of that state but for numbers a billionth apart, and names its expansions once each |
| `Labels.LabelFactCanonical` | scripts/_quality_gate.py:4188-4217 | a state of sound structure is replayed to a valid label whose type counts are those of a list of depth-many non-empty types |
| `Labels.CanonicalDominanceKeepsPathShape` | scripts/_quality_gate.py:4142-4168 | between such labels, weakly better already forces equal depth and equal edge-type multisets |
| `Labels.DominanceIsStrictOrder` | scripts/_quality_gate.py:4142-4168 | dominance on replayed labels is irreflexive, asymmetric and transitive |
| `Labels.MutualDominanceExactly` | scripts/_quality_gate.py:4122-4139 | two merely valid labels dominate each other if and only if they differ only in which absent edge types they list with count zero |
| `Labels.ZeroCountsDominateBothWays` | scripts/_quality_gate.py:4122-4168 | such a pair exists: the validity test alone does not make dominance an order |
| `EntryOrder.KeyLeExactly` | scripts/_quality_gate.py:5018-5060 | the archive order field by field: open facets, distance, depth, more roles, type counts, queue key, identity, each at its first difference |
| `EntryOrder.SortPermutes` | scripts/_quality_gate.py:5018-5060 | the archive sort yields the same entries in ascending key order |
| `EntryOrder.CutAt` | scripts/_quality_gate.py:5061-5064 | the newcomer is not among the removed entries exactly when it stands before the cut |
| `ArchiveOutcomes.DominatesExactly` | scripts/_quality_gate.py:4142-4168 | one label dominates another if and only if it differs and is no worse in distance, facets, roles, depth and every type count |
| `ArchiveOutcomes.KeptLabelsAreIncomparable` | scripts/_quality_gate.py:4990-5064 | in any run no label kept at a node is no worse in all five respects than a different one kept there |
| `ArchiveOutcomes.OfferExactly` | scripts/_quality_gate.py:4990-5064 | a newcomer is turned away if and only if its identity is held or a kept label beats it; otherwise the first max_labels of the newcomer and what it does not beat remain, and both counters follow |
| `ArchiveOutcomes.DecisionExactly` | scripts/_quality_gate.py:4928-5073 | in any run an observation replays if and only if it records just that, and other nodes are left alone |
| `ArchiveOutcomes.CountersExactly` | scripts/_quality_gate.py:4916-5073 | in any run malformed observations change nothing, a newcomer turned away counts one, any other what it displaces and what is then cut, recorded or not |
| `ArchiveOutcomes.EntriesAreListed` | scripts/_quality_gate.py:5018-5060 | every archive of every run stands in that order |
| `ArchiveOutcomes.RankedEntryIsFirst` | scripts/_quality_gate.py:5131-5139 | the ranked entry is kept, and every other has a greater queue key at the first difference, or the same key and a later identity |
| `ArchiveOutcomes.DominanceReplayExactly` | scripts/_quality_gate.py:4906-5150 | the dominance replay accepts if and only if every observation is well formed and rightly decided and the admitted ones, in order, are the recorded rows |
| `ArchiveReplay.OfferInPlace` | scripts/_quality_gate.py:4990-5064 | one pass over a node's list: reject a repeated identity or dominated label, else delete the dominated, append, sort, truncate; with both counters |
| `ArchiveReplay.ReplayOne` | scripts/_quality_gate.py:4928-5073 | one observation: skipped if malformed, otherwise valid exactly when it records the decision and both deltas just computed |
| `ArchiveReplay.ReplayObservations` | scripts/_quality_gate.py:4916-5073 | the loop ends where the run over the observations ends and accepts exactly when every observation replays along it |
| `ArchiveReplay.CompareRows` | scripts/_quality_gate.py:5074-5129 | the admitted observations agree row by row with the recorded frontier, and there are as many |
| `ArchiveReplay.ReplayDominanceObservations` | scripts/_quality_gate.py:4906-5150 | the whole replay: accepted if and only if every observation is well formed and rightly decided and the admitted ones are the recorded rows; both counters; and per non-empty node the entry ranked ahead of all others |
| `Archive.BestEntry` | scripts/_quality_gate.py:5131-5139 | the ranked entry belongs to the node and precedes or equals every other in (queue key, identity) order |
| `ArchiveLaws.RunIsDetermined` | scripts/_quality_gate.py:4916-5073 | a run is determined by its observations: every step-by-step run ends where the loop ends and is accepted exactly when the loop accepts |
| `ArchiveLaws.RunExists` | scripts/_quality_gate.py:4916-5073 | every sequence of observations has a run |
| `ArchiveLaws.OfferConserves` | scripts/_quality_gate.py:4990-5064 | old entries plus one = new entries + dominance-pruned + budget-cut; at most one is cut, and only from a full list out of which nothing was deleted |
| `ArchiveLaws.OfferKeepsInvariant` | scripts/_quality_gate.py:4990-5064 | one offer keeps identities distinct, the entries an antichain, sorted, and at most max_labels of them |
| `ArchiveLaws.ArchiveKeepsInvariant` | scripts/_quality_gate.py:4916-5073 | that holds of every node at every point of every run |
| `ArchiveLaws.EvictionIsRare` | scripts/_quality_gate.py:5061-5073 | in a run, each observation evicts at most one label, and none if it dominated one |
| `ArchiveLaws.NodeHistory` | scripts/_quality_gate.py:4916-5073 | a run over many nodes is, node by node, a sequence of offers to one archive |
| `ArchiveLaws.Conservation` | scripts/_quality_gate.py:5072-5073 | well-formed observations = labels retained + dominance count + label-budget count |
| `ArchiveLaws.AcceptedRunsAccountForAll` | scripts/_quality_gate.py:4916-5073 | an accepted run accounts for all of its observations in this way |
| `ParetoFront.RetainedWasConsidered` | scripts/_quality_gate.py:4990-5064 | every retained entry was once offered while no entry of its identity was held |
| `ParetoFront.RetainedIsParetoFront` | scripts/_quality_gate.py:4990-5064 | with nothing cut, the retained labels are exactly the non-dominated labels among all offered if and only if every label turned away for a repeated identity is covered by one that was considered |
| `ParetoFront.OfferCoversExactly` | scripts/_quality_gate.py:4990-5064 | with nothing cut, one offer leaves the newcomer covered if and only if its identity is not retained or something retained covers it |
| `ParetoFront.RepeatCanHideTheFront` | scripts/_quality_gate.py:4991-4997 | two well-formed observations, under any hash function, that the dominance replay by itself accepts though the retained label is not the front |
| `ParetoFront.ConsistentIdentitiesAreCovered` | scripts/_quality_gate.py:4991-4997 | the condition holds whenever equal path identities carry equal labels |
| `ParetoFront.ArrivalOrderIsIrrelevant` | scripts/_quality_gate.py:4990-5064 | then two histories offering the same labels in any order retain the same labels |
| `ParetoFront.FrontCovers` | scripts/_quality_gate.py:4142-4168 | among finitely many replayed labels every label is covered by a non-dominated one |
| `ParetoFront.HeadIsBestExactly` | scripts/_quality_gate.py:5001-5064 | at any budget, the head of the archive is lexicographically no worse (uncovered facets, distance, depth, roles) than a label if and only if some considered label is |
| `ParetoFront.ConsistentIdentitiesKeepTheBest` | scripts/_quality_gate.py:5001-5064 | if identities determine labels, truncation never loses the best: the head is no worse than every label ever offered |
| `ParetoFront.RunsKeepFrontAndBest` | scripts/_quality_gate.py:4906-5073 | both laws for the archive of any node in any run, if equal identities carry equal labels there |
| `SearchLogs.AcceptedExactly` | scripts/_quality_gate.py:4523-4903 | the replay accepts exactly the logs of a closed form that knows no heap, table or running state: every observation pops the first in line of what is queued and not popped, every label reports its pop, distances are rounded sums from the root's entry, and expansions, sizes and totals are where and what they must be |
| `SearchLogs.PopsAreBestFirst` | scripts/_quality_gate.py:4704-4748 | of two events queued together the one popped first has the smaller queue key at the first difference, or the same key and the smaller serial |
| `FrontierOutcomes.PopsComeInOrder` | scripts/_quality_gate.py:4704-4748 | whatever is popped later comes later in (queue key, serial) order, or was not yet queued |
| `FrontierOutcomes.SizesAreCounted` | scripts/_quality_gate.py:4718-4748 | the recorded queue sizes are the entries plus the expansions of the labels admitted so far minus the pops so far |
| `FrontierOutcomes.ExpansionsFillTheLog` | scripts/_quality_gate.py:4838-4881 | the enqueue log in closed form: behind the entries come the expansions of the labels, label by label and edge by edge, each extending its label by that edge |
| `FrontierLaws.QueueIsExact` | scripts/_quality_gate.py:4685-4748 | the frontier holds exactly what was queued and not popped, its size is queued minus popped, and nothing is popped twice |
| `FrontierPaths.QueuedEventsAreChained` | scripts/_quality_gate.py:4608-4673 | prefix closure: every queued state starts at a declared entry and each proper prefix of its path is the path of a label admitted before, which lists the next edge |
| `FrontierPaths.PoppedStatesAreChained` | scripts/_quality_gate.py:4756-4768 | the same for every popped state at the moment it is popped |
| `FrontierPaths.QueuedPathsAreDistinct` | scripts/_quality_gate.py:4608-4673 | no two queued events have the same path and edges |
| `FrontierPaths.RootsAreEntries` | scripts/_quality_gate.py:4819-4829 | a known root distance was recorded by an admitted label without edges |
| `FrontierPaths.EntriesAreUnique` | scripts/_quality_gate.py:4819-4829 | no root is entered twice, so a second entry distance never arises |
| `FrontierPaths.GuardsNeverFire` | scripts/_quality_gate.py:4631-4829 | dropping the two predecessor tests, the missing-root test, the second-entry test and the duplicate-event test changes no verdict |
| `FrontierOutcomes.PopOrderIsForced` | scripts/_quality_gate.py:4704-4748 | two accepted logs with the same enqueue log, admitted flags and expansion counts have the same pops, states, keys, recorded sizes and remaining count |
| `FrontierOutcomes.QueueIsConserved` | scripts/_quality_gate.py:4884-4903 | enqueues = observations + remaining; the declared expansion count is the sum of the labels' expansion lists; as many labels as admitted pops |
| `FrontierOutcomes.ExhaustedMeansAllPopped` | scripts/_quality_gate.py:4898-4903 | with nothing remaining, every queued state was popped, once |
| `FrontierOutcomes.StepListsTheExpansions` | scripts/_quality_gate.py:4886-4894 | the step lists exactly the edges that some label expands, each once, in the order of their first appearance |
| `FrontierOutcomes.DistanceIsAccountedFor` | scripts/_quality_gate.py:4816-4837 | a label of n edges lies within n half-units plus the tolerance of its root's entry distance plus the exact sum of its edges, and exactly on it when all values are on the grid |
| `FrontierOutcomes.StopReasonExactly` | scripts/_quality_gate.py:5375-5424 | under the replayed budget a completed, non-skipped walk has no stop reason exactly when it had entries, budget left and work left; hard_budget_hit exactly when it had entries and spent the budget; no entries means an empty run |
| `FrontierOutcomes.ReasonExactly` | scripts/_quality_gate.py:5375-5401 | when each stop reason is given, and when none is, whatever the facts |
| `FrontierOutcomes.BudgetExactly` | scripts/_quality_gate.py:5404-5424 | the budget is entries times top-k, either counted as one if it is zero |
| `FrontierReplay.PopMinimum` | scripts/_quality_gate.py:4719-4723 | the popped serial is the minimum and leaves the heap |
| `FrontierReplay.FindPredecessor` | scripts/_quality_gate.py:4756-4768 | the dictionary lookup finds exactly whether an admitted label has the shorter path and lists the edge |
| `FrontierReplay.AccumulateDistance` | scripts/_quality_gate.py:4830-4833 | the loop computes the distance rounded after every edge |
| `FrontierReplay.QueueExpansions` | scripts/_quality_gate.py:4841-4881 | succeeds exactly when the next events queue the label's expansions in order; then the heap has grown by just those |
| `FrontierReplay.MatchPop` | scripts/_quality_gate.py:4704-4748 | pops the heap and accepts exactly when the observation records that pop |
| `FrontierReplay.MatchAdmission` | scripts/_quality_gate.py:4770-4883 | accepts exactly when all tests on an admitted observation hold, and keeps the four structures in step with the abstract state |
| `FrontierReplay.ReplayObservation` | scripts/_quality_gate.py:4704-4883 | one loop pass accepts exactly when the step and its guards hold |
| `FrontierReplay.ReplayFrontierPathLabelClosure` | scripts/_quality_gate.py:4523-4903 | the whole replay accepts exactly the logs the state machine accepts, which are exactly those of the closed form |
| `JointReplay.EveryQueuedStateIsAccountedFor` | scripts/_quality_gate.py:5670-5745 | passing both replays: enqueues = still queued + retained + pruned by dominance + cut by the label budget |
| `JointReplay.RetainedWasAdmitted` | scripts/_quality_gate.py:5064-5073 | a label still retained was recorded as admitted by the observation that offered it |
| `JointReplay.RetainedLabelsAreReported` | scripts/_quality_gate.py:5670-5745 | passing both replays: every label an archive still holds is among the reported path labels, with its path, facets and roles |
| `JointReplay.IdentitiesAreDistinct` | scripts/_quality_gate.py:5670-5745 | in a log that passes both replays, under a collision-free hash, no two observations share a path identity |
| `JointReplay.RepeatBranchIsDead` | scripts/_quality_gate.py:4991-4997 | so the test for a retained identity never succeeds |
| `JointReplay.UncutHistory` | scripts/_quality_gate.py:5061-5073 | a run that ends with a label-budget count of zero cut nothing at any node |
| `JointReplay.AcceptedRunsKeepFrontAndBest` | scripts/_quality_gate.py:5670-5745 | in such a log, at every node, the head is no worse than every label observed, and with a label-budget count of zero the retained labels are exactly the Pareto front of those observed |
| `RewardOutcomes.AcceptedPathExactly` | scripts/_quality_gate.py:5183-5372 | a path is accepted if and only if there are totals, from zero on, along which the event of every returning edge says what it must and adds what it earned, and declared reward and cap agree with the last |
| `RewardOutcomes.EventExactly` | scripts/_quality_gate.py:5257-5356 | an event is taken if and only if, by what is left of the cap and the length of the cycle, it is refused with the right edges and reason or rewarded with the decayed strength, capped |
| `RewardOutcomes.StepExactly` | scripts/_quality_gate.py:5257-5356 | one wrong event makes the path wrong for good; its reward still counts towards the total if it is recorded at all |
| `RewardOutcomes.TotalAfter` | scripts/_quality_gate.py:5322-5357 | a right event adds the rounded reward it has earned to the total |
| `CycleReward.CycleCount` | scripts/_quality_gate.py:5203-5254 | expected cycles number path length minus distinct nodes |
| `CycleReward.CyclesAreClosedWalks` | scripts/_quality_gate.py:5220-5253 | each is a closed walk along the path back to the latest visit, not revisiting its end inside, with the rounded sum of its distances |
| `CycleReward.MatchedEventAddsRounded` | scripts/_quality_gate.py:5321-5357 | a matched event raises the total by exactly the rounded expected reward |
| `CycleReward.NoOverdraftExactly` | scripts/_quality_gate.py:5279-5357 | no matched event can take the total over the cap if and only if at least 0.04 of it is left or rounding what is left does not raise it |
| `CycleReward.AcceptedOverdraftExactly` | scripts/_quality_gate.py:5183-5372 | some accepted path earns more than its cap if and only if the threshold is positive and a multiple of 1e-6 lies above the cap but within 1e-9 of it |
| `CycleReward.OffGridCapOverdraws` | scripts/_quality_gate.py:5183-5372 | such a path: one self-loop under a cap of 0.0000009995, accepted with a total of 0.000001 |
| `CycleReward.GridCapIsNeverExceeded` | scripts/_quality_gate.py:5257-5357 | for a cap of whole micro-units the total of a valid run never exceeds the cap, never falls, and stays once the cap is used up |
| `CycleReward.CapTestIsIdle` | scripts/_quality_gate.py:5371-5371 | then the final cap test cannot fail |
| `RewardReplay.CollectCycles` | scripts/_quality_gate.py:5219-5254 | the loop collects exactly the cycles the path closes |
| `RewardReplay.AccumulateRewards` | scripts/_quality_gate.py:5257-5357 | the loop computes the running verdict and total over paired events and cycles |
| `RewardReplay.ReplayPathCycleReward` | scripts/_quality_gate.py:5183-5372 | accepts exactly when cap and threshold are given and non-negative and the path is right for some totals: one event per repeated node, every event right at the total so far, declared reward and cap in agreement with the last |
| `CalibrationOutcomes.QuantileExactly` | scripts/_quality_gate.py:881-897 | with (n - 1) q = k + t the quantile lies the fraction t of the way from the k-th smallest value to the next |
| `CalibrationOutcomes.BoundsExactly` | scripts/_quality_gate.py:1226-1249 | which fallback is used, by the number of values and the span of the rounded quantiles, and otherwise that these are the bounds |
| `CalibrationOutcomes.NormalizedExactly` | scripts/_quality_gate.py:877-878 | strengths are rounded and kept between 1e-6 and 1 |
| `CalibrationOutcomes.StrengthExactly` | scripts/_quality_gate.py:1251-1265 | outside fallback a strength divides the range above the floor as it divides the range between the bounds, rounded; beyond them it is the floor or 1 |
| `CalibrationOutcomes.FallbackKeepsRaw` | scripts/_quality_gate.py:1253-1254 | in fallback the raw strength stands |
| `CalibrationOutcomes.DistanceExactly` | scripts/_quality_gate.py:966-969 | the distance is the rounded negative logarithm of the strength as kept, or zero within 1e-9 |
| `CalibrationOutcomes.ViolationsExactly` | scripts/_quality_gate.py:1294-1294 | the violation count is the number of rows weaker or farther than the one before |
| `Calibration.SortSorts` | scripts/_quality_gate.py:889-889 | the ordered values are an ascending permutation |
| `Calibration.ValueAtMonotone` | scripts/_quality_gate.py:890-896 | interpolation stays between the extremes and rises with the position |
| `Calibration.QuantileHitsOrderStatistics` | scripts/_quality_gate.py:890-896 | at position k the quantile is the k-th smallest value |
| `Calibration.QuantileMonotone` | scripts/_quality_gate.py:881-897 | quantiles lie between least and greatest value and are monotone in q |
| `Calibration.NormalizedMonotone` | scripts/_quality_gate.py:877-878 | clamping and rounding a strength is monotone and lands in [1e-6, 1] |
| `Calibration.GuardIsIdle` | scripts/_quality_gate.py:1242-1257 | outside fallback the span exceeds 0.009, so the divisor guard never acts |
| `Calibration.CalibrationMonotone` | scripts/_quality_gate.py:1252-1265 | outside fallback calibration is monotone, lands in [floor, 1] and sends everything at or beyond a bound to the end |
| `Calibration.DistanceAntitone` | scripts/_quality_gate.py:966-969 | a stronger relation is never farther, and no distance is negative |
| `Calibration.OrderedHasNoViolations` | scripts/_quality_gate.py:1294-1294 | rising strengths and falling distances have no monotonicity violations |
| `Calibration.CalibrateEdgeType` | scripts/_quality_gate.py:1226-1269 | the loop over one edge type: strengths rise, distances fall, calibrated values lie in [floor, 1], and the declared violation count of zero is right |
| `Lexer.TokensExactly` | scripts/_quality_gate.py:6322-6322 | the tokens of a text are the one list of slices in order, each the longest of the four forms from its start, outside of which no token starts |
| `Lexer.TokensOrdered` | scripts/_quality_gate.py:6322-6322 | tokens are non-empty, in order, disjoint |
| `Lexer.UncoveredIsSpace` | scripts/_quality_gate.py:6322-6322 | only white space lies between tokens |
| `Lexer.PrefixStable` | scripts/_quality_gate.py:6336-6349 | cutting a text at the end of its n-th token and tokenising again gives exactly the first n tokens |
| `Lexer.CuttingInsideATokenCanAddTokens` | scripts/_quality_gate.py:6322-6322 | cutting inside a token can raise the count, so the cut must be at a token end |
| `PackingOutcomes.SelectionIsGreedy` | scripts/_quality_gate.py:6330-6349 | each candidate is charged all its tokens if they fit into what is left, else all that is left if nothing was charged before and it can be cut there, else nothing; the charged ones are selected in order, up to the last token charged, and the others with tokens skipped |
| `PackingOutcomes.GreedyIsUnique` | scripts/_quality_gate.py:6330-6349 | charges and selection are determined by that |
| `PackingOutcomes.AuditExactly` | scripts/_quality_gate.py:6318-6369 | the audit accepts exactly the packages that carry the greedy selection in order among retained chunks and report hits, skips, clips and tokens as they are |
| `Packing.ClippedCount` | scripts/_quality_gate.py:6343-6349 | a clipped text recounts to exactly the tokens charged for it |
| `Packing.SelectionKeepsBudget` | scripts/_quality_gate.py:6330-6349 | used tokens never exceed the cap and equal a recount; all texts are whole, or there is one clipped text of exactly cap tokens |
| `Packing.EveryCandidateIsAccountedFor` | scripts/_quality_gate.py:6330-6349 | every candidate is selected, or skipped and too big even for what is left at the end, or empty |
| `Packing.OutcomesComeFromCandidates` | scripts/_quality_gate.py:6330-6349 | selected and skipped ids are candidates with tokens, and none is both |
| `Packing.SelectionIsFaithful` | scripts/_quality_gate.py:6343-6348 | a selected text is a whole candidate with its span, or a non-empty front of one whose span stays inside |
| `PackingAudit.SelectCandidates` | scripts/_quality_gate.py:6330-6349 | the loop computes the greedy selection |
| `PackingAudit.AuditPackingSelection` | scripts/_quality_gate.py:6318-6369 | accepts exactly the packages right for the greedy selection, and those are sound: its own chunks fit the cap and are candidates or fronts of candidates, and every candidate is shown by a chunk, or would not fit into what is left, or is empty |
| `Packing.AcceptedPackageIsSound` | scripts/_quality_gate.py:6350-6368 | the same for every package that agrees with the selection, retained chunks or not; without them it holds exactly the selected texts in order and its token count is what was charged |
| `TrainingTraces.TrainingTraces` | scripts/_graph_scalar_reference.py:24-41 | a codebook of several centres ends a trace: from seeds spread over the stably sorted vectors, at most eight passes, each moving every centre to the mean of what it is first nearest to, until a pass would settle |
| `TrainingTraces.PassExactly` | scripts/_graph_scalar_reference.py:34-37 | one pass moves each centre to the mean of the vectors it serves and leaves one that serves none |
| `TrainingTraces.SortIsStable` | scripts/_graph_scalar_reference.py:28-28 | vectors are sorted by key, and those with equal keys keep their order |
| `TrainingTraces.SingleCentreIsMean` | scripts/_graph_scalar_reference.py:29-30 | a codebook of one centre is the mean of all vectors |
| `TrainingTraces.DistanceIsSum` | scripts/_graph_scalar_reference.py:11-12 | the squared distance is the sum of the squared differences |
| `TrainingTraces.EncodingExactly` | scripts/_graph_scalar_reference.py:58-65 | encoding finds the one path that names at each level the first nearest centre to what the levels before left |
| `ResidualLevels.LevelSizes` | scripts/_graph_scalar_reference.py:50-51 | every level has one centre more than the whole root of n, but no more than max_k or n, and at least one |
| `Codebooks.NearestIsFirstLeast` | scripts/_graph_scalar_reference.py:20-21 | the nearest centre is the first at the least distance |
| `Codebooks.ParallelAxis` | scripts/_graph_scalar_reference.py:15-17 | the energy to any point is the energy to the centroid plus n times their squared distance |
| `Codebooks.EnergyIsLeast` | scripts/_graph_scalar_reference.py:35-36 | serving each vector by its nearest centre costs no more than any other assignment |
| `Codebooks.LloydDescends` | scripts/_graph_scalar_reference.py:33-40 | one pass never raises the nearest-centre energy |
| `Codebooks.UpdateBeatsZero` | scripts/_graph_scalar_reference.py:34-37 | after any update the energy is at most the input energy, whatever the centres were |
| `Codebooks.ConvergedNearlyBeatsZero` | scripts/_graph_scalar_reference.py:38-39 | centres that pass the stop test leave at most the input energy plus n times 1e-12 |
| `Codebooks.LloydNeverAscends` | scripts/_graph_scalar_reference.py:33-41 | the whole training loop never raises the energy |
| `Codebooks.LloydBound` | scripts/_graph_scalar_reference.py:33-41 | with at least one pass, residual energy is at most the input energy plus n times 1e-12 |
| `Codebooks.NoPassNoBound` | scripts/_graph_scalar_reference.py:33-41 | without a pass there is no such bound |
| `Codebooks.SeedsAreDistinct` | scripts/_graph_scalar_reference.py:31-32 | for k at most n the seeds are taken at strictly increasing positions inside the list |
| `Codebooks.CodebookBound` | scripts/_graph_scalar_reference.py:24-41 | a trained codebook is non-empty, of the right dimension, and within that bound |
| `ResidualLevels.Reconstruction` | scripts/_graph_scalar_reference.py:58-65 | a vector is the sum of the centres on its path plus what is left |
| `ResidualLevels.TrainedOnWhatEncodingLeaves` | scripts/_graph_scalar_reference.py:44-65 | level l is trained on exactly what encoding with the first l codebooks leaves |
| `ResidualLevels.LevelsAreCodebooks` | scripts/_graph_scalar_reference.py:44-55 | training yields one codebook per level, or none for no vectors |
| `ResidualLevels.TotalBound` | scripts/_graph_scalar_reference.py:44-55 | L levels leave at most the initial energy plus L times n times 1e-12 |
| `ResidualLevels.LevelSeedsAreDistinct` | scripts/_graph_scalar_reference.py:50-51 | at every level the seeds are distinct, as k never exceeds n |
| `ResidualLevels.KMeansTrainsWithin` | scripts/_graph_scalar_reference.py:50-51 | k-means with the level's size meets what one level promises |
| `TrainingLoops.FillGroups` | scripts/_graph_scalar_reference.py:34-36 | each group holds exactly the vectors nearest to its centre, in order |
| `TrainingLoops.MoveCenters` | scripts/_graph_scalar_reference.py:34-37 | each centre moves to its group's centroid, an unused one stays |
| `TrainingLoops.TrainLloyd` | scripts/_graph_scalar_reference.py:33-41 | the loop with its early break computes the iteration |
| `TrainingLoops.TrainOneCodebook` | scripts/_graph_scalar_reference.py:24-41 | one codebook, with the empty and the single-centre case |
| `TrainingLoops.TrainCodebooksWith` | scripts/_graph_scalar_reference.py:44-55 | the loop over levels, for any way of training one level |
| `TrainingLoops.TrainCodebooks` | scripts/_graph_scalar_reference.py:44-55 | the codebooks, the number of centres of each, and the bound on what they leave |
| `TrainingLoops.PrimaryPath` | scripts/_graph_scalar_reference.py:58-65 | the loop computes the path of nearest centres and the residual, which together give the vector back |
| `Intervals.IntervalUnionMs` | scripts/evaluate_intent_execution.py:307-315 | the loop computes the sweep over the sorted intervals |
| `Intervals.SweepAccounts` | scripts/evaluate_intent_execution.py:310-315 | for starts at or after zero, the total plus its deficit is the measure of the union |
| `Intervals.SweepExactly` | scripts/evaluate_intent_execution.py:307-315 | the sweep never overstates the union and is exact if and only if no interval that stops before it starts reaches beyond what was swept |
| `Intervals.ProperIsExact` | scripts/evaluate_intent_execution.py:307-315 | for 0 <= start <= stop it is exactly the measure of the union |
| `Intervals.OrderAndRepetitionAreIrrelevant` | scripts/evaluate_intent_execution.py:307-315 | then neither order nor repetition matters |
| `Intervals.GuardIsIdleExactly` | scripts/evaluate_intent_execution.py:331-360 | the guard on the time outside the provider is idle if and only if the elapsed time is not negative |
| `Intervals.ProviderTimeExactly` | scripts/evaluate_intent_execution.py:331-337 | after clipping, provider time is exact if and only if no time has elapsed, or no span starts after the elapsed time, or some span that starts in time lasts to its end |
| `Intervals.ProviderTimeIsSpanned` | scripts/evaluate_intent_execution.py:325-337 | without late spans provider time is the time within the elapsed time that some span covers |
| `IntervalOutcomes.UnionExactly` | scripts/evaluate_intent_execution.py:307-315 | for any intervals, reversed ones and negative starts included, the total is the sum of what each, in order of start and stop, adds beyond the furthest stop before it |
| `IntervalOutcomes.ProviderTimeAddsUp` | scripts/evaluate_intent_execution.py:325-337 | so provider time, whatever the spans, is the sum of what each adds within the elapsed time |
| `Intervals.LateSpanSubtracts` | scripts/evaluate_intent_execution.py:307-337 | two spans of which the late one turns the provider time negative |
| `Ancestry.PersistedSnapshot` | scripts/check_context_package_quality.py:144-256 | the recursion terminates by its bound and computes the nested snapshot or the error |
| `Ancestry.BuiltRows` | scripts/check_context_package_quality.py:235-256 | each source is read once, as read on its own below the same ancestors |
| `Ancestry.BuildSucceedsExactly` | scripts/check_context_package_quality.py:155-256 | reading succeeds if and only if every chain of origins from the package repeats nothing, meets no ancestor, stays within 32 and leads to existing packages |
| `Ancestry.FailureIsExplained` | scripts/check_context_package_quality.py:155-256 | a failure is explained by a chain of origins that can be followed up to a package that is an ancestor, repeats, is one too many, or does not exist, as the error says |
| `Ancestry.FirstFailingRow` | scripts/check_context_package_quality.py:201-256 | the error is that of the first failing row, retentions before expansions |
| `AncestryAudit.BuiltShape` | scripts/check_context_package_quality.py:201-256 | a snapshot holds the rows of its package and, for exactly the packages they quote, the snapshots read below it |
| `AncestryAudit.JudgedExactly` | scripts/_quality_gate.py:6393-6401 | the verdict a row is given is that on the origin of the first row whose origin has the same id |
| `AncestryAudit.AuditSnapshot` | scripts/_quality_gate.py:6516-6523 | the audit terminates by its bound and passes exactly when all its parts do |
| `AncestryAudit.AuditExpansions` | scripts/_quality_gate.py:6393-6501 | an expansion row passes by the verdict on the first origin with the same package id |
| `AncestryAudit.AuditRetentions` | scripts/_quality_gate.py:6563-6580 | a retention row passes by the verdict on the origin it names |
| `AncestryAudit.AuditPassesExactly` | scripts/_quality_gate.py:6372-6580 | the audit passes if and only if every trail of judged origins repeats no id, meets no ancestor, keeps to 32, and ends in a package whose rows resolve to others and whose own checks pass |
| `AncestryAudit.PassingMeansSoundTrails` | scripts/_quality_gate.py:6516-6580 | so where no two expansion rows quote different snapshots of one id, a pass vouches for every trail of origins |
| `AncestryAudit.SharedVerdictCanHideACycle` | scripts/_quality_gate.py:6400-6401 | a passing snapshot with two origins of one id, one of which closes a cycle unaudited |
| `AncestryAudit.BuiltAncestryPasses` | scripts/check_context_package_quality.py:235-256 | a snapshot read from the database never fails the ancestry checks |
| `AncestryAudit.BuiltPasses` | scripts/check_context_package_quality.py:235-256 | its audit passes if and only if the own checks pass for it and every package reached from it |
| `Framing.FrameExactly` | scripts/_destructive_cleanup_guard.py:115-116 | an entry is framed by eight bytes of length, most significant first |
| `Framing.StreamReadsBack` | scripts/_destructive_cleanup_guard.py:115-116 | reading the framed stream back gives the entries |
| `Framing.ReadingBackIsFaithful` | scripts/_destructive_cleanup_guard.py:115-116 | any stream that reads back is the framing of what was read |
| `Framing.StreamIsInjective` | scripts/_destructive_cleanup_guard.py:115-116 | two lists of entries have the same stream if and only if they are equal |
| `Inventory.InventoryBuilder.constructor` | scripts/_destructive_cleanup_guard.py:65-88 | a new builder holds nothing |
| `Inventory.InventoryBuilder.Create` | scripts/_destructive_cleanup_guard.py:75-88 | construction is refused exactly for a limit outside 1..100000 |
| `Inventory.StopsExactly` | scripts/_destructive_cleanup_guard.py:102-114 | a scope is read to its end if and only if it keeps to the limit and no entry is too long for its frame; otherwise reading stops at the first entry that is one too many or too long |
| `Inventory.InventoryBuilder.AddScope` | scripts/_destructive_cleanup_guard.py:90-124 | a scope is added if and only if its name is new, it keeps to the limit and no entry is too long for its frame; its card counts all entries and shows the first twenty; a call that stops at its k-th entry has already advanced the total by k and adds no scope |
| `Inventory.InventoryBuilder.Finalize` | scripts/_destructive_cleanup_guard.py:126-158 | the cards are those of the scopes added, ascending by name; the commitment lists them in that order and its total includes what raised calls counted |
| `Inventory.OrderOfScopesIsIrrelevant` | scripts/_destructive_cleanup_guard.py:127-134 | builders with the same scopes finalise the same cards whatever the order of adding |
| `Inventory.CommitmentsExactly` | scripts/_destructive_cleanup_guard.py:127-134 | with a collision-free digest, two lists of scopes commit to the same thing if and only if they hold the same scopes with the same entries in order |
| `Inventory.TotalIsTheSumExactly` | scripts/_destructive_cleanup_guard.py:105-147 | the committed total is the sum of the committed counts if and only if no call raised midway |
| `Inventory.FinalisedPastItsLimit` | scripts/_destructive_cleanup_guard.py:105-158 | a builder that raised at its limit of one is finalised with a total of two and no scope |
| `Inventory.InventoryHashExactly` | scripts/_destructive_cleanup_guard.py:135-153 | with collision-free hashes, inventory hashes agree if and only if operation, limit, contents and the number of lost entries do |

## Left out

- IEEE floating point: numbers are reals, rounding to six decimals is exact half-even; NaN and infinities appear only as missing values.
- SHA-256 and canonical JSON: hash functions are arbitrary function values, identities of enqueue events are compared by the fields they commit to.
- `exp` and `-log`: arbitrary functions; calibration assumes the latter non-negative and antitone on [1e-6, 1], the cap results assume the former non-negative, those on overdrawn caps also that it is at most one and is one at zero.
- Records with missing or ill-typed fields: one malformed constructor per record type instead of one branch per field; an observation must carry well-typed fields to be an `Observation`.
- Lists the replay demands to be sorted and free of duplicates (facets, roles, required facets) are sets; strings are sequences of characters and compared by code point.
- The repair carry-forward labels: the frontier replay reads the path labels left once they have been set aside; their own field checks are not modelled.
- `heapq`: the heap is a list from which the minimum is removed, its array layout is not modelled.
- FrontierReplay.PopMinimum: searches the list instead of sifting, for the same reason.
- ArchiveReplay.OfferInPlace: the per-node list is a value that the method returns anew, so aliasing between nodes' lists is not modelled.
- Vectors of different lengths: training and encoding are modelled for vectors of one dimension, where the source's `zip` truncates; the sort by hash is a sort by an arbitrary integer key.
- TrainingLoops.TrainCodebooksWith: takes the training of one level as a function value, which `TrainCodebooks` instantiates with k-means.
- Calibration.CalibrateEdgeType: the rows of one edge type are given as their raw strengths in ascending order; the row identifiers that break ties, the distributions and hashes of the statistics are left out.
- PackingAudit.AuditPackingSelection: candidate facts are assumed to be found for every candidate; their state and knowledge base, and the retained rows' own checks, are left out.
- Lexer: the Unicode classes of digits and white space are arbitrary predicates.
- Intervals.ProviderTimeExactly: asks for spans of non-negative duration; rounding to milliseconds is left out.
- AncestryAudit.AuditSnapshot: all checks of one package that do not follow its origins are one arbitrary predicate.
- Ancestry.PersistedSnapshot: the database is a finite map from package ids to the ids its rows quote; chunks, documents and witnesses are left out.
- Inventory.InventoryBuilder.AddScope: entries are given in their canonical encoding; an error raised by the iterable or by the encoder is left out.
- `combine_inventories` and `require_exact_confirmation`: short bodies that add no harder property.
- The rankings in `_audit_candidate_pool` and `_audit_topk_ranking`, the class `_Audit`, the field-by-field checks of cards, facets and actions: conjunctions settled by reading.
- Database, vector store, HTTP, command line and report writing.
