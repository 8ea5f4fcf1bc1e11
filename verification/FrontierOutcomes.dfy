/** What a completed replay determines: the order of pops, the fate of every
    queued state, the recorded distances, and the reason for stopping. */
module FrontierOutcomes {
  import opened Rounding
  import opened Ordering
  import opened Labels
  import opened Archive
  import opened Basics
  import opened Options
  import opened Frontier
  import opened FrontierLaws
  import opened FrontierPaths

  // ---- the order of pops is forced -----------------------------------------

  lemma MinimumIsUnique(log: Log, frontier: set<nat>, j: nat, k: nat)
    requires forall x | x in frontier :: x < |log.enqueues|
    requires IsMinimum(log, frontier, j) && IsMinimum(log, frontier, k)
    ensures j == k
  {
    var kj, kk := log.enqueues[j].queueKey + [j as real], log.enqueues[k].queueKey + [k as real];
    assert Before(log, j, k) && Before(log, k, j);
    LexAntisymmetric(kj, kk);
    assert kj[|kj| - 1] == kk[|kk| - 1];
    assert (j as real).Floor == (k as real).Floor;
  }

  /** Two logs that agree on what was queued, on which pops were admitted, and on
      how many edges each admitted label expands. */
  ghost predicate SameDecisions(a: Log, b: Log) {
    && a.enqueues == b.enqueues
    && a.initialEntryIds == b.initialEntryIds
    && |a.observations| == |b.observations|
    && (forall i | 0 <= i < |a.observations| :: a.observations[i].admitted == b.observations[i].admitted)
    && |a.labels| == |b.labels|
    && (forall j | 0 <= j < |a.labels| :: |a.labels[j].expandedEdgeIds| == |b.labels[j].expandedEdgeIds|)
  }

  ghost predicate SameQueue(s: Progress, t: Progress) {
    s.frontier == t.frontier && s.next == t.next && s.active == t.active
  }

  lemma NextState(log: Log, states: seq<Progress>, n: nat, i: nat)
    requires IsReplay(log, states, n) && i < n
    ensures 0 <= log.observations[i].frontierSerial && states[i].active <= |log.labels|
    ensures var k := log.observations[i].frontierSerial as nat;
            if log.observations[i].admitted then
              && states[i].active < |log.labels|
              && var grown := states[i].next + |log.labels[states[i].active].expandedEdgeIds|;
              && states[i + 1].frontier == states[i].frontier - {k} + Serials(states[i].next, grown)
              && states[i + 1].next == grown && states[i + 1].active == states[i].active + 1
            else
              states[i + 1] == states[i].(frontier := states[i].frontier - {k})
  {
    QueueIsExact(log, states, n, i);
    assert Passes(log, states, i);
  }

  lemma SamePop(a: Log, sa: seq<Progress>, b: Log, sb: seq<Progress>, n: nat, i: nat)
    requires IsReplay(a, sa, n) && IsReplay(b, sb, n) && SameDecisions(a, b)
    requires i < n && SameQueue(sa[i], sb[i])
    ensures a.observations[i].Observation? && b.observations[i].Observation?
    ensures a.observations[i].frontierSerial == b.observations[i].frontierSerial
    ensures a.observations[i].candidateState == b.observations[i].candidateState
    ensures a.observations[i].queueKey == b.observations[i].queueKey
    ensures a.observations[i].queueSizeBeforePop == b.observations[i].queueSizeBeforePop
    ensures a.observations[i].queueSizeAfterPop == b.observations[i].queueSizeAfterPop
  {
    var j := PopFacts(a, sa, n, i);
    var k := PopFacts(b, sb, n, i);
    assert IsMinimum(a, sb[i].frontier, k) by {
      forall x | x in sb[i].frontier ensures Before(a, k, x) {
        assert Before(b, k, x);
      }
    }
    MinimumIsUnique(a, sa[i].frontier, j, k);
  }

  lemma {:induction false} QueuesAgree(a: Log, sa: seq<Progress>, b: Log, sb: seq<Progress>, n: nat, i: nat)
    requires IsReplay(a, sa, n) && IsReplay(b, sb, n) && SameDecisions(a, b) && i <= n
    ensures SameQueue(sa[i], sb[i])
  {
    if i > 0 {
      QueuesAgree(a, sa, b, sb, n, i - 1);
      SamePop(a, sa, b, sb, n, i - 1);
      NextState(a, sa, n, i - 1);
      NextState(b, sb, n, i - 1);
    }
  }

  /** The enqueue log, the admitted flags and the expansion counts determine the
      whole sequence of pops and every recorded queue size. */
  lemma PopOrderIsForced(a: Log, sa: seq<Progress>, b: Log, sb: seq<Progress>, i: nat)
    requires Completes(a, sa) && Completes(b, sb) && SameDecisions(a, b) && i < |a.observations|
    ensures a.observations[i].Observation? && b.observations[i].Observation?
    ensures a.observations[i].frontierSerial == b.observations[i].frontierSerial
    ensures a.observations[i].candidateState == b.observations[i].candidateState
    ensures a.observations[i].queueKey == b.observations[i].queueKey
    ensures a.observations[i].queueSizeBeforePop == b.observations[i].queueSizeBeforePop
    ensures a.observations[i].queueSizeAfterPop == b.observations[i].queueSizeAfterPop
    ensures a.terminal.frontierRemainingCount == b.terminal.frontierRemainingCount
  {
    var n := |a.observations|;
    QueuesAgree(a, sa, b, sb, n, i);
    SamePop(a, sa, b, sb, n, i);
    QueuesAgree(a, sa, b, sb, n, n);
  }

  /** What is popped later either comes later in (queue key, serial) order, or was
      not yet queued. */
  lemma PopsComeInOrder(log: Log, states: seq<Progress>, n: nat, i: nat, m: nat)
    requires IsReplay(log, states, n) && i < m < n
    ensures log.observations[i].Observation? && log.observations[m].Observation?
    ensures 0 <= log.observations[i].frontierSerial < |log.enqueues|
    ensures 0 <= log.observations[m].frontierSerial < |log.enqueues|
    ensures || Before(log, log.observations[i].frontierSerial, log.observations[m].frontierSerial)
            || states[i].next <= log.observations[m].frontierSerial
  {
    var j := PopFacts(log, states, n, i);
    var k := PopFacts(log, states, n, m);
    QueueIsExact(log, states, n, i);
    QueueIsExact(log, states, n, m);
    PoppedStaysPopped(log, i, m);
  }

  lemma {:induction false} PoppedStaysPopped(log: Log, i: nat, m: nat)
    requires i <= m <= |log.observations| && forall o | o in log.observations :: o.Observation?
    ensures PoppedSerials(log, i) <= PoppedSerials(log, m)
  {
    if i < m {
      PoppedStaysPopped(log, i, m - 1);
    }
  }

  /** The recorded queue sizes count what was queued minus what was popped. */
  lemma SizesAreCounted(log: Log, states: seq<Progress>, n: nat, i: nat)
    requires IsReplay(log, states, n) && i < n
    ensures log.observations[i].Observation? && AdmittedCount(log.observations[..i]) <= |log.labels|
    ensures log.observations[i].queueSizeBeforePop
            == InitialCount(log) + TotalExpansions(log.labels[..AdmittedCount(log.observations[..i])]) - i
    ensures log.observations[i].queueSizeAfterPop == log.observations[i].queueSizeBeforePop - 1
  {
    var k := PopFacts(log, states, n, i);
    QueueIsExact(log, states, n, i);
    CountsAlongTheRun(log, states, n, i);
  }

  // ---- conservation --------------------------------------------------------

  function TotalExpansions(labels: seq<PathLabel>): nat {
    if labels == [] then 0
    else TotalExpansions(labels[..|labels| - 1]) + |labels[|labels| - 1].expandedEdgeIds|
  }

  function AdmittedCount(obs: seq<Observation>): nat {
    if obs == [] then 0
    else AdmittedCount(obs[..|obs| - 1]) + if obs[|obs| - 1].admitted then 1 else 0
  }

  lemma CountStep(log: Log, states: seq<Progress>, n: nat, i: nat)
    requires IsReplay(log, states, n) && i < n
    ensures states[i].active <= |log.labels|
    ensures if log.observations[i].admitted then
              && states[i].active < |log.labels| && states[i + 1].active == states[i].active + 1
              && states[i + 1].next == states[i].next + |log.labels[states[i].active].expandedEdgeIds|
            else
              states[i + 1].active == states[i].active && states[i + 1].next == states[i].next
  {
    NextState(log, states, n, i);
  }

  lemma OneMore(obs: seq<Observation>, labels: seq<PathLabel>, i: nat, j: nat)
    ensures i < |obs| ==> AdmittedCount(obs[..i + 1]) == AdmittedCount(obs[..i]) + if obs[i].admitted then 1 else 0
    ensures j < |labels| ==> TotalExpansions(labels[..j + 1]) == TotalExpansions(labels[..j]) + |labels[j].expandedEdgeIds|
  {
    if i < |obs| { assert obs[..i + 1][..i] == obs[..i]; }
    if j < |labels| { assert labels[..j + 1][..j] == labels[..j]; }
  }

  lemma {:induction false} CountsAlongTheRun(log: Log, states: seq<Progress>, n: nat, i: nat)
    requires IsReplay(log, states, n) && i <= n
    ensures states[i].active == AdmittedCount(log.observations[..i]) <= |log.labels|
    ensures states[i].next == InitialCount(log) + TotalExpansions(log.labels[..states[i].active])
  {
    if i > 0 {
      CountsAlongTheRun(log, states, n, i - 1);
      CountStep(log, states, n, i - 1);
      OneMore(log.observations, log.labels, i - 1, states[i - 1].active);
    }
  }

  /** Every queued state is popped once or still queued; every expansion listed by
      an admitted label was queued; every label belongs to an admitted pop. */
  lemma QueueIsConserved(log: Log, states: seq<Progress>)
    requires Completes(log, states)
    ensures |log.enqueues| == |log.observations| + log.terminal.frontierRemainingCount
    ensures log.terminal.frontierExpansionCount == TotalExpansions(log.labels)
    ensures |log.labels| == AdmittedCount(log.observations)
    ensures |PoppedSerials(log, |log.observations|)| == |log.observations|
    ensures forall k | k in PoppedSerials(log, |log.observations|) :: 0 <= k < |log.enqueues|
  {
    var n := |log.observations|;
    QueueIsExact(log, states, n, n);
    CountsAlongTheRun(log, states, n, n);
    assert log.observations[..n] == log.observations;
    assert log.labels[..|log.labels|] == log.labels;
  }

  /** An exhausted frontier means that every queued state was popped exactly once. */
  lemma ExhaustedMeansAllPopped(log: Log, states: seq<Progress>, k: nat)
    requires Completes(log, states) && log.terminal.frontierRemainingCount == 0 && k < |log.enqueues|
    ensures exists i | 0 <= i < |log.observations| :: log.observations[i].frontierSerial == k
    ensures |log.observations| == |log.enqueues|
  {
    var n := |log.observations|;
    QueueIsExact(log, states, n, n);
    assert states[n].frontier == {};
    assert k in PoppedSerials(log, n);
    var i := PoppedWhen(log, n, k);
  }

  lemma {:induction false} PoppedWhen(log: Log, n: nat, k: int) returns (i: nat)
    requires n <= |log.observations| && forall o | o in log.observations :: o.Observation?
    requires k in PoppedSerials(log, n)
    ensures i < n && log.observations[i].frontierSerial == k
  {
    if log.observations[n - 1].frontierSerial == k {
      i := n - 1;
    } else {
      i := PoppedWhen(log, n - 1, k);
    }
  }

  function FirstIndex(ids: seq<string>, id: string): (k: nat)
    requires id in ids
    ensures k < |ids| && ids[k] == id
  {
    var n := |ids| - 1;
    assert ids == ids[..n] + [ids[n]];
    if id in ids[..n] then FirstIndex(ids[..n], id) else n
  }

  lemma {:induction false} FirstIndexIsFirst(ids: seq<string>, id: string)
    requires id in ids
    ensures forall j | 0 <= j < FirstIndex(ids, id) :: ids[j] != id
  {
    var n := |ids| - 1;
    if id in ids[..n] {
      FirstIndexIsFirst(ids[..n], id);
    }
  }

  ghost predicate InOrderOfAppearance(ids: seq<string>, firsts: seq<string>) {
    && (forall id :: id in firsts <==> id in ids)
    && forall i, j | 0 <= i < j < |firsts| :: FirstIndex(ids, firsts[i]) < FirstIndex(ids, firsts[j])
  }

  lemma AppearsLater(front: seq<string>, last: string, firsts: seq<string>)
    requires InOrderOfAppearance(front, firsts)
    ensures InOrderOfAppearance(front + [last], if last in firsts then firsts else firsts + [last])
  {
    var ids := front + [last];
    assert ids[..|ids| - 1] == front;
    forall id | id in front ensures FirstIndex(ids, id) == FirstIndex(front, id) < |front| {
    }
    forall i | 0 <= i < |firsts| ensures firsts[i] in front {
      assert firsts[i] in firsts;
    }
  }

  lemma FirstOccurrencesSnoc(front: seq<string>, last: string)
    ensures FirstOccurrences(front + [last])
            == if last in FirstOccurrences(front) then FirstOccurrences(front) else FirstOccurrences(front) + [last]
  {
    assert (front + [last])[..|front|] == front;
  }

  lemma SnocInOrder(front: seq<string>, last: string, firsts: seq<string>, more: seq<string>)
    requires InOrderOfAppearance(front, firsts) && more == if last in firsts then firsts else firsts + [last]
    ensures InOrderOfAppearance(front + [last], more)
  {
    AppearsLater(front, last, firsts);
  }

  /** First occurrences, each once, in the order of their first appearance. */
  lemma {:induction false} FirstOccurrencesExactly(ids: seq<string>)
    ensures InOrderOfAppearance(ids, FirstOccurrences(ids))
  {
    if ids != [] {
      var front, last := SplitLast(ids);
      FirstOccurrencesSnoc(front, last);
      FirstOccurrencesExactly(front);
      SnocInOrder(front, last, FirstOccurrences(front), FirstOccurrences(ids));
    }
  }

  lemma {:induction false} ConcatExpansionsHold(labels: seq<PathLabel>, id: string)
    ensures id in ConcatExpansions(labels) <==> exists l | l in labels :: id in l.expandedEdgeIds
  {
    if labels != [] {
      ConcatExpansionsHold(labels[..|labels| - 1], id);
      assert labels == labels[..|labels| - 1] + [labels[|labels| - 1]];
    }
  }

  /** The step lists the edges its labels expand, each once, in the order in which
      the labels first expand them. */
  lemma StepListsTheExpansions(log: Log, states: seq<Progress>, id: string)
    requires Completes(log, states)
    ensures id in log.stepExpandedEdgeIds <==> exists l | l in log.labels :: id in l.expandedEdgeIds
    ensures InOrderOfAppearance(ConcatExpansions(log.labels), log.stepExpandedEdgeIds)
  {
    FirstOccurrencesExactly(ConcatExpansions(log.labels));
    ConcatExpansionsHold(log.labels, id);
  }

  /** The enqueue log in closed form: behind the entries come the expansions of the
      labels, label by label and edge by edge, each one edge longer than its label. */
  lemma ExpansionsFillTheLog(log: Log, states: seq<Progress>, l: nat, at: nat)
    requires Completes(log, states) && l < |log.labels| && at < |log.labels[l].expandedEdgeIds|
    ensures var j := InitialCount(log) + TotalExpansions(log.labels[..l]) + at;
            && j < |log.enqueues|
            && var e, from := log.enqueues[j], log.labels[l];
            && e.edgeId == Some(from.expandedEdgeIds[at])
            && e.candidateState.path != []
            && e.candidateState.path[..|e.candidateState.path| - 1] == from.path
            && e.candidateState.pathEdgeIds == from.pathEdgeIds + [from.expandedEdgeIds[at]]
  {
    var n := |log.observations|;
    var t := AdmittedWhen(log, states, n, n, l);
    CountsAlongTheRun(log, states, n, t);
    var popped, expanded := AdmitFacts(log, states, n, t);
    LabelReportsItsPath(log, states, n, t);
    assert Extends(log, log.enqueues[states[t].next + at], popped, expanded[at]);
  }

  lemma LabelReportsItsPath(log: Log, states: seq<Progress>, n: nat, t: nat)
    requires IsReplay(log, states, n) && t < n && log.observations[t].admitted
    ensures states[t].active < |log.labels| == |log.frontierRows| && log.frontierRows[states[t].active].Snapshot?
    ensures var l, popped := log.labels[states[t].active], log.frontierRows[states[t].active].popped;
            l.path == popped.path && l.pathEdgeIds == popped.pathEdgeIds
  {
    assert Passes(log, states, t);
  }

  // ---- accumulated rounding ------------------------------------------------

  lemma {:induction false} AccumulateError(start: real, xs: seq<real>)
    ensures -(|xs| as real) * 0.0000005 <= Accumulate(start, xs) - (start + Sum(xs)) <= |xs| as real * 0.0000005
  {
    if xs != [] {
      var front, last := xs[..|xs| - 1], xs[|xs| - 1];
      AccumulateError(start, front);
      Round6Error(Accumulate(start, front) + last);
      assert |xs| as real == |front| as real + 1.0;
    }
  }

  lemma {:induction false} AccumulateExact(start: real, xs: seq<real>)
    requires OnGrid(start) && forall x | x in xs :: OnGrid(x)
    ensures OnGrid(Accumulate(start, xs)) && Accumulate(start, xs) == start + Sum(xs)
  {
    if xs != [] {
      var front, last := xs[..|xs| - 1], xs[|xs| - 1];
      AccumulateExact(start, front);
      OnGridSum(Accumulate(start, front), last);
      Round6Fixes(Accumulate(start, front) + last);
    }
  }

  /** The distance a label may claim: within half a unit per edge, plus the
      tolerance, of its root's entry distance plus the exact sum of its edges; and
      exactly that when everything lies on the six-decimal grid. */
  lemma DistanceIsAccountedFor(log: Log, states: seq<Progress>, n: nat, i: nat)
    returns (popped: State, entry: State, t: nat)
    requires IsReplay(log, states, n) && i < n && log.observations[i].admitted
    ensures states[i].active < |log.frontierRows| && log.frontierRows[states[i].active] .Snapshot?
    ensures popped == log.frontierRows[states[i].active].popped && popped.pathEdgeDistances.Present?
    ensures t <= i && log.observations[t].admitted && states[t].active < |log.frontierRows|
    ensures log.frontierRows[states[t].active].Snapshot? && entry == log.frontierRows[states[t].active].popped
    ensures entry.pathEdgeIds == [] && entry.rootNodeId == popped.rootNodeId
    ensures var edges := popped.pathEdgeDistances.values;
            var exact := entry.distanceSoFar + Sum(edges);
            var slack := |edges| as real * 0.0000005 + DISTANCE_REPLAY_ABS_TOLERANCE;
            && |edges| == |popped.pathEdgeIds|
            && -slack <= popped.distanceSoFar - exact <= slack
            && (OnGrid(popped.distanceSoFar) && OnGrid(entry.distanceSoFar) && (forall x | x in edges :: OnGrid(x))
                ==> popped.distanceSoFar == exact)
  {
    var expanded;
    popped, expanded := AdmitFacts(log, states, n, i);
    if popped.pathEdgeIds == [] {
      t, entry := i, popped;
    } else {
      var d := FirstLink(log, states, n, i);
      RootsAreKnown(log, states, n, i, d);
      t := RootsAreEntries(log, states, n, i, popped.rootNodeId);
      entry := log.frontierRows[states[t].active].popped;
    }
    DistanceBound(states[i].roots, popped, entry.distanceSoFar);
  }

  lemma DistanceBound(roots: map<string, real>, popped: State, start: real)
    requires StructureValid(popped, true) && DistanceAccounted(roots, popped) && EntryDistance(roots, popped) == start
    ensures var edges := popped.pathEdgeDistances.values;
            var slack := |edges| as real * 0.0000005 + DISTANCE_REPLAY_ABS_TOLERANCE;
            && |edges| == |popped.pathEdgeIds|
            && -slack <= popped.distanceSoFar - (start + Sum(edges)) <= slack
            && (OnGrid(popped.distanceSoFar) && OnGrid(start) && (forall x | x in edges :: OnGrid(x))
                ==> popped.distanceSoFar == start + Sum(edges))
  {
    var edges := popped.pathEdgeDistances.values;
    AccumulateError(start, edges);
    if OnGrid(popped.distanceSoFar) && OnGrid(start) && forall x | x in edges :: OnGrid(x) {
      AccumulateExact(start, edges);
      GridGap(popped.distanceSoFar, start + Sum(edges));
    }
  }

  // ---- why the walk stopped ------------------------------------------------

  function ExpectedWalkStopReason(facts: TerminalFacts, layer: string): Option<string> {
    if facts.skippedByGranularity in {"mid", "coarse"} then
      Some("skipped_by_granularity=" + facts.skippedByGranularity)
    else if facts.entryCount < 0 || facts.frontierRemainingCount < 0
            || facts.frontierExpansionCount < 0 || facts.frontierBudget < 0 then None
    else if facts.entryCount == 0 then Some(if layer == "chunk" then "frontier_empty" else "no_entry_nodes")
    else if facts.frontierBudget > 0 && facts.frontierExpansionCount >= facts.frontierBudget then Some("hard_budget_hit")
    else if facts.frontierRemainingCount == 0 then Some("frontier_empty")
    else None
  }

  function AtLeastOne(x: int): int {
    if x < 1 then 1 else x
  }

  /** The replayed budget of a layer: entries times the layer's top-k, each read
      as at least one. */
  function ExpectedFrontierBudget(layer: string, topK: map<string, int>, entryCount: nat): Option<int> {
    if layer !in {"coarse", "mid", "chunk"} || layer !in topK || topK[layer] < 0 then None
    else Some(AtLeastOne(entryCount) * AtLeastOne(topK[layer]))
  }

  /** A completed, non-skipped walk under the replayed budget has a stop reason
      exactly when it may stop: nothing was entered, the budget is used up, or the
      frontier is exhausted. A walk that stops with work and budget left has none. */
  lemma StopReasonExactly(log: Log, states: seq<Progress>, topK: map<string, int>)
    requires Completes(log, states) && log.terminal.skippedByGranularity !in {"mid", "coarse"}
    requires ExpectedFrontierBudget(log.layer, topK, InitialCount(log)) == Some(log.terminal.frontierBudget)
    ensures var reason := ExpectedWalkStopReason(log.terminal, log.layer);
            var spent := TotalExpansions(log.labels) >= log.terminal.frontierBudget;
            var exhausted := |log.observations| == |log.enqueues|;
            && (reason == None <==> InitialCount(log) > 0 && !spent && !exhausted)
            && (reason == Some("hard_budget_hit") <==> InitialCount(log) > 0 && spent)
            && (reason == Some("no_entry_nodes") ==> InitialCount(log) == 0)
            && (reason == Some("frontier_empty") ==> exhausted)
            && (InitialCount(log) == 0 ==> log.enqueues == [] && log.observations == [] && log.labels == [])
  {
    QueueIsConserved(log, states);
    BudgetIsPositive(log.layer, topK, InitialCount(log));
    if InitialCount(log) == 0 {
      NoEntriesNoRun(log, states);
    }
  }

  lemma BudgetIsPositive(layer: string, topK: map<string, int>, entryCount: nat)
    ensures var b := ExpectedFrontierBudget(layer, topK, entryCount); b.Some? ==> b.value >= 1
  {
    if layer in topK {
      var e, k := AtLeastOne(entryCount), AtLeastOne(topK[layer]);
      assert e >= 1 && k >= 1;
      assert e * k >= k;
    }
  }

  lemma NoEntriesNoRun(log: Log, states: seq<Progress>)
    requires Completes(log, states) && InitialCount(log) == 0
    ensures log.enqueues == [] && log.observations == [] && log.labels == []
  {
    if log.observations != [] {
      var k := PopFacts(log, states, |log.observations|, 0);
      assert false;
    }
  }

  lemma ReasonsDiffer(skipped: string)
    ensures var reason := "skipped_by_granularity=" + skipped;
            reason != "frontier_empty" && reason != "no_entry_nodes" && reason != "hard_budget_hit"
    ensures "skipped_by_granularity=mid" != "skipped_by_granularity=coarse"
    ensures "frontier_empty" != "no_entry_nodes" && "no_entry_nodes" != "hard_budget_hit" && "hard_budget_hit" != "frontier_empty"
  {
    var reason := "skipped_by_granularity=" + skipped;
    assert reason[0] == 's';
    assert "frontier_empty"[0] == 'f' && "no_entry_nodes"[0] == 'n' && "hard_budget_hit"[0] == 'h';
    assert |"skipped_by_granularity=mid"| != |"skipped_by_granularity=coarse"|;
  }

  /** The facts of a walk that was not skipped make sense. */
  predicate WalkSound(facts: TerminalFacts) {
    && facts.skippedByGranularity != "mid" && facts.skippedByGranularity != "coarse"
    && facts.entryCount >= 0 && facts.frontierRemainingCount >= 0
    && facts.frontierExpansionCount >= 0 && facts.frontierBudget >= 0
  }

  predicate BudgetSpent(facts: TerminalFacts) {
    0 < facts.frontierBudget <= facts.frontierExpansionCount
  }

  /** When each reason is given, whatever the facts. */
  lemma ReasonExactly(facts: TerminalFacts, layer: string)
    ensures var reason, entered := ExpectedWalkStopReason(facts, layer), facts.entryCount > 0;
            && (reason == Some("skipped_by_granularity=mid") <==> facts.skippedByGranularity == "mid")
            && (reason == Some("skipped_by_granularity=coarse") <==> facts.skippedByGranularity == "coarse")
            && (reason == Some("no_entry_nodes") <==> WalkSound(facts) && !entered && layer != "chunk")
            && (reason == Some("hard_budget_hit") <==> WalkSound(facts) && entered && BudgetSpent(facts))
            && (reason == Some("frontier_empty") <==>
                WalkSound(facts) && if entered then facts.frontierRemainingCount == 0 && !BudgetSpent(facts) else layer == "chunk")
            && (reason == None <==>
                && facts.skippedByGranularity !in {"mid", "coarse"}
                && (WalkSound(facts) ==> entered && facts.frontierRemainingCount > 0 && !BudgetSpent(facts)))
  {
    ReasonsDiffer(facts.skippedByGranularity);
    assert "skipped_by_granularity=" + "mid" == "skipped_by_granularity=mid";
    assert "skipped_by_granularity=" + "coarse" == "skipped_by_granularity=coarse";
  }

  /** The budget of a layer is its top-k for every entry; either counts as one if it is zero. */
  lemma BudgetExactly(layer: string, topK: map<string, int>, entryCount: nat)
    ensures var b := ExpectedFrontierBudget(layer, topK, entryCount);
            && (b.Some? <==> layer in {"coarse", "mid", "chunk"} && layer in topK && topK[layer] >= 0)
            && (b.Some? && entryCount > 0 && topK[layer] > 0 ==> b.value == entryCount * topK[layer])
            && (b.Some? && entryCount == 0 && topK[layer] > 0 ==> b.value == topK[layer])
            && (b.Some? && entryCount > 0 && topK[layer] == 0 ==> b.value == entryCount)
            && (b.Some? && entryCount == 0 && topK[layer] == 0 ==> b.value == 1)
  {
  }
}
