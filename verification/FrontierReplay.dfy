/** The replay itself: a loop over the observations with a heap, a dictionary of
    declared labels and a table of root distances. */
module FrontierReplay {
  import opened Rounding
  import opened Ordering
  import opened Labels
  import opened Basics
  import opened Frontier
  import opened FrontierPaths
  import opened FrontierOutcomes
  import opened SearchLogs

  type PathId = (seq<string>, seq<string>)

  function SetOf(s: seq<nat>): set<nat> {
    set x | x in s
  }

  predicate AllBelow(s: seq<nat>, bound: nat) {
    forall i | 0 <= i < |s| :: s[i] < bound
  }

  // ---- a rejected step rejects the log -------------------------------------

  ghost predicate FullStepOk(log: Log, st: Progress, i: nat)
    requires Prechecks(log) && i < |log.observations|
  {
    StepOk(log, st, i) && st.active <= |log.labels| && GuardsOk(log, st, i)
  }

  lemma {:induction false} TracesAgree(log: Log, s: seq<Progress>, n: nat, t: seq<Progress>, m: nat, i: nat)
    requires IsReplay(log, s, n) && IsReplay(log, t, m) && i <= n && i <= m
    ensures s[i] == t[i]
  {
    if i > 0 {
      TracesAgree(log, s, n, t, m, i - 1);
      assert Passes(log, s, i - 1) && Passes(log, t, i - 1);
    }
  }

  lemma AcceptedSteps(log: Log, t: seq<Progress>, n: nat)
    requires Completes(log, t) && GuardsHold(log, t) && n < |log.observations|
    ensures FullStepOk(log, t[n], n)
  {
    assert GuardsPassed(log, t, n);
  }

  lemma StuckMeansRejected(log: Log, s: seq<Progress>, n: nat)
    requires IsReplay(log, s, n) && n < |log.observations| && !FullStepOk(log, s[n], n)
    ensures !Accepts(log)
  {
    forall t | Completes(log, t) && GuardsHold(log, t) ensures false {
      AcceptedSteps(log, t, n);
      TracesAgree(log, s, n, t, |log.observations|, n);
    }
  }

  lemma FinishedMeansDecided(log: Log, s: seq<Progress>)
    requires IsReplay(log, s, |log.observations|)
    ensures Accepts(log) <==> FinalChecks(log, s[|log.observations|])
  {
    GuardsNeverFire(log);
    forall t | Completes(log, t) ensures FinalChecks(log, s[|log.observations|]) {
      TracesAgree(log, s, |log.observations|, t, |log.observations|, |log.observations|);
    }
    if FinalChecks(log, s[|log.observations|]) {
      assert Completes(log, s);
    }
  }

  lemma ReplayExtends(log: Log, s: seq<Progress>, n: nat, next: Progress)
    requires IsReplay(log, s, n) && n < |log.observations|
    requires StepOk(log, s[n], n) && next == After(log, s[n], n)
    ensures IsReplay(log, s + [next], n + 1)
  {
    forall i | 0 <= i < n + 1 ensures Passes(log, s + [next], i) {
      if i < n {
        assert Passes(log, s, i);
      }
    }
  }

  // ---- the heap ------------------------------------------------------------

  /** `heapq.heappop`: the smallest (queue key, serial) leaves the heap. */
  method PopMinimum(log: Log, heap: seq<nat>) returns (k: nat, rest: seq<nat>)
    requires heap != [] && Distinct(heap) && AllBelow(heap, |log.enqueues|)
    ensures k in heap && IsMinimum(log, SetOf(heap), k)
    ensures Distinct(rest) && SetOf(rest) == SetOf(heap) - {k} && |rest| == |heap| - 1
  {
    var at := 0;
    LexReflexive(log.enqueues[heap[0]].queueKey + [heap[0] as real]);
    for i := 1 to |heap|
      invariant 0 <= at < i
      invariant forall j | 0 <= j < i :: Before(log, heap[at], heap[j])
    {
      LexTotal(log.enqueues[heap[at]].queueKey + [heap[at] as real], log.enqueues[heap[i]].queueKey + [heap[i] as real]);
      LexReflexive(log.enqueues[heap[i]].queueKey + [heap[i] as real]);
      if !Before(log, heap[at], heap[i]) {
        forall j | 0 <= j < i ensures Before(log, heap[i], heap[j]) {
          LexTransitive(log.enqueues[heap[i]].queueKey + [heap[i] as real],
                        log.enqueues[heap[at]].queueKey + [heap[at] as real],
                        log.enqueues[heap[j]].queueKey + [heap[j] as real]);
        }
        at := i;
      }
    }
    k, rest := heap[at], heap[..at] + heap[at + 1..];
    assert heap == heap[..at] + [heap[at]] + heap[at + 1..];
  }

  // ---- the dictionary of declared labels -----------------------------------

  function LabelsWithPath(log: Log, active: nat, id: PathId): seq<PathLabel>
    requires RowsAreSnapshots(log) && active <= |log.labels|
  {
    if active == 0 then [] else
      var before, popped := LabelsWithPath(log, active - 1, id), log.frontierRows[active - 1].popped;
      if (popped.path, popped.pathEdgeIds) == id then before + [log.labels[active - 1]] else before
  }

  function Lookup(declared: map<PathId, seq<PathLabel>>, id: PathId): seq<PathLabel> {
    if id in declared then declared[id] else []
  }

  ghost predicate DeclaredExact(log: Log, active: nat, declared: map<PathId, seq<PathLabel>>) {
    && RowsAreSnapshots(log) && active <= |log.labels|
    && forall id :: Lookup(declared, id) == LabelsWithPath(log, active, id)
  }

  lemma {:induction false} LabelsWithPathDeclare(log: Log, active: nat, path: seq<string>, edges: seq<string>, edge: string)
    requires RowsAreSnapshots(log) && active <= |log.labels|
    ensures (exists l | l in LabelsWithPath(log, active, (path, edges)) :: edge in l.expandedEdgeIds)
            <==> exists j | 0 <= j < active :: Declares(log, j, path, edges, edge)
  {
    if active > 0 {
      LabelsWithPathDeclare(log, active - 1, path, edges, edge);
      var front, last := LabelsWithPath(log, active - 1, (path, edges)), log.labels[active - 1];
      assert forall l :: l in front + [last] <==> l in front || l == last;
      assert Declares(log, active - 1, path, edges, edge) <==>
             log.frontierRows[active - 1].popped.path == path && log.frontierRows[active - 1].popped.pathEdgeIds == edges
             && edge in last.expandedEdgeIds;
    }
  }

  method FindPredecessor(log: Log, ghost active: nat, declared: map<PathId, seq<PathLabel>>,
                         path: seq<string>, edgeIds: seq<string>) returns (found: bool)
    requires DeclaredExact(log, active, declared) && |path| == |edgeIds| + 1
    ensures found <==> PredecessorDeclared(log, active, path, edgeIds)
  {
    if edgeIds == [] {
      return true;
    }
    var n := |edgeIds| - 1;
    var prior := Lookup(declared, (path[..|path| - 1], edgeIds[..n]));
    LabelsWithPathDeclare(log, active, path[..|path| - 1], edgeIds[..n], edgeIds[n]);
    found := exists l | l in prior :: edgeIds[n] in l.expandedEdgeIds;
  }

  // ---- admitted observations -----------------------------------------------

  method AccumulateDistance(start: real, distances: seq<real>) returns (expected: real)
    ensures expected == Accumulate(start, distances)
  {
    expected := start;
    for i := 0 to |distances|
      invariant expected == Accumulate(start, distances[..i])
    {
      assert distances[..i + 1][..i] == distances[..i];
      expected := Round6(expected + distances[i]);
    }
    assert distances[..|distances|] == distances;
  }

  /** Push the events of a label's expansions, in order, checking each. */
  method QueueExpansions(log: Log, popped: State, expanded: seq<string>, next: nat, heap: seq<nat>)
    returns (ok: bool, grown: seq<nat>)
    requires next <= |log.enqueues|
    requires Distinct(heap) && AllBelow(heap, next)
    ensures ok <==> ExpansionsQueued(log, next, popped, expanded)
    ensures ok ==> Distinct(grown) && SetOf(grown) == SetOf(heap) + Serials(next, next + |expanded|)
    ensures ok ==> |grown| == |heap| + |expanded|
  {
    grown := heap;
    for j := 0 to |expanded|
      invariant next + j <= |log.enqueues|
      invariant forall m | 0 <= m < j :: Extends(log, log.enqueues[next + m], popped, expanded[m])
      invariant Distinct(grown) && AllBelow(grown, next + j) && |grown| == |heap| + j
      invariant forall x :: x in grown <==> x in heap || next <= x < next + j
    {
      if next + j >= |log.enqueues| || !Extends(log, log.enqueues[next + j], popped, expanded[j]) {
        return false, grown;
      }
      grown := grown + [next + j];
    }
    ok := true;
  }

  // ---- one observation -----------------------------------------------------

  /** The concrete structures stand for the abstract state. */
  ghost predicate Tracks(log: Log, st: Progress, heap: seq<nat>, next: nat, active: nat,
                         roots: map<string, real>, declared: map<PathId, seq<PathLabel>>) {
    && st == Progress(SetOf(heap), next, active, roots)
    && HeapSound(log, heap, next)
    && DeclaredExact(log, active, declared)
  }

  ghost predicate HeapSound(log: Log, heap: seq<nat>, next: nat) {
    && Distinct(heap) && |heap| == |SetOf(heap)|
    && AllBelow(heap, next) && next <= |log.enqueues|
  }

  lemma BelowNext(log: Log, heap: seq<nat>, next: nat)
    requires HeapSound(log, heap, next)
    ensures AllBelow(heap, |log.enqueues|) && forall x | x in SetOf(heap) :: x < next
  {
  }

  /** Pop the heap and compare the observation with what came out. */
  method MatchPop(log: Log, i: nat, ghost st: Progress, heap: seq<nat>, next: nat) returns (ok: bool, rest: seq<nat>)
    requires i < |log.observations| && log.observations[i].Observation?
    requires HeapSound(log, heap, next) && st.frontier == SetOf(heap)
    ensures ok <==> PopRecorded(log, st, i)
    ensures ok ==> log.observations[i].frontierSerial >= 0 && HeapSound(log, rest, next)
                   && SetOf(rest) == st.frontier - {log.observations[i].frontierSerial as nat}
  {
    BelowNext(log, heap, next);
    var o := log.observations[i];
    if heap == [] || !StructureValid(o.candidateState, false) {
      return false, heap;
    }
    var k;
    k, rest := PopMinimum(log, heap);
    BelowNext(log, heap, next);
    ok := && o.candidateState == log.enqueues[k].candidateState
          && o.queueKey == log.enqueues[k].queueKey
          && o.frontierSerial == k
          && o.queueSizeBeforePop == |heap|
          && o.queueSizeAfterPop == |rest|;
    if 0 <= o.frontierSerial < |log.enqueues| && IsMinimum(log, st.frontier, o.frontierSerial) {
      MinimumIsUnique(log, st.frontier, k, o.frontierSerial);
    }
    RestSound(log, heap, rest, next, k);
  }

  lemma RestSound(log: Log, heap: seq<nat>, rest: seq<nat>, next: nat, k: nat)
    requires HeapSound(log, heap, next) && k in heap
    requires Distinct(rest) && SetOf(rest) == SetOf(heap) - {k} && |rest| == |heap| - 1
    ensures HeapSound(log, rest, next)
  {
    forall i | 0 <= i < |rest| ensures rest[i] < next {
      assert rest[i] in SetOf(rest);
      assert rest[i] in heap;
    }
  }

  lemma GrownSound(log: Log, rest: seq<nat>, grown: seq<nat>, next: nat, more: nat)
    requires HeapSound(log, rest, next) && next + more <= |log.enqueues|
    requires Distinct(grown) && SetOf(grown) == SetOf(rest) + Serials(next, next + more) && |grown| == |rest| + more
    ensures HeapSound(log, grown, next + more)
  {
    BelowNext(log, rest, next);
    assert SetOf(rest) !! Serials(next, next + more);
    assert |SetOf(rest) + Serials(next, next + more)| == |SetOf(rest)| + |Serials(next, next + more)|;
    forall i | 0 <= i < |grown| ensures grown[i] < next + more {
      assert grown[i] in SetOf(grown);
    }
  }

  /** The tests an admitted observation adds, and the new structures. */
  ghost predicate AdmissionOk(log: Log, st: Progress, i: nat)
    requires Prechecks(log) && i < |log.observations| && st.active <= |log.labels|
  {
    && log.observations[i].Observation?
    && AdmissionRecorded(log, st.active, i)
    && var popped := log.frontierRows[st.active].popped;
    && PredecessorDeclared(log, st.active, popped.path, popped.pathEdgeIds)
    && RootConsistent(st.roots, popped)
    && DistanceAccounted(st.roots, popped)
    && ExpansionsQueued(log, st.next, popped, log.labels[st.active].expandedEdgeIds)
  }

  lemma DeclareLabel(log: Log, active: nat, declared: map<PathId, seq<PathLabel>>)
    requires DeclaredExact(log, active, declared) && active < |log.labels|
    ensures var popped := log.frontierRows[active].popped;
            var id := (popped.path, popped.pathEdgeIds);
            DeclaredExact(log, active + 1, declared[id := Lookup(declared, id) + [log.labels[active]]])
  {
    var popped := log.frontierRows[active].popped;
    var id := (popped.path, popped.pathEdgeIds);
    var after := declared[id := Lookup(declared, id) + [log.labels[active]]];
    forall other ensures Lookup(after, other) == LabelsWithPath(log, active + 1, other) {
      assert Lookup(declared, other) == LabelsWithPath(log, active, other);
    }
  }

  method MatchAdmission(log: Log, i: nat, ghost st: Progress, rest: seq<nat>, next: nat, active: nat,
                        roots: map<string, real>, declared: map<PathId, seq<PathLabel>>)
    returns (ok: bool, grown: seq<nat>, roots': map<string, real>, declared': map<PathId, seq<PathLabel>>)
    requires Prechecks(log) && i < |log.observations| && log.observations[i].Observation?
    requires st.next == next && st.active == active && st.roots == roots
    requires HeapSound(log, rest, next) && DeclaredExact(log, active, declared)
    ensures ok <==> AdmissionOk(log, st, i)
    ensures ok ==> var expanded := log.labels[active].expandedEdgeIds; var popped := log.frontierRows[active].popped;
            && HeapSound(log, grown, next + |expanded|)
            && SetOf(grown) == SetOf(rest) + Serials(next, next + |expanded|)
            && DeclaredExact(log, active + 1, declared')
            && roots' == if popped.pathEdgeIds == [] then roots[popped.rootNodeId := popped.distanceSoFar] else roots
  {
    ok, grown, roots', declared' := false, rest, roots, declared;
    if !AdmissionRecorded(log, active, i) {
      return;
    }
    var reported, popped := log.labels[active], log.frontierRows[active].popped;
    var found := FindPredecessor(log, active, declared, popped.path, popped.pathEdgeIds);
    if !found || !RootConsistent(roots, popped) {
      return;
    }
    var expectedDistance := EntryDistance(roots, popped);
    if popped.pathEdgeIds == [] {
      roots' := roots[popped.rootNodeId := expectedDistance];
    }
    expectedDistance := AccumulateDistance(expectedDistance, popped.pathEdgeDistances.values);
    if !StrictNumericMatch(popped.distanceSoFar, expectedDistance) {
      return;
    }
    ok, grown := QueueExpansions(log, popped, reported.expandedEdgeIds, next, rest);
    if ok {
      GrownSound(log, rest, grown, next, |reported.expandedEdgeIds|);
      var id := (popped.path, popped.pathEdgeIds);
      DeclareLabel(log, active, declared);
      declared' := declared[id := Lookup(declared, id) + [reported]];
    }
  }

  /** The tests on what was popped. */
  ghost predicate PopAccepted(log: Log, st: Progress, i: nat)
    requires Prechecks(log) && i < |log.observations| && st.active <= |log.labels|
  {
    && PopRecorded(log, st, i)
    && PredecessorDeclared(log, st.active, log.observations[i].candidateState.path,
                           log.observations[i].candidateState.pathEdgeIds)
  }

  /** A full step, taken apart the way the replay tests it. */
  lemma FullStepMeans(log: Log, st: Progress, i: nat)
    requires Prechecks(log) && i < |log.observations| && st.active <= |log.labels|
    ensures FullStepOk(log, st, i) <==>
            PopAccepted(log, st, i) && (log.observations[i].admitted ==> AdmissionOk(log, st, i))
  {
  }

  lemma AfterRejection(log: Log, st: Progress, i: nat, heap: seq<nat>, rest: seq<nat>, next: nat, active: nat,
                       roots: map<string, real>, declared: map<PathId, seq<PathLabel>>)
    requires Prechecks(log) && i < |log.observations| && !log.observations[i].admitted
    requires Tracks(log, st, heap, next, active, roots, declared) && HeapSound(log, rest, next)
    requires PopAccepted(log, st, i) && log.observations[i].frontierSerial >= 0
    requires SetOf(rest) == st.frontier - {log.observations[i].frontierSerial as nat}
    ensures FullStepOk(log, st, i) && Tracks(log, After(log, st, i), rest, next, active, roots, declared)
  {
    FullStepMeans(log, st, i);
  }

  lemma AfterAdmission(log: Log, st: Progress, i: nat, grown: seq<nat>, next: nat,
                       roots: map<string, real>, declared: map<PathId, seq<PathLabel>>)
    requires i < |log.observations| && StepOk(log, st, i) && log.observations[i].admitted
    requires log.observations[i].frontierSerial >= 0 && st.active < |log.labels| && st.active < |log.frontierRows|
    requires next == st.next + |log.labels[st.active].expandedEdgeIds| && HeapSound(log, grown, next)
    requires SetOf(grown) == st.frontier - {log.observations[i].frontierSerial as nat} + Serials(st.next, next)
    requires log.frontierRows[st.active].Snapshot?
    requires var popped := log.frontierRows[st.active].popped;
             roots == if popped.pathEdgeIds == [] then st.roots[popped.rootNodeId := popped.distanceSoFar] else st.roots
    requires DeclaredExact(log, st.active + 1, declared)
    ensures Tracks(log, After(log, st, i), grown, next, st.active + 1, roots, declared)
  {
  }

  method MatchObservation(log: Log, i: nat, ghost st: Progress, heap: seq<nat>, next: nat, active: nat,
                          roots: map<string, real>, declared: map<PathId, seq<PathLabel>>)
    returns (ok: bool, rest: seq<nat>)
    requires Prechecks(log) && i < |log.observations| && Tracks(log, st, heap, next, active, roots, declared)
    ensures ok <==> PopAccepted(log, st, i)
    ensures ok ==> log.observations[i].frontierSerial >= 0 && HeapSound(log, rest, next)
                   && SetOf(rest) == st.frontier - {log.observations[i].frontierSerial as nat}
  {
    var o := log.observations[i];
    ok, rest := MatchPop(log, i, st, heap, next);
    if ok {
      PoppedPathShape(log, st, i);
      ok := FindPredecessor(log, active, declared, o.candidateState.path, o.candidateState.pathEdgeIds);
    }
  }

  lemma PoppedPathShape(log: Log, st: Progress, i: nat)
    requires i < |log.observations| && PopRecorded(log, st, i)
    ensures log.observations[i].Observation?
    ensures |log.observations[i].candidateState.path| == |log.observations[i].candidateState.pathEdgeIds| + 1
  {
  }

  lemma RejectedPop(log: Log, st: Progress, i: nat)
    requires Prechecks(log) && i < |log.observations| && st.active <= |log.labels| && !PopAccepted(log, st, i)
    ensures !FullStepOk(log, st, i)
  {
    FullStepMeans(log, st, i);
  }

  method ReplayAdmitted(log: Log, i: nat, ghost st: Progress, ghost heap: seq<nat>, rest: seq<nat>, next: nat, active: nat,
                        roots: map<string, real>, declared: map<PathId, seq<PathLabel>>)
    returns (ok: bool, grown: seq<nat>, next': nat, roots': map<string, real>, declared': map<PathId, seq<PathLabel>>)
    requires Prechecks(log) && i < |log.observations| && log.observations[i].admitted
    requires Tracks(log, st, heap, next, active, roots, declared)
    requires PopAccepted(log, st, i) && log.observations[i].frontierSerial >= 0
    requires SetOf(rest) == st.frontier - {log.observations[i].frontierSerial as nat} && HeapSound(log, rest, next)
    ensures ok <==> FullStepOk(log, st, i)
    ensures ok ==> Tracks(log, After(log, st, i), grown, next', active + 1, roots', declared')
  {
    FullStepMeans(log, st, i);
    ok, grown, roots', declared' := MatchAdmission(log, i, st, rest, next, active, roots, declared);
    next' := next;
    if ok {
      next' := next + |log.labels[active].expandedEdgeIds|;
      AfterAdmission(log, st, i, grown, next', roots', declared');
    }
  }

  method ReplayObservation(log: Log, i: nat, ghost st: Progress, heap: seq<nat>, next: nat, active: nat,
                           roots: map<string, real>, declared: map<PathId, seq<PathLabel>>)
    returns (ok: bool, heap': seq<nat>, next': nat, active': nat,
             roots': map<string, real>, declared': map<PathId, seq<PathLabel>>)
    requires Prechecks(log) && i < |log.observations| && Tracks(log, st, heap, next, active, roots, declared)
    ensures ok <==> FullStepOk(log, st, i)
    ensures ok ==> Tracks(log, After(log, st, i), heap', next', active', roots', declared')
  {
    heap', next', active', roots', declared' := heap, next, active, roots, declared;
    ok, heap' := MatchObservation(log, i, st, heap, next, active, roots, declared);
    if !ok {
      RejectedPop(log, st, i);
      return;
    }
    if !log.observations[i].admitted {
      AfterRejection(log, st, i, heap, heap', next, active, roots, declared);
      return;
    }
    ok, heap', next', roots', declared' := ReplayAdmitted(log, i, st, heap, heap', next, active, roots, declared);
    active' := active + 1;
  }

  lemma StartSound(log: Log, heap: seq<nat>)
    requires Prechecks(log) && |heap| == InitialCount(log) && forall i | 0 <= i < |heap| :: heap[i] == i
    ensures Tracks(log, Initial(log), heap, InitialCount(log), 0, map[], map[])
  {
    forall x ensures x in SetOf(heap) <==> x in Serials(0, InitialCount(log)) {
      if x in Serials(0, InitialCount(log)) {
        assert heap[x] == x;
      }
    }
    assert SetOf(heap) == Serials(0, InitialCount(log));
  }

  /** Accept the log exactly when its every step and its totals are what the
      search would have produced. */
  method ReplayFrontierPathLabelClosure(log: Log) returns (accepted: bool)
    ensures accepted <==> Accepts(log)
    ensures accepted <==> SearchLog(log)
  {
    AcceptedExactly(log);
    if !Prechecks(log) || !NoDuplicates(log) {
      return false;
    }
    var heap: seq<nat> := [];
    for k := 0 to InitialCount(log)
      invariant |heap| == k && forall i | 0 <= i < k :: heap[i] == i
    {
      heap := heap + [k];
    }
    var next, active := InitialCount(log), 0;
    var roots: map<string, real>, declared: map<PathId, seq<PathLabel>> := map[], map[];
    ghost var states := [Initial(log)];
    StartSound(log, heap);
    for i := 0 to |log.observations|
      invariant IsReplay(log, states, i)
      invariant Tracks(log, states[i], heap, next, active, roots, declared)
    {
      var ok;
      ok, heap, next, active, roots, declared := ReplayObservation(log, i, states[i], heap, next, active, roots, declared);
      if !ok {
        StuckMeansRejected(log, states, i);
        return false;
      }
      ghost var after := After(log, states[i], i);
      ReplayExtends(log, states, i, after);
      states := states + [after];
    }
    FinishedMeansDecided(log, states);
    accepted := && active == |log.labels|
                && FirstOccurrences(ConcatExpansions(log.labels)) == log.stepExpandedEdgeIds
                && next == |log.enqueues|
                && log.terminal.frontierRemainingCount == |heap|;
  }
}
