/** The best-first frontier. A recorded search is replayed pop by pop: the enqueue
    log fills a min-heap, every observation must be the heap's minimum, and every
    admitted observation must account for its distance and for the states its
    label expands into. */
module Frontier {
  import opened Archive
  import opened Basics
  import opened Labels
  import opened Options
  import opened Ordering
  import opened Rounding

  const FRONTIER_HEAP_ENQUEUE_PROTOCOL_VERSION := "frontier_heap_enqueue_key_serial_v1"
  const HASH_LENGTH := 64

  datatype EnqueueKind = InitialEntry | ExpandedEdge | OtherKind

  datatype Enqueue = Enqueue(
    protocolVersion: string,
    kind: EnqueueKind,
    serial: int,
    queueKey: seq<real>,
    candidateState: State,
    edgeId: Option<string>,
    parentPathIdentity: Option<string>)

  /** A reported path label; "" stands for an absent identifier. */
  datatype PathLabel = PathLabel(
    nodeId: string,
    chunkId: string,
    layer: string,
    rootNodeId: string,
    path: seq<string>,
    pathEdgeIds: seq<string>,
    pathEdgeDistances: seq<real>,
    pathEdgeStrengths: seq<real>,
    distanceSoFar: real,
    rewardSoFar: real,
    coveredFacets: set<string>,
    evidenceRoles: set<string>,
    edgeTypeCounts: Option<map<string, int>>,
    expandedEdgeIds: seq<string>)

  datatype TerminalFacts = TerminalFacts(
    skippedByGranularity: string,
    entryCount: int,
    frontierExpansionCount: int,
    frontierRemainingCount: int,
    frontierBudget: int)

  /** Everything one replay reads. `labels` are the path labels left once the
      carry-forward labels of a repair have been set aside. */
  datatype Log = Log(
    observations: seq<Observation>,
    enqueues: seq<Enqueue>,
    initialEntryIds: seq<string>,
    frontierRows: seq<Snapshot>,
    labels: seq<PathLabel>,
    stepExpandedEdgeIds: seq<string>,
    poppedFrontierState: Option<State>,
    terminal: TerminalFacts,
    requiredFacets: set<string>,
    layer: string,
    stableHash: PathKey -> string)

  predicate IsHash(text: string) {
    |text| == HASH_LENGTH && forall c | c in text :: '0' <= c <= '9' || 'a' <= c <= 'f' || 'A' <= c <= 'F'
  }

  /** The label reports the popped state it was admitted with. */
  predicate LabelMatches(l: PathLabel, popped: State, layer: string) {
    && !(l.nodeId == "" && l.chunkId == "")
    && (l.nodeId != "" ==> l.nodeId == popped.nodeId)
    && (l.chunkId != "" ==> l.chunkId == popped.nodeId)
    && l.layer in {"", layer}
    && l.path == popped.path
    && l.pathEdgeIds == popped.pathEdgeIds
    && popped.pathEdgeDistances.Present? && AllMatch(l.pathEdgeDistances, popped.pathEdgeDistances.values)
    && popped.pathEdgeStrengths.Present? && AllMatch(l.pathEdgeStrengths, popped.pathEdgeStrengths.values)
    && StrictNumericMatch(l.distanceSoFar, popped.distanceSoFar)
    && StrictNumericMatch(l.rewardSoFar, popped.rewardSoFar)
    && l.coveredFacets == popped.coveredFacets
    && l.evidenceRoles == popped.evidenceRoles
    && l.rootNodeId in {"", popped.rootNodeId}
    && (l.edgeTypeCounts.Some? ==> l.edgeTypeCounts.value == CountTypes(popped.pathEdgeTypes))
    && "" !in l.expandedEdgeIds && Distinct(l.expandedEdgeIds)
  }

  // ---- checks made before the replay ---------------------------------------

  function InitialCount(log: Log): nat {
    |log.initialEntryIds|
  }

  predicate InitialEvent(log: Log, k: nat)
    requires k < |log.enqueues| && k < InitialCount(log)
  {
    var e := log.enqueues[k];
    && e.kind == InitialEntry
    && e.edgeId == None && e.parentPathIdentity == None
    && e.candidateState.nodeId == log.initialEntryIds[k]
    && e.candidateState.path == [log.initialEntryIds[k]]
    && e.candidateState.pathEdgeIds == []
    && e.candidateState.depth == 0
  }

  predicate ExpansionEvent(e: Enqueue) {
    && e.kind == ExpandedEdge
    && e.edgeId.Some? && e.edgeId.value != ""
    && e.parentPathIdentity.Some? && IsHash(e.parentPathIdentity.value)
    && e.candidateState.pathEdgeIds != []
    && e.candidateState.pathEdgeIds[|e.candidateState.pathEdgeIds| - 1] == e.edgeId.value
  }

  predicate EnqueueValid(log: Log, k: nat)
    requires k < |log.enqueues|
  {
    var e := log.enqueues[k];
    && e.protocolVersion == FRONTIER_HEAP_ENQUEUE_PROTOCOL_VERSION
    && e.serial == k
    && StructureValid(e.candidateState, false)
    && e.queueKey == QueueKey(log.requiredFacets, e.candidateState)
    && (if k < InitialCount(log) then InitialEvent(log, k) else ExpansionEvent(e))
  }

  /** What the identity hash of an enqueue event commits to. */
  predicate SameEnqueue(a: Enqueue, b: Enqueue) {
    && a.kind == b.kind && a.queueKey == b.queueKey && a.candidateState == b.candidateState
    && a.edgeId == b.edgeId && a.parentPathIdentity == b.parentPathIdentity
  }

  /** No two events have the same identity. */
  predicate NoDuplicates(log: Log) {
    forall j, k {:trigger SameEnqueue(log.enqueues[j], log.enqueues[k])} | 0 <= j < k < |log.enqueues| ::
      !SameEnqueue(log.enqueues[j], log.enqueues[k])
  }

  predicate Prechecks(log: Log) {
    && log.layer != ""
    && (forall o | o in log.observations :: o.Observation?)
    && "" !in log.initialEntryIds && Distinct(log.initialEntryIds)
    && "" !in log.stepExpandedEdgeIds && Distinct(log.stepExpandedEdgeIds)
    && |log.labels| == |log.frontierRows|
    && (forall row | row in log.frontierRows :: row.Snapshot?)
    && log.poppedFrontierState == (if log.frontierRows == [] then None else Some(log.frontierRows[0].popped))
    && (forall k {:trigger EnqueueValid(log, k)} | 0 <= k < |log.enqueues| :: EnqueueValid(log, k))
    && InitialCount(log) <= |log.enqueues|
    && log.terminal.entryCount == InitialCount(log)
    && log.terminal.frontierExpansionCount == |log.enqueues| - InitialCount(log)
  }

  // ---- the replay as a state machine ---------------------------------------

  /** frontier: serials of queued events; next: the first event not yet queued;
      active: labels admitted so far; roots: entry distances by root. */
  datatype Progress = Progress(frontier: set<nat>, next: nat, active: nat, roots: map<string, real>)

  function Serials(low: nat, high: nat): (r: set<nat>)
    requires low <= high
    ensures forall k :: k in r <==> low <= k < high
    ensures |r| == high - low
  {
    if low == high then {} else Serials(low, high - 1) + {high - 1}
  }

  function Initial(log: Log): Progress {
    Progress(Serials(0, InitialCount(log)), InitialCount(log), 0, map[])
  }

  /** The heap order: queue key, then serial. */
  predicate Before(log: Log, j: nat, k: nat)
    requires j < |log.enqueues| && k < |log.enqueues|
  {
    LexLe(log.enqueues[j].queueKey + [j as real], log.enqueues[k].queueKey + [k as real])
  }

  predicate IsMinimum(log: Log, frontier: set<nat>, k: nat)
    requires forall j | j in frontier :: j < |log.enqueues|
  {
    k in frontier && forall j | j in frontier :: Before(log, k, j)
  }

  predicate Queued(log: Log, st: Progress) {
    forall j | j in st.frontier :: j < |log.enqueues|
  }

  /** The i-th observation is the frontier's minimum and records the queue sizes. */
  predicate PopRecorded(log: Log, st: Progress, i: nat)
    requires i < |log.observations|
  {
    var o := log.observations[i];
    && o.Observation?
    && Queued(log, st)
    && 0 <= o.frontierSerial < |log.enqueues|
    && IsMinimum(log, st.frontier, o.frontierSerial)
    && StructureValid(o.candidateState, false)
    && o.candidateState == log.enqueues[o.frontierSerial].candidateState
    && o.queueKey == log.enqueues[o.frontierSerial].queueKey
    && o.queueSizeBeforePop == |st.frontier|
    && o.queueSizeAfterPop == |st.frontier| - 1
  }

  /** Label j was admitted with this path and expands this edge. */
  predicate Declares(log: Log, j: nat, path: seq<string>, edgeIds: seq<string>, edgeId: string)
    requires j < |log.labels| && j < |log.frontierRows| && log.frontierRows[j].Snapshot?
  {
    && log.frontierRows[j].popped.path == path
    && log.frontierRows[j].popped.pathEdgeIds == edgeIds
    && edgeId in log.labels[j].expandedEdgeIds
  }

  /** One of the first `active` labels has the path one edge shorter and lists
      that edge among its expansions; a path without edges needs none. */
  predicate PredecessorDeclared(log: Log, active: nat, path: seq<string>, edgeIds: seq<string>)
    requires |path| == |edgeIds| + 1
    requires active <= |log.labels| == |log.frontierRows| && forall row | row in log.frontierRows :: row.Snapshot?
  {
    edgeIds == [] ||
    var parentPath, parentEdges, edge := path[..|path| - 1], edgeIds[..|edgeIds| - 1], edgeIds[|edgeIds| - 1];
    exists j | 0 <= j < active :: Declares(log, j, parentPath, parentEdges, edge)
  }

  /** The popped row and the label recorded for an admitted observation. */
  predicate AdmissionRecorded(log: Log, active: nat, i: nat)
    requires i < |log.observations| && log.observations[i].Observation?
  {
    && active < |log.labels| && active < |log.frontierRows|
    && var o, row, l := log.observations[i], log.frontierRows[active], log.labels[active];
    && row.Snapshot?
    && CandidateMatches(o.candidateState, row.popped)
    && row.key == o.queueKey
    && row.serial == o.frontierSerial
    && row.queueSizeBeforePop == o.queueSizeBeforePop
    && row.queueSizeAfterPop == o.queueSizeAfterPop
    && LabelMatches(l, row.popped, log.layer)
  }

  /** Distances along a path, rounded after every edge. */
  function Accumulate(start: real, distances: seq<real>): real {
    if distances == [] then start else
      Round6(Accumulate(start, distances[..|distances| - 1]) + distances[|distances| - 1])
  }

  function EntryDistance(roots: map<string, real>, popped: State): real {
    if popped.pathEdgeIds == [] || popped.rootNodeId !in roots then popped.distanceSoFar
    else roots[popped.rootNodeId]
  }

  predicate DistanceAccounted(roots: map<string, real>, popped: State) {
    && popped.pathEdgeDistances.Present?
    && StrictNumericMatch(popped.distanceSoFar,
                          Accumulate(EntryDistance(roots, popped), popped.pathEdgeDistances.values))
  }

  /** Event e queues the one-edge extension of the popped state. */
  predicate Extends(log: Log, e: Enqueue, popped: State, edgeId: string) {
    && e.kind == ExpandedEdge
    && e.edgeId == Some(edgeId)
    && e.parentPathIdentity == Some(log.stableHash(PathKeyOf(popped)))
    && e.candidateState.path != []
    && e.candidateState.path[..|e.candidateState.path| - 1] == popped.path
    && e.candidateState.pathEdgeIds == popped.pathEdgeIds + [edgeId]
  }

  /** The label's expansions are queued next, in order. */
  predicate ExpansionsQueued(log: Log, next: nat, popped: State, edgeIds: seq<string>) {
    && next + |edgeIds| <= |log.enqueues|
    && forall j | 0 <= j < |edgeIds| :: Extends(log, log.enqueues[next + j], popped, edgeIds[j])
  }

  /** The tests that shape the replay. */
  predicate StepOk(log: Log, st: Progress, i: nat)
    requires i < |log.observations|
  {
    && PopRecorded(log, st, i)
    && (log.observations[i].admitted ==>
        && AdmissionRecorded(log, st.active, i)
        && DistanceAccounted(st.roots, log.frontierRows[st.active].popped)
        && ExpansionsQueued(log, st.next, log.frontierRows[st.active].popped, log.labels[st.active].expandedEdgeIds))
  }

  /** The further tests the replay makes: a declared predecessor, a known root
      distance, and no second entry distance for a root. */
  predicate GuardsOk(log: Log, st: Progress, i: nat)
    requires Prechecks(log) && i < |log.observations| && st.active <= |log.labels| && StepOk(log, st, i)
  {
    var o := log.observations[i];
    && PredecessorDeclared(log, st.active, o.candidateState.path, o.candidateState.pathEdgeIds)
    && (o.admitted ==>
        var popped := log.frontierRows[st.active].popped;
        && PredecessorDeclared(log, st.active, popped.path, popped.pathEdgeIds)
        && RootConsistent(st.roots, popped))
  }

  predicate RootConsistent(roots: map<string, real>, popped: State) {
    if popped.pathEdgeIds != [] then popped.rootNodeId in roots
    else popped.rootNodeId in roots ==> StrictNumericMatch(roots[popped.rootNodeId], popped.distanceSoFar)
  }

  function After(log: Log, st: Progress, i: nat): Progress
    requires i < |log.observations| && StepOk(log, st, i)
  {
    var k: nat := log.observations[i].frontierSerial;
    if !log.observations[i].admitted then st.(frontier := st.frontier - {k}) else
      var popped := log.frontierRows[st.active].popped;
      var grown := st.next + |log.labels[st.active].expandedEdgeIds|;
      Progress(st.frontier - {k} + Serials(st.next, grown),
             grown,
             st.active + 1,
             if popped.pathEdgeIds == [] then st.roots[popped.rootNodeId := popped.distanceSoFar] else st.roots)
  }

  /** `states` are the states of the first n steps, every test but the guards
      passed. They are determined by the log. */
  ghost predicate IsReplay(log: Log, states: seq<Progress>, n: nat) {
    && Prechecks(log)
    && n <= |log.observations|
    && |states| == n + 1
    && states[0] == Initial(log)
    && forall i | 0 <= i < n :: Passes(log, states, i)
  }

  ghost predicate Passes(log: Log, states: seq<Progress>, i: nat)
    requires i < |log.observations| && i + 1 < |states|
  {
    StepOk(log, states[i], i) && states[i + 1] == After(log, states[i], i)
  }

  function ConcatExpansions(labels: seq<PathLabel>): seq<string> {
    if labels == [] then [] else
      ConcatExpansions(labels[..|labels| - 1]) + labels[|labels| - 1].expandedEdgeIds
  }

  /** `list(dict.fromkeys(ids))`: first occurrences, in order. */
  function FirstOccurrences(ids: seq<string>): seq<string> {
    if ids == [] then [] else
      var front, last := FirstOccurrences(ids[..|ids| - 1]), ids[|ids| - 1];
      if last in front then front else front + [last]
  }

  predicate FinalChecks(log: Log, st: Progress) {
    && st.active == |log.labels|
    && FirstOccurrences(ConcatExpansions(log.labels)) == log.stepExpandedEdgeIds
    && st.next == |log.enqueues|
    && log.terminal.frontierRemainingCount == |st.frontier|
  }

  ghost predicate Completes(log: Log, states: seq<Progress>) {
    IsReplay(log, states, |log.observations|) && FinalChecks(log, states[|log.observations|])
  }

  /** What the replay accepts: all tests, guards included. */
  ghost predicate Accepts(log: Log) {
    NoDuplicates(log) && exists states :: Completes(log, states) && GuardsHold(log, states)
  }

  ghost predicate GuardsHold(log: Log, states: seq<Progress>)
    requires IsReplay(log, states, |log.observations|)
  {
    forall i | 0 <= i < |log.observations| :: GuardsPassed(log, states, i)
  }

  ghost predicate GuardsPassed(log: Log, states: seq<Progress>, i: nat)
    requires IsReplay(log, states, |log.observations|) && i < |log.observations|
  {
    Passes(log, states, i) && states[i].active <= |log.labels| && GuardsOk(log, states[i], i)
  }
}
