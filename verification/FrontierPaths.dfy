/** Where the paths of a replayed search come from, and why five of the replay's
    tests can never fail. */
module FrontierPaths {
  import opened Basics
  import opened Labels
  import opened Frontier
  import opened FrontierLaws

  // ---- prefix closure ------------------------------------------------------

  ghost predicate RowsAreSnapshots(log: Log) {
    |log.labels| == |log.frontierRows| && forall row | row in log.frontierRows :: row.Snapshot?
  }

  /** Some label among the first `active` has exactly the first m edges of the
      path and lists the next edge among its expansions. */
  ghost predicate Linked(log: Log, active: nat, path: seq<string>, edgeIds: seq<string>, m: nat)
    requires RowsAreSnapshots(log) && active <= |log.labels| && m < |edgeIds| && |path| == |edgeIds| + 1
  {
    var front, edges, edge := path[..m + 1], edgeIds[..m], edgeIds[m];
    exists j | 0 <= j < active :: Declares(log, j, front, edges, edge)
  }

  /** The path starts at a declared entry, and each of its proper prefixes is the
      path of one of the first `active` labels, which expands the next edge. */
  ghost predicate Chained(log: Log, active: nat, path: seq<string>, edgeIds: seq<string>)
    requires RowsAreSnapshots(log) && active <= |log.labels|
  {
    && |path| == |edgeIds| + 1
    && path[0] in log.initialEntryIds
    && forall m | 0 <= m < |edgeIds| :: Linked(log, active, path, edgeIds, m)
  }

  lemma ChainedLater(log: Log, active: nat, later: nat, path: seq<string>, edgeIds: seq<string>)
    requires RowsAreSnapshots(log) && active <= later <= |log.labels| && Chained(log, active, path, edgeIds)
    ensures Chained(log, later, path, edgeIds)
  {
    forall m | 0 <= m < |edgeIds| ensures Linked(log, later, path, edgeIds, m) {
      assert Linked(log, active, path, edgeIds, m);
    }
  }

  lemma ChainExtends(log: Log, j: nat, path: seq<string>, edgeIds: seq<string>, node: string, edge: string)
    requires RowsAreSnapshots(log) && j < |log.labels|
    requires Chained(log, j, path, edgeIds) && Declares(log, j, path, edgeIds, edge)
    ensures Chained(log, j + 1, path + [node], edgeIds + [edge])
  {
    var p, q, later := path + [node], edgeIds + [edge], j + 1;
    forall m | 0 <= m < |q| ensures Linked(log, later, p, q, m) {
      if m < |edgeIds| {
        assert Linked(log, j, path, edgeIds, m);
        assert p[..m + 1] == path[..m + 1] && q[..m] == edgeIds[..m];
        var d :| 0 <= d < j && Declares(log, d, path[..m + 1], edgeIds[..m], edgeIds[m]);
        assert Declares(log, d, p[..m + 1], q[..m], q[m]);
      } else {
        assert p[..m + 1] == path && q[..m] == edgeIds;
        assert Declares(log, j, p[..m + 1], q[..m], q[m]);
      }
    }
  }

  ghost predicate EventChained(log: Log, active: nat, k: nat)
    requires RowsAreSnapshots(log) && active <= |log.labels| && k < |log.enqueues|
  {
    Chained(log, active, log.enqueues[k].candidateState.path, log.enqueues[k].candidateState.pathEdgeIds)
  }

  lemma InitialEventChained(log: Log, k: nat)
    requires Prechecks(log) && k < InitialCount(log)
    ensures EventChained(log, 0, k)
  {
    assert EnqueueValid(log, k);
  }

  lemma NewEventExtends(log: Log, states: seq<Progress>, n: nat, i: nat, j: nat)
    returns (popped: State, node: string, edge: string)
    requires IsReplay(log, states, n) && i < n && log.observations[i].admitted
    requires states[i].next <= j < states[i + 1].next <= |log.enqueues|
    ensures states[i].active < |log.labels| && RowsAreSnapshots(log)
    ensures Declares(log, states[i].active, popped.path, popped.pathEdgeIds, edge)
    ensures log.observations[i].Observation? && PathKeyOf(popped) == PathKeyOf(log.observations[i].candidateState)
    ensures log.enqueues[j].candidateState.path == popped.path + [node]
    ensures log.enqueues[j].candidateState.pathEdgeIds == popped.pathEdgeIds + [edge]
  {
    var expanded;
    popped, expanded := AdmitFacts(log, states, n, i);
    var at := j - states[i].next;
    edge := expanded[at];
    assert Extends(log, log.enqueues[states[i].next + at], popped, edge);
    var path := log.enqueues[j].candidateState.path;
    node := path[|path| - 1];
  }

  /** An event queued by an admitted label extends a chained path by one edge. */
  lemma NewEventChained(log: Log, states: seq<Progress>, n: nat, i: nat, j: nat)
    requires IsReplay(log, states, n) && i < n && log.observations[i].admitted
    requires states[i].active < |log.labels| && 0 <= log.observations[i].frontierSerial < |log.enqueues|
    requires EventChained(log, states[i].active, log.observations[i].frontierSerial)
    requires states[i].next <= j < states[i + 1].next <= |log.enqueues|
    ensures EventChained(log, states[i].active + 1, j)
  {
    var k := PopFacts(log, states, n, i);
    var popped, node, edge := NewEventExtends(log, states, n, i, j);
    ChainExtends(log, states[i].active, popped.path, popped.pathEdgeIds, node, edge);
  }

  lemma ActiveGrows(log: Log, states: seq<Progress>, n: nat, i: nat)
    requires IsReplay(log, states, n) && i < n
    ensures states[i + 1].active == states[i].active + if log.observations[i].admitted then 1 else 0
    ensures !log.observations[i].admitted ==> states[i + 1].next == states[i].next
  {
    assert Passes(log, states, i);
  }

  lemma QueueBounds(log: Log, states: seq<Progress>, n: nat, i: nat)
    requires IsReplay(log, states, n) && i <= n
    ensures states[i].next <= |log.enqueues| && states[i].active <= |log.labels|
  {
    QueueIsExact(log, states, n, i);
  }

  lemma PopWasQueued(log: Log, states: seq<Progress>, n: nat, i: nat) returns (k: nat)
    requires IsReplay(log, states, n) && i < n
    ensures log.observations[i].Observation? && k == log.observations[i].frontierSerial < states[i].next
  {
    QueueIsExact(log, states, n, i);
    k := PopFacts(log, states, n, i);
  }

  lemma ChainStep(log: Log, states: seq<Progress>, n: nat, i: nat, k: nat)
    requires IsReplay(log, states, n) && i < n
    requires states[i].next <= |log.enqueues| && states[i].active <= |log.labels|
    requires states[i + 1].next <= |log.enqueues| && states[i + 1].active <= |log.labels|
    requires 0 <= log.observations[i].frontierSerial < |log.enqueues|
    requires EventChained(log, states[i].active, log.observations[i].frontierSerial)
    requires k < states[i].next ==> EventChained(log, states[i].active, k)
    requires k < states[i + 1].next
    ensures EventChained(log, states[i + 1].active, k)
  {
    ActiveGrows(log, states, n, i);
    if k < states[i].next {
      var c := log.enqueues[k].candidateState;
      ChainedLater(log, states[i].active, states[i + 1].active, c.path, c.pathEdgeIds);
    } else {
      NewEventChained(log, states, n, i, k);
    }
  }

  /** Prefix closure: whatever has been queued descends, edge by edge, from a
      declared entry through labels already admitted. */
  lemma {:induction false} QueuedEventsAreChained(log: Log, states: seq<Progress>, n: nat, i: nat, k: nat)
    requires IsReplay(log, states, n) && i <= n && k < states[i].next
    ensures states[i].active <= |log.labels| && k < |log.enqueues|
    ensures EventChained(log, states[i].active, k)
  {
    QueueBounds(log, states, n, i);
    if i == 0 {
      InitialEventChained(log, k);
    } else {
      QueueBounds(log, states, n, i - 1);
      var popped := PopWasQueued(log, states, n, i - 1);
      QueuedEventsAreChained(log, states, n, i - 1, popped);
      if k < states[i - 1].next {
        QueuedEventsAreChained(log, states, n, i - 1, k);
      }
      ChainStep(log, states, n, i - 1, k);
    }
  }

  /** The same for observations: every popped state descends from a declared entry
      through labels admitted before it was popped. */
  lemma PoppedStatesAreChained(log: Log, states: seq<Progress>, n: nat, i: nat)
    requires IsReplay(log, states, n) && i < n
    ensures states[i].active <= |log.labels| && log.observations[i].Observation?
    ensures Chained(log, states[i].active,
                    log.observations[i].candidateState.path, log.observations[i].candidateState.pathEdgeIds)
  {
    var k := PopFacts(log, states, n, i);
    QueueIsExact(log, states, n, i);
    QueuedEventsAreChained(log, states, n, i, k);
  }

  // ---- roots ---------------------------------------------------------------

  /** The observation that admitted label j. */
  lemma {:induction false} AdmittedWhen(log: Log, states: seq<Progress>, n: nat, i: nat, j: nat) returns (t: nat)
    requires IsReplay(log, states, n) && i <= n && j < states[i].active
    ensures t < i && log.observations[t].admitted && states[t].active == j
  {
    ActiveGrows(log, states, n, i - 1);
    if j < states[i - 1].active {
      t := AdmittedWhen(log, states, n, i - 1, j);
    } else {
      t := i - 1;
    }
  }

  lemma RootsGrow(log: Log, states: seq<Progress>, n: nat, i: nat)
    requires IsReplay(log, states, n) && i < n
    ensures states[i].roots.Keys <= states[i + 1].roots.Keys
    ensures !log.observations[i].admitted ==> states[i + 1].roots == states[i].roots
  {
    assert Passes(log, states, i);
  }

  /** A state reached over edges starts at the root of an earlier label. */
  lemma FirstLink(log: Log, states: seq<Progress>, n: nat, i: nat) returns (d: nat)
    requires IsReplay(log, states, n) && i < n && log.observations[i].admitted
    requires states[i].active < |log.frontierRows| && log.frontierRows[states[i].active].Snapshot?
    requires log.frontierRows[states[i].active].popped.pathEdgeIds != []
    ensures d < states[i].active && log.frontierRows[d].Snapshot?
    ensures log.frontierRows[d].popped.rootNodeId == log.frontierRows[states[i].active].popped.rootNodeId
  {
    var popped, expanded := AdmitFacts(log, states, n, i);
    PoppedStatesAreChained(log, states, n, i);
    assert Linked(log, states[i].active, popped.path, popped.pathEdgeIds, 0);
    d :| 0 <= d < states[i].active
         && Declares(log, d, popped.path[..1], popped.pathEdgeIds[..0], popped.pathEdgeIds[0]);
    var t := AdmittedWhen(log, states, n, i, d);
    var first, _ := AdmitFacts(log, states, n, t);
    assert first.path[0] == popped.path[0];
  }

  ghost predicate RootKnown(log: Log, st: Progress, j: nat) {
    j < |log.frontierRows| && log.frontierRows[j].Snapshot? && log.frontierRows[j].popped.rootNodeId in st.roots
  }

  lemma EntryMakesRootKnown(log: Log, states: seq<Progress>, n: nat, i: nat)
    requires IsReplay(log, states, n) && i < n && log.observations[i].admitted
    requires states[i].active < |log.frontierRows| && log.frontierRows[states[i].active].Snapshot?
    requires log.frontierRows[states[i].active].popped.pathEdgeIds == []
    ensures RootKnown(log, states[i + 1], states[i].active)
  {
    var popped, expanded := AdmitFacts(log, states, n, i);
  }

  lemma AdmittedEdges(log: Log, states: seq<Progress>, n: nat, i: nat) returns (edges: seq<string>)
    requires IsReplay(log, states, n) && i < n && log.observations[i].admitted
    ensures states[i].active < |log.frontierRows| && log.frontierRows[states[i].active].Snapshot?
    ensures edges == log.frontierRows[states[i].active].popped.pathEdgeIds
  {
    var popped, _ := AdmitFacts(log, states, n, i);
    edges := popped.pathEdgeIds;
  }

  /** Every admitted label's root has a known entry distance. */
  lemma {:induction false} RootsAreKnown(log: Log, states: seq<Progress>, n: nat, i: nat, j: nat)
    requires IsReplay(log, states, n) && i <= n && j < states[i].active
    ensures RootKnown(log, states[i], j)
  {
    ActiveGrows(log, states, n, i - 1);
    RootsGrow(log, states, n, i - 1);
    if j < states[i - 1].active {
      RootsAreKnown(log, states, n, i - 1, j);
    } else {
      var edges := AdmittedEdges(log, states, n, i - 1);
      if edges == [] {
        EntryMakesRootKnown(log, states, n, i - 1);
      } else {
        var d := FirstLink(log, states, n, i - 1);
        RootsAreKnown(log, states, n, i - 1, d);
      }
    }
  }

  ghost predicate EntryRecorded(log: Log, st: Progress, root: string, distance: real) {
    && st.active < |log.frontierRows| && log.frontierRows[st.active].Snapshot?
    && var popped := log.frontierRows[st.active].popped;
    && popped.pathEdgeIds == [] && popped.rootNodeId == root && popped.distanceSoFar == distance
  }

  lemma RootSource(log: Log, states: seq<Progress>, n: nat, i: nat, root: string)
    requires IsReplay(log, states, n) && i < n && root in states[i + 1].roots
    ensures || (root in states[i].roots && states[i].roots[root] == states[i + 1].roots[root])
            || (log.observations[i].admitted && EntryRecorded(log, states[i], root, states[i + 1].roots[root]))
  {
    RootsGrow(log, states, n, i);
    if log.observations[i].admitted {
      var popped, expanded := AdmitFacts(log, states, n, i);
    }
  }

  /** A known entry distance was recorded by an admitted label without edges. */
  lemma {:induction false} RootsAreEntries(log: Log, states: seq<Progress>, n: nat, i: nat, root: string) returns (t: nat)
    requires IsReplay(log, states, n) && i <= n && root in states[i].roots
    ensures t < i && log.observations[t].admitted
    ensures EntryRecorded(log, states[t], root, states[i].roots[root])
  {
    t := i - 1;
    RootSource(log, states, n, t, root);
    if root in states[t].roots && states[t].roots[root] == states[i].roots[root] {
      t := RootsAreEntries(log, states, n, t, root);
    }
  }

  lemma {:induction false} EarlierPops(log: Log, i: nat, t: nat)
    requires t < i <= |log.observations| && forall o | o in log.observations :: o.Observation?
    ensures log.observations[t].frontierSerial in PoppedSerials(log, i)
  {
    if t < i - 1 {
      EarlierPops(log, i - 1, t);
    }
  }

  /** An admitted state without edges is the initial entry of its root. */
  lemma EntrySerial(log: Log, states: seq<Progress>, n: nat, i: nat) returns (k: nat)
    requires IsReplay(log, states, n) && i < n && log.observations[i].admitted
    requires states[i].active < |log.frontierRows| && log.frontierRows[states[i].active].Snapshot?
    requires log.frontierRows[states[i].active].popped.pathEdgeIds == []
    ensures log.observations[i].Observation? && k == log.observations[i].frontierSerial
    ensures k < InitialCount(log)
    ensures log.initialEntryIds[k] == log.frontierRows[states[i].active].popped.rootNodeId
  {
    k := PopFacts(log, states, n, i);
    var popped, expanded := AdmitFacts(log, states, n, i);
    assert EnqueueValid(log, k);
  }

  /** No root is entered twice. */
  lemma EntriesAreUnique(log: Log, states: seq<Progress>, n: nat, i: nat)
    requires IsReplay(log, states, n) && i < n && log.observations[i].admitted
    requires states[i].active < |log.frontierRows| && log.frontierRows[states[i].active].Snapshot?
    requires log.frontierRows[states[i].active].popped.pathEdgeIds == []
    ensures log.frontierRows[states[i].active].popped.rootNodeId !in states[i].roots
  {
    var root := log.frontierRows[states[i].active].popped.rootNodeId;
    if root in states[i].roots {
      var t := RootsAreEntries(log, states, n, i, root);
      var k := EntrySerial(log, states, n, i);
      var k' := EntrySerial(log, states, n, t);
      assert k == k';
      EarlierPops(log, i, t);
      QueueIsExact(log, states, n, i);
      var _ := PopFacts(log, states, n, i);
      assert false;
    }
  }

  // ---- queued paths are pairwise distinct ----------------------------------

  lemma EarlierPopDiffers(log: Log, states: seq<Progress>, n: nat, t: nat, i: nat)
    requires IsReplay(log, states, n) && t < i < n
    ensures log.observations[t].Observation? && log.observations[i].Observation?
    ensures log.observations[t].frontierSerial != log.observations[i].frontierSerial
  {
    EarlierPops(log, i, t);
    QueueIsExact(log, states, n, i);
    var k := PopFacts(log, states, n, i);
  }

  /** No event is popped twice. */
  lemma PoppedOnce(log: Log, states: seq<Progress>, n: nat, t: nat, i: nat)
    requires IsReplay(log, states, n) && t < n && i < n
    requires log.observations[t].Observation? && log.observations[i].Observation?
    requires log.observations[t].frontierSerial == log.observations[i].frontierSerial
    ensures t == i
  {
    if t < i {
      EarlierPopDiffers(log, states, n, t, i);
    } else if i < t {
      EarlierPopDiffers(log, states, n, i, t);
    }
  }

  /** The admitted observation whose label's expansions queued event j. */
  lemma {:induction false} QueuedBy(log: Log, states: seq<Progress>, n: nat, i: nat, j: nat) returns (t: nat)
    requires IsReplay(log, states, n) && i <= n && InitialCount(log) <= j < states[i].next
    ensures t < i && log.observations[t].admitted && states[t].next <= j < states[t + 1].next
  {
    ActiveGrows(log, states, n, i - 1);
    if j < states[i - 1].next {
      t := QueuedBy(log, states, n, i - 1, j);
    } else {
      t := i - 1;
    }
  }

  ghost predicate SamePath(a: State, b: State) {
    a.path == b.path && a.pathEdgeIds == b.pathEdgeIds
  }

  /** Where an expansion event comes from: the popped event, its label's edge list,
      and the position of the edge in it. */
  lemma Provenance(log: Log, states: seq<Progress>, n: nat, j: nat) returns (t: nat, parent: nat, at: nat)
    requires IsReplay(log, states, n) && InitialCount(log) <= j < states[n].next <= |log.enqueues|
    ensures t < n && log.observations[t].Observation? && log.observations[t].frontierSerial == parent
    ensures parent < states[n].next
    ensures states[t].active < |log.labels| && at < |log.labels[states[t].active].expandedEdgeIds|
    ensures j == states[t].next + at && Distinct(log.labels[states[t].active].expandedEdgeIds)
    ensures var from, c := log.enqueues[parent].candidateState, log.enqueues[j].candidateState;
            && c.path != [] && c.path[..|c.path| - 1] == from.path
            && c.pathEdgeIds == from.pathEdgeIds + [log.labels[states[t].active].expandedEdgeIds[at]]
  {
    t := QueuedBy(log, states, n, n, j);
    parent := PopFacts(log, states, n, t);
    var popped, expanded := AdmitFacts(log, states, n, t);
    at := j - states[t].next;
    assert Extends(log, log.enqueues[states[t].next + at], popped, expanded[at]);
    PopStaysQueued(log, states, n, t);
    LabelsExpandOnce(log, states, n, t);
  }

  lemma LabelsExpandOnce(log: Log, states: seq<Progress>, n: nat, t: nat)
    requires IsReplay(log, states, n) && t < n && log.observations[t].admitted
    ensures states[t].active < |log.labels| && Distinct(log.labels[states[t].active].expandedEdgeIds)
  {
    assert Passes(log, states, t);
  }

  lemma {:induction false} NextGrows(log: Log, states: seq<Progress>, n: nat, t: nat, i: nat)
    requires IsReplay(log, states, n) && t <= i <= n
    ensures states[t].next <= states[i].next
  {
    if t < i {
      NextGrows(log, states, n, t, i - 1);
      assert Passes(log, states, i - 1);
    }
  }

  lemma PopStaysQueued(log: Log, states: seq<Progress>, n: nat, t: nat)
    requires IsReplay(log, states, n) && t < n
    ensures log.observations[t].Observation? && log.observations[t].frontierSerial < states[n].next
  {
    var k := PopWasQueued(log, states, n, t);
    NextGrows(log, states, n, t, n);
  }

  lemma EntryPathsDiffer(log: Log, j: nat, k: nat)
    requires Prechecks(log) && j < InitialCount(log) && k < InitialCount(log)
    requires SamePath(log.enqueues[j].candidateState, log.enqueues[k].candidateState)
    ensures j == k
  {
    assert EnqueueValid(log, j) && EnqueueValid(log, k);
  }

  lemma EntriesHaveNoEdges(log: Log, j: nat)
    requires Prechecks(log) && j < |log.enqueues|
    ensures j < InitialCount(log) <==> log.enqueues[j].candidateState.pathEdgeIds == []
  {
    assert EnqueueValid(log, j);
  }

  /** Two queued events never have the same path and edges. */
  lemma {:induction false} QueuedPathsAreDistinct(log: Log, states: seq<Progress>, n: nat, j: nat, k: nat)
    requires IsReplay(log, states, n) && j < states[n].next && k < states[n].next <= |log.enqueues|
    requires SamePath(log.enqueues[j].candidateState, log.enqueues[k].candidateState)
    ensures j == k
    decreases |log.enqueues[j].candidateState.pathEdgeIds|
  {
    EntriesHaveNoEdges(log, j);
    EntriesHaveNoEdges(log, k);
    if j < InitialCount(log) {
      EntryPathsDiffer(log, j, k);
    } else {
      var t, parent, at := Provenance(log, states, n, j);
      var t', parent', at' := Provenance(log, states, n, k);
      SnocInjective(log.enqueues[parent].candidateState.pathEdgeIds, log.labels[states[t].active].expandedEdgeIds[at],
                    log.enqueues[parent'].candidateState.pathEdgeIds, log.labels[states[t'].active].expandedEdgeIds[at']);
      QueuedPathsAreDistinct(log, states, n, parent, parent');
      PoppedOnce(log, states, n, t, t');
    }
  }

  lemma SnocInjective(xs: seq<string>, x: string, ys: seq<string>, y: string)
    requires xs + [x] == ys + [y]
    ensures xs == ys && x == y
  {
    assert |xs| == |ys|;
    assert (xs + [x])[|xs|] == x && (ys + [y])[|ys|] == y;
    assert (xs + [x])[..|xs|] == xs && (ys + [y])[..|ys|] == ys;
  }

  lemma NothingIsQueuedTwice(log: Log, states: seq<Progress>)
    requires Completes(log, states)
    ensures NoDuplicates(log)
  {
    forall j, k {:trigger SameEnqueue(log.enqueues[j], log.enqueues[k])} | 0 <= j < k < |log.enqueues|
      ensures !SameEnqueue(log.enqueues[j], log.enqueues[k])
    {
      if SameEnqueue(log.enqueues[j], log.enqueues[k]) {
        QueuedPathsAreDistinct(log, states, |log.observations|, j, k);
      }
    }
  }

  // ---- the guards never fire -----------------------------------------------

  lemma ChainedMeansDeclared(log: Log, active: nat, path: seq<string>, edgeIds: seq<string>)
    requires RowsAreSnapshots(log) && active <= |log.labels| && Chained(log, active, path, edgeIds)
    ensures PredecessorDeclared(log, active, path, edgeIds)
  {
    if edgeIds != [] {
      var m := |edgeIds| - 1;
      assert Linked(log, active, path, edgeIds, m);
      assert path[..m + 1] == path[..|path| - 1];
    }
  }

  lemma GuardsPass(log: Log, states: seq<Progress>, i: nat)
    requires IsReplay(log, states, |log.observations|) && i < |log.observations|
    ensures GuardsPassed(log, states, i)
  {
    var n := |log.observations|;
    assert Passes(log, states, i);
    PoppedStatesAreChained(log, states, n, i);
    var o := log.observations[i];
    ChainedMeansDeclared(log, states[i].active, o.candidateState.path, o.candidateState.pathEdgeIds);
    if o.admitted {
      var popped, expanded := AdmitFacts(log, states, n, i);
      if popped.pathEdgeIds == [] {
        EntriesAreUnique(log, states, n, i);
      } else {
        var d := FirstLink(log, states, n, i);
        RootsAreKnown(log, states, n, i, d);
      }
    }
  }

  /** Dropping the predecessor tests, the missing-root test, the tests for a second
      entry distance and for a duplicate event changes no verdict: where the other
      tests pass, none of them can fail. */
  lemma GuardsNeverFire(log: Log)
    ensures Accepts(log) <==> exists states :: Completes(log, states)
  {
    forall states | Completes(log, states) ensures GuardsHold(log, states) && NoDuplicates(log) {
      NothingIsQueuedTwice(log, states);
      forall i | 0 <= i < |log.observations| ensures GuardsPassed(log, states, i) {
        GuardsPass(log, states, i);
      }
    }
  }
}
