/** What a record must say, field by field, for the replays to take it: search states,
    observations, and the two reports of a popped state. */
module RecordedFields {
  import opened Archive
  import opened Frontier
  import opened Labels
  import opened Options
  import opened Rounding

  // ---- search states -------------------------------------------------------

  /** The state one edge further on. */
  function Extended(s: State, node: string, edge: string, edgeType: string, distance: real, strength: real): State
    requires s.pathEdgeDistances.Present? && s.pathEdgeStrengths.Present?
  {
    s.(nodeId := node, path := s.path + [node], pathEdgeIds := s.pathEdgeIds + [edge],
       pathEdgeTypes := s.pathEdgeTypes + [edgeType],
       pathEdgeDistances := Present(s.pathEdgeDistances.values + [distance]),
       pathEdgeStrengths := Present(s.pathEdgeStrengths.values + [strength]),
       depth := s.depth + 1)
  }

  /** A state without edges is sound if it sits at its root and its totals and names
      make sense. */
  lemma EntryExactly(s: State, metrics: bool)
    requires s.pathEdgeIds == []
    ensures StructureValid(s, metrics) <==>
            && s.layer != "" && s.nodeId != "" && s.rootNodeId == s.nodeId && s.path == [s.nodeId]
            && s.pathEdgeTypes == [] && s.depth == 0 && s.distanceSoFar >= 0.0 && s.rewardSoFar >= 0.0
            && "" !in s.coveredFacets + s.evidenceRoles
            && s.pathEdgeDistances in (if metrics then {Present([])} else {Absent, Present([])})
            && s.pathEdgeStrengths in (if metrics then {Present([])} else {Absent, Present([])})
  {
    assert |s.path| == 1 ==> s.path == [s.path[0]];
    NoMetrics(s.pathEdgeDistances, false, metrics);
    NoMetrics(s.pathEdgeStrengths, true, metrics);
  }

  lemma NoMetrics(m: Metrics, upper: bool, metrics: bool)
    ensures MetricsValid(m, 0, upper, metrics) <==> m in (if metrics then {Present([])} else {Absent, Present([])})
  {
  }

  lemma MetricsGrow(values: seq<real>, x: real, n: nat, upper: bool)
    ensures MetricsValid(Present(values + [x]), n + 1, upper, true) <==>
            MetricsValid(Present(values), n, upper, true) && 0.0 <= x && (upper ==> x <= 1.0)
  {
    var more := values + [x];
    assert forall v :: v in more <==> v in values || v == x;
    assert x in more;
    if MetricsValid(Present(more), n + 1, upper, true) {
      forall v | v in values ensures 0.0 <= v && (upper ==> v <= 1.0) {
        assert v in more;
      }
    }
  }

  /** An extension is sound exactly when what it extends is and the edge makes sense. */
  lemma ExtensionExactly(s: State, node: string, edge: string, edgeType: string, distance: real, strength: real)
    requires s.pathEdgeDistances.Present? && s.pathEdgeStrengths.Present?
    requires s.path != [] && s.path[|s.path| - 1] == s.nodeId
    ensures StructureValid(Extended(s, node, edge, edgeType, distance, strength), true) <==>
            && StructureValid(s, true)
            && node != "" && edge != "" && edgeType != "" && distance >= 0.0 && 0.0 <= strength <= 1.0
  {
    var t := Extended(s, node, edge, edgeType, distance, strength);
    assert t.path[|t.path| - 1] == node && t.path[0] == s.path[0];
    assert forall x :: x in t.path <==> x in s.path || x == node;
    assert forall x :: x in t.pathEdgeIds <==> x in s.pathEdgeIds || x == edge;
    assert forall x :: x in t.pathEdgeTypes <==> x in s.pathEdgeTypes || x == edgeType;
    MetricsGrow(s.pathEdgeDistances.values, distance, |s.pathEdgeIds|, false);
    MetricsGrow(s.pathEdgeStrengths.values, strength, |s.pathEdgeIds|, true);
  }

  /** So the sound states are those that grow edge by edge from an entry. */
  lemma SoundStatesGrow(t: State) returns (s: State, edge: string, edgeType: string, distance: real, strength: real)
    requires StructureValid(t, true) && t.pathEdgeIds != []
    ensures s.pathEdgeDistances.Present? && s.pathEdgeStrengths.Present? && StructureValid(s, true)
    ensures t == Extended(s, t.nodeId, edge, edgeType, distance, strength)
    ensures |s.pathEdgeIds| == |t.pathEdgeIds| - 1
  {
    var n := |t.pathEdgeIds| - 1;
    edge, edgeType := t.pathEdgeIds[n], t.pathEdgeTypes[n];
    distance, strength := t.pathEdgeDistances.values[n], t.pathEdgeStrengths.values[n];
    s := t.(nodeId := t.path[n], path := t.path[..n + 1], pathEdgeIds := t.pathEdgeIds[..n],
            pathEdgeTypes := t.pathEdgeTypes[..n], pathEdgeDistances := Present(t.pathEdgeDistances.values[..n]),
            pathEdgeStrengths := Present(t.pathEdgeStrengths.values[..n]), depth := t.depth - 1);
    assert t.path == s.path + [t.nodeId] && t.pathEdgeIds == s.pathEdgeIds + [edge];
    assert t.pathEdgeTypes == s.pathEdgeTypes + [edgeType];
    assert t.pathEdgeDistances.values == s.pathEdgeDistances.values + [distance];
    assert t.pathEdgeStrengths.values == s.pathEdgeStrengths.values + [strength];
    ExtensionExactly(s, t.nodeId, edge, edgeType, distance, strength);
  }

  function Filled(m: Metrics, n: nat): Metrics {
    if m.Absent? then Present(seq(n, _ => 0.0)) else m
  }

  /** The per-edge numbers may be left out unless they are asked for. */
  lemma MetricsMayBeLeftOut(s: State, metrics: bool)
    ensures var n := |s.pathEdgeIds|;
            StructureValid(s, metrics) <==>
            && StructureValid(s.(pathEdgeDistances := Filled(s.pathEdgeDistances, n),
                                 pathEdgeStrengths := Filled(s.pathEdgeStrengths, n)), true)
            && (metrics ==> s.pathEdgeDistances.Present? && s.pathEdgeStrengths.Present?)
  {
    var zeros := seq(|s.pathEdgeIds|, _ => 0.0);
    assert forall x :: x in zeros ==> x == 0.0;
  }

  // ---- observations --------------------------------------------------------

  function Occurrences(types: seq<string>, t: string): set<int> {
    set i | 0 <= i < |types| && types[i] == t
  }

  lemma {:induction false} CountedByPosition(types: seq<string>, t: string)
    ensures multiset(types)[t] == |Occurrences(types, t)|
  {
    if types != [] {
      var n := |types| - 1;
      CountedByPosition(types[..n], t);
      assert types == types[..n] + [types[n]];
      assert Occurrences(types, t) == Occurrences(types[..n], t) + if types[n] == t then {n} else {};
    }
  }

  /** The label a state is replayed to. */
  ghost predicate FactOf(l: Label, s: State) {
    && l.distance == Round6(s.distanceSoFar)
    && l.coveredFacets == s.coveredFacets
    && l.evidenceRoles == s.evidenceRoles
    && l.depth == |s.pathEdgeIds|
    && (forall t :: t in l.edgeTypeCounts <==> t in s.pathEdgeTypes)
    && (forall t | t in l.edgeTypeCounts :: l.edgeTypeCounts[t] == |Occurrences(s.pathEdgeTypes, t)|)
  }

  lemma LabelFactExactly(l: Label, s: State)
    requires StructureValid(s, false)
    ensures l == LabelFact(s) <==> FactOf(l, s)
  {
    forall t ensures multiset(s.pathEdgeTypes)[t] == |Occurrences(s.pathEdgeTypes, t)| {
      CountedByPosition(s.pathEdgeTypes, t);
    }
    if FactOf(l, s) {
      assert l.edgeTypeCounts.Keys == CountTypes(s.pathEdgeTypes).Keys;
    }
  }

  /** The four numbers a state is queued under: required facets still open, the rewarded
      distance, the number of edges, and minus the number of evidence roles. */
  predicate KeyedAs(key: seq<real>, required: set<string>, s: State) {
    && |key| == 4
    && key[0] == |set f | f in required && f !in s.coveredFacets| as real
    && key[1] == Round6(Round6(s.distanceSoFar) - s.rewardSoFar)
    && key[2] == |s.pathEdgeIds| as real
    && key[3] == -(|s.evidenceRoles| as real)
  }

  lemma QueueKeyExactly(key: seq<real>, required: set<string>, s: State)
    requires StructureValid(s, false)
    ensures key == QueueKey(required, s) <==> KeyedAs(key, required, s)
  {
    assert (set f | f in required && f !in s.coveredFacets) == required - s.coveredFacets;
  }

  /** The dominance replay takes an observation exactly when its state is sound and
      everything else it says follows from that state and the configuration. The tests
      on the label, on the budget's sign and on the node are implied. */
  lemma ObservationExactly(cfg: Config, o: Observation)
    requires o.Observation?
    ensures WellFormed(cfg, o) <==>
            && o.protocolVersion == "pareto_label_admission_replay_v2"
            && StructureValid(o.candidateState, false)
            && o.nodeId == o.candidateState.nodeId
            && FactOf(o.fact, o.candidateState)
            && KeyedAs(o.queueKey, cfg.requiredFacets, o.candidateState)
            && var s := o.candidateState;
            && o.pathIdentity
               == cfg.stableHash(PathKey(s.layer, s.nodeId, s.rootNodeId, s.path, s.pathEdgeIds, s.entryParentRefs))
            && o.pathIdentity != ""
            && o.maxLabels == cfg.maxLabels > 0 && o.requiredFacets == cfg.requiredFacets
  {
    if StructureValid(o.candidateState, false) {
      LabelFactExactly(o.fact, o.candidateState);
      QueueKeyExactly(o.queueKey, cfg.requiredFacets, o.candidateState);
      LabelFactCanonical(o.candidateState);
    }
  }

  // ---- reports of a popped state -------------------------------------------

  predicate Near(x: real, y: real) {
    x - 0.000000001 <= y <= x + 0.000000001
  }

  predicate AllNear(xs: seq<real>, ys: seq<real>) {
    |xs| == |ys| && forall i | 0 <= i < |xs| :: Near(xs[i], ys[i])
  }

  predicate GivenNear(given: Metrics, m: Metrics) {
    given == Absent || (m.Present? && AllNear(given.values, m.values))
  }

  /** A candidate and a popped state match exactly when they are one state but for its
      numbers, which may differ by a billionth, or be left out per edge. */
  lemma CandidateMatchesExactly(candidate: State, popped: State)
    ensures CandidateMatches(candidate, popped) <==>
            && StructureValid(candidate, false) && StructureValid(popped, true)
            && candidate.(distanceSoFar := popped.distanceSoFar, rewardSoFar := popped.rewardSoFar,
                          pathEdgeDistances := popped.pathEdgeDistances,
                          pathEdgeStrengths := popped.pathEdgeStrengths) == popped
            && Near(candidate.distanceSoFar, popped.distanceSoFar)
            && Near(candidate.rewardSoFar, popped.rewardSoFar)
            && GivenNear(candidate.pathEdgeDistances, popped.pathEdgeDistances)
            && GivenNear(candidate.pathEdgeStrengths, popped.pathEdgeStrengths)
  {
  }

  /** The label to report for a popped state. */
  function Report(popped: State, layer: string, expanded: seq<string>): PathLabel
    requires popped.pathEdgeDistances.Present? && popped.pathEdgeStrengths.Present?
  {
    PathLabel(popped.nodeId, popped.nodeId, layer, popped.rootNodeId, popped.path, popped.pathEdgeIds,
              popped.pathEdgeDistances.values, popped.pathEdgeStrengths.values, popped.distanceSoFar,
              popped.rewardSoFar, popped.coveredFacets, popped.evidenceRoles,
              Some(LabelFact(popped).edgeTypeCounts), expanded)
  }

  /** What of a report may be left blank: one of the two node ids, the layer, the root,
      the type counts. */
  function BlanksFilled(l: PathLabel, full: PathLabel): PathLabel {
    l.(nodeId := if l.nodeId == "" && l.chunkId != "" then full.nodeId else l.nodeId,
       chunkId := if l.chunkId == "" && l.nodeId != "" then full.chunkId else l.chunkId,
       layer := if l.layer == "" then full.layer else l.layer,
       rootNodeId := if l.rootNodeId == "" then full.rootNodeId else l.rootNodeId,
       edgeTypeCounts := if l.edgeTypeCounts == None then full.edgeTypeCounts else l.edgeTypeCounts)
  }

  /** A label matches the state it was admitted with exactly when, blanks filled in, it
      is the report of that state but for numbers that differ by a billionth, and the
      edges it expands are named once each. */
  lemma LabelMatchesExactly(l: PathLabel, popped: State, layer: string)
    requires StructureValid(popped, true)
    ensures var full := Report(popped, layer, l.expandedEdgeIds);
            LabelMatches(l, popped, layer) <==>
            && BlanksFilled(l, full).(pathEdgeDistances := full.pathEdgeDistances,
                                      pathEdgeStrengths := full.pathEdgeStrengths,
                                      distanceSoFar := full.distanceSoFar, rewardSoFar := full.rewardSoFar) == full
            && AllNear(l.pathEdgeDistances, full.pathEdgeDistances)
            && AllNear(l.pathEdgeStrengths, full.pathEdgeStrengths)
            && Near(l.distanceSoFar, full.distanceSoFar) && Near(l.rewardSoFar, full.rewardSoFar)
            && "" !in l.expandedEdgeIds
            && (forall i, j | 0 <= i < j < |l.expandedEdgeIds| :: l.expandedEdgeIds[i] != l.expandedEdgeIds[j])
  {
  }

  /** On the six-decimal grid a candidate that leaves nothing out is the popped state. */
  lemma GridMatchIsEquality(candidate: State, popped: State)
    requires CandidateMatches(candidate, popped)
    requires candidate.pathEdgeDistances.Present? && candidate.pathEdgeStrengths.Present?
    requires GridState(candidate) && GridState(popped)
    ensures candidate == popped
  {
    GridGap(candidate.distanceSoFar, popped.distanceSoFar);
    GridGap(candidate.rewardSoFar, popped.rewardSoFar);
    GridLists(candidate.pathEdgeDistances.values, popped.pathEdgeDistances.values);
    GridLists(candidate.pathEdgeStrengths.values, popped.pathEdgeStrengths.values);
  }

  predicate AllOnGrid(xs: seq<real>) {
    forall i | 0 <= i < |xs| :: OnGrid(xs[i])
  }

  predicate GridState(s: State) {
    && OnGrid(s.distanceSoFar) && OnGrid(s.rewardSoFar)
    && (s.pathEdgeDistances.Present? ==> AllOnGrid(s.pathEdgeDistances.values))
    && (s.pathEdgeStrengths.Present? ==> AllOnGrid(s.pathEdgeStrengths.values))
  }

  lemma GridLists(xs: seq<real>, ys: seq<real>)
    requires AllMatch(xs, ys) && AllOnGrid(xs) && AllOnGrid(ys)
    ensures xs == ys
  {
    forall i | 0 <= i < |xs| ensures xs[i] == ys[i] {
      assert StrictNumericMatch(xs[i], ys[i]);
      GridGap(xs[i], ys[i]);
    }
  }
}
