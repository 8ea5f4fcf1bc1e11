/** Path labels: the multi-criteria cost a search state carries, the dominance
    relation between labels, and the label fact a state is replayed to. */
module Labels {
  import opened Rounding

  /** A search state as the enqueue log and the observations record it. Fields the
      replay demands to be sorted and free of duplicates are sets. */
  datatype State = State(
    layer: string,
    nodeId: string,
    rootNodeId: string,
    path: seq<string>,
    pathEdgeIds: seq<string>,
    pathEdgeTypes: seq<string>,
    pathEdgeDistances: Metrics,
    pathEdgeStrengths: Metrics,
    depth: int,
    distanceSoFar: real,
    rewardSoFar: real,
    coveredFacets: set<string>,
    evidenceRoles: set<string>,
    entryParentRefs: seq<string>)

  /** A per-edge list that a candidate state may leave out. */
  datatype Metrics = Absent | Present(values: seq<real>)

  datatype Label = Label(
    distance: real,
    coveredFacets: set<string>,
    evidenceRoles: set<string>,
    depth: int,
    edgeTypeCounts: map<string, int>)

  /** The fields the path identity hash commits to. */
  datatype PathKey = PathKey(
    layer: string,
    nodeId: string,
    rootNodeId: string,
    path: seq<string>,
    pathEdgeIds: seq<string>,
    entryParentRefs: seq<string>)

  function PathKeyOf(s: State): PathKey {
    PathKey(s.layer, s.nodeId, s.rootNodeId, s.path, s.pathEdgeIds, s.entryParentRefs)
  }

  predicate MetricsValid(m: Metrics, edges: nat, upper: bool, required: bool) {
    match m
    case Absent => !required
    case Present(values) =>
      |values| == edges && forall v | v in values :: 0.0 <= v && (upper ==> v <= 1.0)
  }

  predicate StructureValid(s: State, requireEdgeMetrics: bool) {
    && s.layer != "" && s.nodeId != "" && s.rootNodeId != ""
    && s.path != [] && "" !in s.path
    && "" !in s.pathEdgeIds && "" !in s.pathEdgeTypes
    && |s.path| == |s.pathEdgeIds| + 1
    && |s.pathEdgeTypes| == |s.pathEdgeIds|
    && s.path[|s.path| - 1] == s.nodeId
    && s.path[0] == s.rootNodeId
    && s.depth == |s.pathEdgeIds|
    && s.distanceSoFar >= 0.0
    && s.rewardSoFar >= 0.0
    && "" !in s.coveredFacets && "" !in s.evidenceRoles
    && MetricsValid(s.pathEdgeDistances, |s.pathEdgeIds|, false, requireEdgeMetrics)
    && MetricsValid(s.pathEdgeStrengths, |s.pathEdgeIds|, true, requireEdgeMetrics)
  }

  predicate LabelFactValid(l: Label) {
    && l.distance >= 0.0
    && l.depth >= 0
    && forall t | t in l.edgeTypeCounts :: t != "" && l.edgeTypeCounts[t] >= 0
  }

  /** How often each non-empty edge type occurs. */
  function CountTypes(types: seq<string>): map<string, int> {
    map t | t in types && t != "" :: multiset(types)[t]
  }

  function LabelFact(s: State): Label {
    Label(Round6(s.distanceSoFar), s.coveredFacets, s.evidenceRoles, s.depth, CountTypes(s.pathEdgeTypes))
  }

  function CountOf(l: Label, edgeType: string): int {
    if edgeType in l.edgeTypeCounts then l.edgeTypeCounts[edgeType] else 0
  }

  predicate WeaklyBetter(l: Label, r: Label) {
    && l.distance <= r.distance
    && l.coveredFacets >= r.coveredFacets
    && l.evidenceRoles >= r.evidenceRoles
    && l.depth <= r.depth
    && forall t | t in r.edgeTypeCounts :: CountOf(l, t) >= r.edgeTypeCounts[t]
  }

  predicate StrictlyBetter(l: Label, r: Label) {
    || l.distance < r.distance
    || l.coveredFacets != r.coveredFacets
    || l.evidenceRoles != r.evidenceRoles
    || l.depth < r.depth
    || l.edgeTypeCounts != r.edgeTypeCounts
  }

  predicate Dominates(l: Label, r: Label) {
    WeaklyBetter(l, r) && StrictlyBetter(l, r)
  }

  predicate Covers(l: Label, r: Label) {
    l == r || Dominates(l, r)
  }

  /** The labels states of sound structure are replayed to: the type counts are
      those of some list of as many non-empty types as the path has edges. */
  ghost predicate Canonical(l: Label) {
    exists types: seq<string> :: CountsListed(l, types)
  }

  ghost predicate CountsListed(l: Label, types: seq<string>) {
    |types| == l.depth && "" !in types && l.edgeTypeCounts == CountTypes(types)
  }

  /** One row of the recorded frontier: the popped state and its queue data. */
  datatype Snapshot = NotASnapshot | Snapshot(
    popped: State,
    key: seq<real>,
    serial: int,
    queueSizeBeforePop: int,
    queueSizeAfterPop: int)

  predicate AllMatch(observed: seq<real>, expected: seq<real>) {
    && |observed| == |expected|
    && forall i | 0 <= i < |observed| :: StrictNumericMatch(observed[i], expected[i])
  }

  predicate MetricsMatch(candidate: Metrics, popped: Metrics) {
    candidate.Absent? || (popped.Present? && AllMatch(candidate.values, popped.values))
  }

  /** A candidate state and the popped state recorded for it agree: exactly on
      everything but the numbers, and on those within the replay tolerance. */
  predicate CandidateMatches(candidate: State, popped: State) {
    && StructureValid(candidate, false)
    && StructureValid(popped, true)
    && PathKeyOf(candidate) == PathKeyOf(popped)
    && candidate.pathEdgeTypes == popped.pathEdgeTypes
    && candidate.coveredFacets == popped.coveredFacets
    && candidate.evidenceRoles == popped.evidenceRoles
    && candidate.depth == popped.depth
    && StrictNumericMatch(candidate.distanceSoFar, popped.distanceSoFar)
    && StrictNumericMatch(candidate.rewardSoFar, popped.rewardSoFar)
    && MetricsMatch(candidate.pathEdgeDistances, popped.pathEdgeDistances)
    && MetricsMatch(candidate.pathEdgeStrengths, popped.pathEdgeStrengths)
  }

  /** The frontier's priority: uncovered facets, rewarded distance, depth, and
      more evidence roles first. */
  function QueueKey(requiredFacets: set<string>, s: State): seq<real> {
    var l := LabelFact(s);
    [ |requiredFacets - l.coveredFacets| as real,
      Round6(l.distance - s.rewardSoFar),
      l.depth as real,
      -(|l.evidenceRoles| as real) ]
  }

  lemma LabelFactCanonical(s: State)
    requires StructureValid(s, false)
    ensures Canonical(LabelFact(s)) && LabelFactValid(LabelFact(s))
  {
    assert CountsListed(LabelFact(s), s.pathEdgeTypes);
    Round6Monotone(0.0, s.distanceSoFar);
    Round6Fixes(0.0);
  }

  lemma SubMultisetOfNoMoreElements<T>(a: multiset<T>, b: multiset<T>)
    requires a <= b && |b| <= |a|
    ensures a == b
  {
    assert b == a + (b - a);
  }

  /** Counts sum to the depth, while dominance wants the depth smaller and the
      counts larger: between canonical labels it must keep both. */
  lemma CanonicalDominanceKeepsPathShape(l: Label, r: Label)
    requires Canonical(l) && Canonical(r) && WeaklyBetter(l, r)
    ensures l.depth == r.depth
    ensures l.edgeTypeCounts == r.edgeTypeCounts
  {
    var lt: seq<string> :| CountsListed(l, lt);
    var rt: seq<string> :| CountsListed(r, rt);
    forall t ensures multiset(rt)[t] <= multiset(lt)[t] {
      if t in multiset(rt) {
        assert t in rt;
        assert r.edgeTypeCounts[t] == multiset(rt)[t];
        assert CountOf(l, t) >= r.edgeTypeCounts[t];
      }
    }
    assert multiset(rt) <= multiset(lt);
    SubMultisetOfNoMoreElements(multiset(rt), multiset(lt));
    assert |multiset(rt)| == |rt| && |multiset(lt)| == |lt|;
    forall t ensures t in lt <==> t in rt {
      assert t in lt <==> t in multiset(lt);
      assert t in rt <==> t in multiset(rt);
    }
  }

  lemma WeaklyBetterTransitive(a: Label, b: Label, c: Label)
    requires WeaklyBetter(a, b) && WeaklyBetter(b, c)
    requires Canonical(a) && Canonical(b)
    ensures WeaklyBetter(a, c)
  {
    CanonicalDominanceKeepsPathShape(a, b);
  }

  /** On canonical labels dominance is a strict partial order. */
  lemma DominanceIsStrictOrder(a: Label, b: Label, c: Label)
    requires Canonical(a) && Canonical(b) && Canonical(c)
    ensures !Dominates(a, a)
    ensures Dominates(a, b) ==> !Dominates(b, a)
    ensures Dominates(a, b) && Dominates(b, c) ==> Dominates(a, c)
  {
    if Dominates(a, b) && Dominates(b, c) {
      WeaklyBetterTransitive(a, b, c);
      CanonicalDominanceKeepsPathShape(a, b);
      CanonicalDominanceKeepsPathShape(b, c);
    }
    if Dominates(a, b) && Dominates(b, a) {
      CanonicalDominanceKeepsPathShape(a, b);
      assert false;
    }
  }

  lemma CoversTransitive(a: Label, b: Label, c: Label)
    requires Canonical(a) && Canonical(b) && Canonical(c)
    requires Covers(a, b) && Covers(b, c)
    ensures Covers(a, c)
    ensures Dominates(a, b) || Dominates(b, c) ==> Dominates(a, c)
  {
    DominanceIsStrictOrder(a, b, c);
  }

  /** Valid labels are not enough: two of them dominate each other exactly when
      they differ only in which absent edge types they spell out as zero. */
  lemma MutualDominanceExactly(a: Label, b: Label)
    requires LabelFactValid(a) && LabelFactValid(b)
    ensures Dominates(a, b) && Dominates(b, a) <==>
            && a.distance == b.distance
            && a.coveredFacets == b.coveredFacets
            && a.evidenceRoles == b.evidenceRoles
            && a.depth == b.depth
            && (forall t :: CountOf(a, t) == CountOf(b, t))
            && a.edgeTypeCounts.Keys != b.edgeTypeCounts.Keys
  {
    if Dominates(a, b) && Dominates(b, a) {
      forall t ensures CountOf(a, t) == CountOf(b, t) {
        if t in a.edgeTypeCounts { assert CountOf(b, t) >= a.edgeTypeCounts[t]; }
        if t in b.edgeTypeCounts { assert CountOf(a, t) >= b.edgeTypeCounts[t]; }
      }
      if a.edgeTypeCounts.Keys == b.edgeTypeCounts.Keys {
        forall t | t in a.edgeTypeCounts ensures a.edgeTypeCounts[t] == b.edgeTypeCounts[t] {
          assert CountOf(a, t) == CountOf(b, t);
        }
        assert false;
      }
    }
  }

  /** So the canonical form is needed: here are two valid labels at odds. */
  lemma ZeroCountsDominateBothWays()
    ensures exists a, b :: LabelFactValid(a) && LabelFactValid(b) && Dominates(a, b) && Dominates(b, a)
  {
    var a := Label(0.0, {}, {}, 0, map[]);
    var b := Label(0.0, {}, {}, 0, map["dense" := 0]);
    assert "dense" in b.edgeTypeCounts.Keys && "dense" !in a.edgeTypeCounts.Keys;
    MutualDominanceExactly(a, b);
  }
}
