/** The reward a path earns for closing cycles, replayed event by event under a
    cap. `decay` stands for x -> exp(-x); nothing below depends on which function
    it is. */
module CycleReward {
  import opened Basics
  import opened Options
  import opened Rounding

  const CYCLE_REWARD_REPLAY_PROTOCOL_VERSION := "bounded_cycle_distance_reward_replay_v1"
  const TOLERANCE: real := 0.000001
  const REWARD_SCALE: real := 0.04

  /** A recorded reward event; a number that is missing or not finite is None. */
  datatype Event = NotAnEvent | Event(
    protocolVersion: string,
    cycleEdges: seq<string>,
    edgeStrength: Option<real>,
    cycleDistance: Option<real>,
    rewardBeforeCap: Option<real>,
    rewardAfterCap: Option<real>,
    capReason: string,
    supportDelta: int)

  datatype RewardedPath = RewardedPath(
    path: seq<string>,
    edgeIds: seq<string>,
    distances: seq<real>,
    strengths: seq<real>,
    events: seq<Event>,
    declaredReward: Option<real>)

  datatype Envelope = Envelope(cap: Option<real>, threshold: Option<real>)

  datatype Cycle = Cycle(
    edges: seq<string>,
    distance: real,
    currentEdgeId: string,
    currentEdgeDistance: real,
    currentEdgeStrength: real)

  predicate PathSound(p: RewardedPath) {
    && |p.path| == |p.edgeIds| + 1
    && |p.edgeIds| == |p.distances| == |p.strengths|
    && (forall d | d in p.distances :: d >= 0.0)
    && (forall s | s in p.strengths :: 0.0 <= s <= 1.0)
  }

  // ---- the cycles a path closes --------------------------------------------

  /** The last position of a node in a list that holds it. */
  function LastIndex(nodes: seq<string>, node: string): (k: nat)
    requires node in nodes
    ensures k < |nodes| && nodes[k] == node
    ensures forall j | k < j < |nodes| :: nodes[j] != node
  {
    if nodes[|nodes| - 1] == node then |nodes| - 1
    else
      assert nodes == nodes[..|nodes| - 1] + [nodes[|nodes| - 1]];
      LastIndex(nodes[..|nodes| - 1], node)
  }

  /** Edge e returns to a node already on the path. */
  predicate Closes(p: RewardedPath, e: nat)
    requires PathSound(p) && e < |p.edgeIds|
  {
    p.path[e + 1] in p.path[..e + 1]
  }

  /** The cycle that edge e closes: back to the latest visit of its end. */
  function CycleOf(p: RewardedPath, e: nat): Cycle
    requires PathSound(p) && e < |p.edgeIds| && Closes(p, e)
  {
    var start := LastIndex(p.path[..e + 1], p.path[e + 1]);
    Cycle(p.edgeIds[start..e + 1], Round6(Sum(p.distances[start..e + 1])),
          p.edgeIds[e], p.distances[e], p.strengths[e])
  }

  /** The cycles closed by the first n edges, in order. */
  function ExpectedCycles(p: RewardedPath, n: nat): seq<Cycle>
    requires PathSound(p) && n <= |p.edgeIds|
  {
    if n == 0 then [] else
      var before := ExpectedCycles(p, n - 1);
      if Closes(p, n - 1) then before + [CycleOf(p, n - 1)] else before
  }

  function NodesOf(nodes: seq<string>): set<string> {
    set x | x in nodes
  }

  lemma NodesGrow(path: seq<string>, n: nat)
    requires n < |path|
    ensures |NodesOf(path[..n + 1])| == |NodesOf(path[..n])| + if path[n] in path[..n] then 0 else 1
  {
    assert path[..n + 1] == path[..n] + [path[n]];
    assert NodesOf(path[..n + 1]) == NodesOf(path[..n]) + {path[n]};
  }

  lemma {:induction false} CycleCountPrefix(p: RewardedPath, n: nat)
    requires PathSound(p) && n <= |p.edgeIds|
    ensures |ExpectedCycles(p, n)| == n + 1 - |NodesOf(p.path[..n + 1])|
  {
    NodesGrow(p.path, n);
    if n > 0 {
      CycleCountPrefix(p, n - 1);
    }
  }

  /** A path closes as many cycles as it has repeated nodes. */
  lemma CycleCount(p: RewardedPath)
    requires PathSound(p)
    ensures |ExpectedCycles(p, |p.edgeIds|)| == |p.path| - |NodesOf(p.path)|
  {
    CycleCountPrefix(p, |p.edgeIds|);
    assert p.path[..|p.path|] == p.path;
  }

  /** The cycle an edge closes is a closed walk that does not revisit its end. */
  ghost predicate IsClosedWalk(p: RewardedPath, start: nat, e: nat, c: Cycle)
    requires PathSound(p)
  {
    && start <= e < |p.edgeIds|
    && c == Cycle(p.edgeIds[start..e + 1], Round6(Sum(p.distances[start..e + 1])),
                  p.edgeIds[e], p.distances[e], p.strengths[e])
    && p.path[start] == p.path[e + 1]
    && forall j | start < j <= e :: p.path[j] != p.path[e + 1]
  }

  lemma ClosingIsClosedWalk(p: RewardedPath, e: nat) returns (start: nat)
    requires PathSound(p) && e < |p.edgeIds| && Closes(p, e)
    ensures IsClosedWalk(p, start, e, CycleOf(p, e))
  {
    start := LastIndex(p.path[..e + 1], p.path[e + 1]);
    forall j | start < j <= e ensures p.path[j] != p.path[e + 1] {
      assert p.path[..e + 1][j] == p.path[j];
    }
  }

  /** Each expected cycle is a closed walk along the path. */
  lemma {:induction false} CyclesAreClosedWalks(p: RewardedPath, n: nat, k: nat) returns (start: nat, e: nat)
    requires PathSound(p) && n <= |p.edgeIds| && k < |ExpectedCycles(p, n)|
    ensures e < n && IsClosedWalk(p, start, e, ExpectedCycles(p, n)[k])
  {
    if k < |ExpectedCycles(p, n - 1)| {
      start, e := CyclesAreClosedWalks(p, n - 1, k);
    } else {
      e := n - 1;
      start := ClosingIsClosedWalk(p, e);
    }
  }

  // ---- one event -----------------------------------------------------------

  /** What the replay expects an event to say. */
  datatype Expectation = Expectation(
    edges: seq<string>, distance: real, before: real, after: real, capReason: string, supportDelta: int)

  function Expect(cap: real, threshold: real, decay: real -> real, total: real, strength: real, c: Cycle): Expectation {
    var remaining := Max(0.0, cap - total);
    var exhausted := remaining <= 0.0;
    var edges := if exhausted then [c.currentEdgeId] else c.edges;
    var distance := if exhausted then c.currentEdgeDistance else c.distance;
    var tooLong := threshold <= 0.0 || distance > threshold;
    var before := if exhausted || tooLong then 0.0
                  else REWARD_SCALE * Min(1.0, Max(0.0, strength)) * decay(distance / Max(threshold, 0.000001));
    var after := Min(remaining, before);
    var reason := if exhausted then "max_cycle_reward_per_path_exhausted"
                  else if tooLong then "cycle_distance_above_threshold"
                  else if StrictNumericMatch(after, before) then "within_cap"
                  else "max_cycle_reward_per_path";
    Expectation(edges, distance, before, after, reason, if exhausted || tooLong then 0 else 1)
  }

  predicate EventReadable(e: Event) {
    && e.Event?
    && e.protocolVersion == CYCLE_REWARD_REPLAY_PROTOCOL_VERSION
    && e.edgeStrength.Some? && 0.0 <= e.edgeStrength.value <= 1.0
    && e.cycleDistance.Some? && e.cycleDistance.value >= 0.0
    && e.rewardBeforeCap.Some? && e.rewardBeforeCap.value >= 0.0
    && e.rewardAfterCap.Some? && e.rewardAfterCap.value >= 0.0
  }

  predicate EventMatches(e: Event, x: Expectation, c: Cycle)
    requires EventReadable(e)
  {
    && e.cycleEdges == x.edges
    && StrictNumericMatch(e.cycleDistance.value, x.distance)
    && -TOLERANCE <= e.edgeStrength.value - c.currentEdgeStrength <= TOLERANCE
    && StrictNumericMatch(e.rewardBeforeCap.value, Round6(x.before))
    && StrictNumericMatch(e.rewardAfterCap.value, Round6(x.after))
    && e.capReason == x.capReason
    && e.supportDelta == x.supportDelta
  }

  /** The running result over the first n events. */
  datatype Running = Running(valid: bool, total: real)

  function StepReward(cap: real, threshold: real, decay: real -> real, r: Running, e: Event, c: Cycle): Running {
    if !EventReadable(e) then r.(valid := false) else
      var x := Expect(cap, threshold, decay, r.total, e.edgeStrength.value, c);
      Running(r.valid && EventMatches(e, x, c), Round6(r.total + Max(0.0, e.rewardAfterCap.value)))
  }

  function RunRewards(cap: real, threshold: real, decay: real -> real, events: seq<Event>, cycles: seq<Cycle>, n: nat): Running
    requires n <= |events| && n <= |cycles|
  {
    if n == 0 then Running(true, 0.0) else
      StepReward(cap, threshold, decay, RunRewards(cap, threshold, decay, events, cycles, n - 1), events[n - 1], cycles[n - 1])
  }

  // ---- the cap -------------------------------------------------------------

  /** The reward an event adds: exactly the rounded expectation. */
  lemma MatchedEventAddsRounded(cap: real, threshold: real, decay: real -> real, r: Running, e: Event, c: Cycle)
    requires OnGrid(r.total) && r.valid
    requires StepReward(cap, threshold, decay, r, e, c).valid
    ensures e.edgeStrength.Some?
    ensures var x := Expect(cap, threshold, decay, r.total, e.edgeStrength.value, c);
            var s := StepReward(cap, threshold, decay, r, e, c);
            s.total == r.total + Round6(x.after) && OnGrid(s.total)
  {
    var x := Expect(cap, threshold, decay, r.total, e.edgeStrength.value, c);
    var g := Round6(x.after);
    Round6OnGrid(x.after);
    OnGridSum(r.total, g);
    Round6Near(r.total + e.rewardAfterCap.value, r.total + g);
  }

  lemma ExpectedAfterBounds(cap: real, threshold: real, decay: real -> real, total: real, strength: real, c: Cycle)
    requires total <= cap && c.distance >= 0.0
    requires forall x: real | x >= 0.0 :: decay(x) >= 0.0
    ensures 0.0 <= Expect(cap, threshold, decay, total, strength, c).after <= cap - total
  {
    if cap - total > 0.0 && threshold > 0.0 && c.distance <= threshold {
      QuotientNonNegative(c.distance, Max(threshold, 0.000001));
      ProductNonNegative(REWARD_SCALE * Min(1.0, Max(0.0, strength)), decay(c.distance / Max(threshold, 0.000001)));
    }
  }

  lemma RoundedWithinCap(cap: real, total: real, after: real)
    requires OnGrid(cap) && OnGrid(total) && 0.0 <= after <= cap - total
    ensures 0.0 <= Round6(after) <= cap - total
  {
    OnGridSum(cap, total);
    Round6Fixes(cap - total);
    Round6Monotone(after, cap - total);
    UnitsOnGrid(0.0, 0);
    Round6Fixes(0.0);
    Round6Monotone(0.0, after);
  }

  lemma GridCapStep(cap: real, threshold: real, decay: real -> real, r: Running, e: Event, c: Cycle)
    requires OnGrid(cap) && OnGrid(r.total) && r.total <= cap && r.valid
    requires forall x: real | x >= 0.0 :: decay(x) >= 0.0
    requires c.distance >= 0.0
    requires StepReward(cap, threshold, decay, r, e, c).valid
    ensures var s := StepReward(cap, threshold, decay, r, e, c);
            && OnGrid(s.total) && r.total <= s.total <= cap
            && (r.total == cap ==> s.total == cap)
  {
    MatchedEventAddsRounded(cap, threshold, decay, r, e, c);
    var after := Expect(cap, threshold, decay, r.total, e.edgeStrength.value, c).after;
    ExpectedAfterBounds(cap, threshold, decay, r.total, e.edgeStrength.value, c);
    RoundedWithinCap(cap, r.total, after);
  }

  lemma QuotientNonNegative(x: real, y: real)
    requires x >= 0.0 && y > 0.0
    ensures x / y >= 0.0
  {
  }

  predicate Within(cap: real, r: Running) {
    OnGrid(r.total) && 0.0 <= r.total <= cap
  }

  /** The second total carries on from the first, which it preserves if it is the cap. */
  predicate CarriesOn(cap: real, r: Running, s: Running) {
    r.valid && r.total <= s.total && (r.total == cap ==> s.total == cap)
  }

  predicate KeepsCap(cap: real, r: Running, s: Running) {
    s.valid ==> r.valid && (Within(cap, r) ==> Within(cap, s) && CarriesOn(cap, r, s))
  }

  lemma StepKeepsCap(cap: real, threshold: real, decay: real -> real, r: Running, e: Event, c: Cycle)
    requires OnGrid(cap) && cap >= 0.0 && c.distance >= 0.0
    requires forall x: real | x >= 0.0 :: decay(x) >= 0.0
    ensures KeepsCap(cap, r, StepReward(cap, threshold, decay, r, e, c))
  {
    if StepReward(cap, threshold, decay, r, e, c).valid && Within(cap, r) {
      GridCapStep(cap, threshold, decay, r, e, c);
    }
  }

  lemma {:induction false} ChainKeepsCap(cap: real, rs: seq<Running>, m: nat, n: nat)
    requires m <= n < |rs| && rs[n].valid && Within(cap, rs[0])
    requires forall k {:trigger rs[k]} | 0 <= k < |rs| - 1 :: KeepsCap(cap, rs[k], rs[k + 1])
    ensures Within(cap, rs[n]) && CarriesOn(cap, rs[m], rs[n])
  {
    if 0 < n {
      var k := n - 1;
      assert KeepsCap(cap, rs[k], rs[k + 1]);
      ChainKeepsCap(cap, rs, if m < n then m else k, k);
    }
  }

  lemma RunKeepsCap(cap: real, threshold: real, decay: real -> real, events: seq<Event>, cycles: seq<Cycle>, k: nat)
    requires OnGrid(cap) && cap >= 0.0 && k < |events| && k < |cycles|
    requires forall x: real | x >= 0.0 :: decay(x) >= 0.0
    requires forall c | c in cycles :: c.distance >= 0.0
    ensures KeepsCap(cap, RunRewards(cap, threshold, decay, events, cycles, k),
                     RunRewards(cap, threshold, decay, events, cycles, k + 1))
  {
    StepKeepsCap(cap, threshold, decay, RunRewards(cap, threshold, decay, events, cycles, k), events[k], cycles[k]);
  }

  lemma KeptSnoc(cap: real, rs: seq<Running>, last: Running)
    requires rs != [] && KeepsCap(cap, rs[|rs| - 1], last)
    requires forall k {:trigger rs[k]} | 0 <= k < |rs| - 1 :: KeepsCap(cap, rs[k], rs[k + 1])
    ensures var more := rs + [last];
            forall k {:trigger more[k]} | 0 <= k < |more| - 1 :: KeepsCap(cap, more[k], more[k + 1])
  {
    var more := rs + [last];
    forall k {:trigger more[k]} | 0 <= k < |more| - 1 ensures KeepsCap(cap, more[k], more[k + 1]) {
      if k < |rs| - 1 {
        assert KeepsCap(cap, rs[k], rs[k + 1]);
      }
    }
  }

  lemma {:induction false} RunAsChain(cap: real, threshold: real, decay: real -> real, events: seq<Event>, cycles: seq<Cycle>, n: nat)
    returns (rs: seq<Running>)
    requires OnGrid(cap) && cap >= 0.0 && n <= |events| && n <= |cycles|
    requires forall x: real | x >= 0.0 :: decay(x) >= 0.0
    requires forall c | c in cycles :: c.distance >= 0.0
    ensures |rs| == n + 1 && Within(cap, rs[0])
    ensures forall k | 0 <= k <= n :: rs[k] == RunRewards(cap, threshold, decay, events, cycles, k)
    ensures forall k {:trigger rs[k]} | 0 <= k < n :: KeepsCap(cap, rs[k], rs[k + 1])
  {
    if n == 0 {
      rs := [Running(true, 0.0)];
      UnitsOnGrid(0.0, 0);
    } else {
      var before := RunAsChain(cap, threshold, decay, events, cycles, n - 1);
      var last := RunRewards(cap, threshold, decay, events, cycles, n);
      RunKeepsCap(cap, threshold, decay, events, cycles, n - 1);
      KeptSnoc(cap, before, last);
      rs := before + [last];
    }
  }

  /** On a cap of whole micro-units, a valid run of events never earns more than
      the cap, whatever the rounding, and nothing more once the cap is used up. */
  lemma GridCapIsNeverExceeded(cap: real, threshold: real, decay: real -> real,
                               events: seq<Event>, cycles: seq<Cycle>, n: nat)
    requires OnGrid(cap) && cap >= 0.0 && n <= |events| && n <= |cycles|
    requires forall x: real | x >= 0.0 :: decay(x) >= 0.0
    requires forall c | c in cycles :: c.distance >= 0.0
    requires RunRewards(cap, threshold, decay, events, cycles, n).valid
    ensures var r := RunRewards(cap, threshold, decay, events, cycles, n);
            && OnGrid(r.total) && 0.0 <= r.total <= cap
            && forall m | 0 <= m <= n :: CarriesOn(cap, RunRewards(cap, threshold, decay, events, cycles, m), r)
  {
    var rs := RunAsChain(cap, threshold, decay, events, cycles, n);
    ChainKeepsCap(cap, rs, n, n);
    forall m | 0 <= m <= n
      ensures CarriesOn(cap, RunRewards(cap, threshold, decay, events, cycles, m), rs[n])
    {
      ChainKeepsCap(cap, rs, m, n);
    }
  }

  // ---- the replay ----------------------------------------------------------

  lemma {:induction false} SumNonNegative(xs: seq<real>)
    requires forall i | 0 <= i < |xs| :: xs[i] >= 0.0
    ensures Sum(xs) >= 0.0
  {
    if xs != [] {
      SumNonNegative(xs[..|xs| - 1]);
    }
  }

  lemma {:induction false} CycleDistancesNonNegative(p: RewardedPath, n: nat)
    requires PathSound(p) && n <= |p.edgeIds|
    ensures forall c | c in ExpectedCycles(p, n) :: c.distance >= 0.0
  {
    if n > 0 {
      CycleDistancesNonNegative(p, n - 1);
      if Closes(p, n - 1) {
        var start := LastIndex(p.path[..n], p.path[n]);
        var slice := p.distances[start..n];
        assert forall i | 0 <= i < |slice| :: slice[i] == p.distances[start + i] && slice[i] in p.distances;
        SumNonNegative(slice);
        Round6Monotone(0.0, Sum(slice));
        UnitsOnGrid(0.0, 0);
        Round6Fixes(0.0);
      }
    }
  }

  /** Events and cycles are compared in pairs. */
  function PairCount(p: RewardedPath): nat
    requires PathSound(p)
  {
    var cycles := ExpectedCycles(p, |p.edgeIds|);
    if |p.events| < |cycles| then |p.events| else |cycles|
  }

  function RewardsOf(p: RewardedPath, cap: real, threshold: real, decay: real -> real): Running
    requires PathSound(p)
  {
    RunRewards(cap, threshold, decay, p.events, ExpectedCycles(p, |p.edgeIds|), PairCount(p))
  }

  predicate DeclaredMatches(p: RewardedPath, total: real) {
    p.declaredReward.Some? && -TOLERANCE <= p.declaredReward.value - total <= TOLERANCE
  }

  predicate EnvelopeSound(envelope: Envelope) {
    && envelope.cap.Some? && envelope.cap.value >= 0.0
    && envelope.threshold.Some? && envelope.threshold.value >= 0.0
  }

  /** There is one event for every repeated node, every event says what it must, and
      the declared reward and the cap agree with the total. */
  predicate PathAccepted(p: RewardedPath, cap: real, threshold: real, decay: real -> real) {
    && PathSound(p)
    && |p.events| == |p.path| - |NodesOf(p.path)|
    && var r := RewardsOf(p, cap, threshold, decay);
    && r.valid && DeclaredMatches(p, r.total) && r.total <= cap + DISTANCE_REPLAY_ABS_TOLERANCE
  }

  /** On a cap of whole micro-units the replay's last test is idle: matched events
      cannot have earned more than the cap. */
  lemma CapTestIsIdle(p: RewardedPath, cap: real, threshold: real, decay: real -> real)
    requires PathSound(p) && OnGrid(cap) && cap >= 0.0
    requires forall x: real | x >= 0.0 :: decay(x) >= 0.0
    requires RewardsOf(p, cap, threshold, decay).valid
    ensures 0.0 <= RewardsOf(p, cap, threshold, decay).total <= cap
  {
    CycleDistancesNonNegative(p, |p.edgeIds|);
    GridCapIsNeverExceeded(cap, threshold, decay, p.events, ExpectedCycles(p, |p.edgeIds|), PairCount(p));
  }

  // ---- when the cap is overdrawn -------------------------------------------

  /** What is used of x -> exp(-x). */
  ghost predicate IsDecay(decay: real -> real) {
    && decay(0.0) == 1.0
    && forall x: real | x >= 0.0 :: 0.0 <= decay(x) <= 1.0
  }

  predicate CycleSound(c: Cycle) {
    c.distance >= 0.0 && c.currentEdgeDistance >= 0.0 && 0.0 <= c.currentEdgeStrength <= 1.0
  }

  lemma AtMostOne(x: real, y: real)
    requires 0.0 <= x && 0.0 <= y <= 1.0
    ensures 0.0 <= x * y <= x
  {
    ProductNonNegative(x, y);
    ProductNonNegative(x, 1.0 - y);
    ProductOfRest(x, y);
  }

  lemma ProductOfRest(x: real, y: real)
    ensures x * (1.0 - y) == x - x * y
  {
  }

  /** No event earns more than the reward scale. */
  lemma ExpectedAfterAtMost(cap: real, threshold: real, decay: real -> real, total: real, strength: real, c: Cycle)
    requires IsDecay(decay) && total <= cap && c.distance >= 0.0
    ensures Expect(cap, threshold, decay, total, strength, c).after <= REWARD_SCALE
  {
    if cap - total > 0.0 && threshold > 0.0 && c.distance <= threshold {
      var factor := Min(1.0, Max(0.0, strength));
      QuotientNonNegative(c.distance, Max(threshold, 0.000001));
      AtMostOne(REWARD_SCALE, factor);
      AtMostOne(REWARD_SCALE * factor, decay(c.distance / Max(threshold, 0.000001)));
    }
  }

  lemma ScaleIsFixed()
    ensures OnGrid(0.0) && OnGrid(REWARD_SCALE) && Round6(0.0) == 0.0 && Round6(REWARD_SCALE) == REWARD_SCALE
  {
    UnitsOnGrid(0.0, 0);
    UnitsOnGrid(REWARD_SCALE, 40000);
    Round6Fixes(0.0);
    Round6Fixes(REWARD_SCALE);
  }

  /** A self-loop at no distance and full strength, which earns as much as any. */
  const LOOP := Cycle(["e"], 0.0, "e", 0.0, 1.0)

  function LoopReward(cap: real, total: real): real {
    Round6(Min(cap - total, REWARD_SCALE))
  }

  function LoopEvent(cap: real, total: real): Event {
    var reason := if StrictNumericMatch(Min(cap - total, REWARD_SCALE), REWARD_SCALE) then "within_cap"
                  else "max_cycle_reward_per_path";
    Event(CYCLE_REWARD_REPLAY_PROTOCOL_VERSION, ["e"], Some(1.0), Some(0.0), Some(REWARD_SCALE),
          Some(LoopReward(cap, total)), reason, 1)
  }

  lemma LoopExpectation(cap: real, threshold: real, decay: real -> real, total: real)
    requires IsDecay(decay) && threshold > 0.0 && total < cap
    ensures var x := Expect(cap, threshold, decay, total, 1.0, LOOP);
            && x.edges == ["e"] && x.distance == 0.0 && x.supportDelta == 1
            && x.before == REWARD_SCALE && x.after == Min(cap - total, REWARD_SCALE)
            && x.capReason == LoopEvent(cap, total).capReason
  {
    assert 0.0 / Max(threshold, 0.000001) == 0.0;
  }

  lemma LoopEventMatches(cap: real, threshold: real, decay: real -> real, total: real)
    requires IsDecay(decay) && threshold > 0.0 && OnGrid(total) && total < cap
    ensures StepReward(cap, threshold, decay, Running(true, total), LoopEvent(cap, total), LOOP)
            == Running(true, total + LoopReward(cap, total))
    ensures OnGrid(total + LoopReward(cap, total)) && LoopReward(cap, total) >= 0.0
  {
    var e, x := LoopEvent(cap, total), Expect(cap, threshold, decay, total, 1.0, LOOP);
    LoopExpectation(cap, threshold, decay, total);
    ScaleIsFixed();
    Round6Monotone(0.0, Min(cap - total, REWARD_SCALE));
    Round6OnGrid(Min(cap - total, REWARD_SCALE));
    OnGridSum(total, LoopReward(cap, total));
    Round6Fixes(total + LoopReward(cap, total));
    assert EventReadable(e) && EventMatches(e, x, LOOP);
  }

  ghost predicate NoEventOverdraws(cap: real, threshold: real, decay: real -> real, total: real) {
    forall e: Event, c: Cycle {:trigger StepReward(cap, threshold, decay, Running(true, total), e, c)} |
      CycleSound(c) && StepReward(cap, threshold, decay, Running(true, total), e, c).valid ::
      StepReward(cap, threshold, decay, Running(true, total), e, c).total <= cap
  }

  lemma EventStaysWithin(cap: real, threshold: real, decay: real -> real, total: real, e: Event, c: Cycle)
    requires IsDecay(decay) && OnGrid(total) && 0.0 <= total <= cap && CycleSound(c)
    requires cap - total >= REWARD_SCALE || Round6(cap - total) <= cap - total
    requires StepReward(cap, threshold, decay, Running(true, total), e, c).valid
    ensures StepReward(cap, threshold, decay, Running(true, total), e, c).total <= cap
  {
    MatchedEventAddsRounded(cap, threshold, decay, Running(true, total), e, c);
    var after := Expect(cap, threshold, decay, total, e.edgeStrength.value, c).after;
    ExpectedAfterBounds(cap, threshold, decay, total, e.edgeStrength.value, c);
    ExpectedAfterAtMost(cap, threshold, decay, total, e.edgeStrength.value, c);
    ScaleIsFixed();
    Round6Monotone(after, REWARD_SCALE);
    Round6Monotone(after, cap - total);
  }

  /** The exact condition under which no matched event can take the total over the
      cap: as much is left as any event may earn, or rounding what is left does not
      raise it. */
  lemma NoOverdraftExactly(cap: real, threshold: real, decay: real -> real, total: real)
    requires IsDecay(decay) && threshold > 0.0 && OnGrid(total) && 0.0 <= total <= cap
    ensures NoEventOverdraws(cap, threshold, decay, total)
            <==> cap - total >= REWARD_SCALE || Round6(cap - total) <= cap - total
  {
    if cap - total >= REWARD_SCALE || Round6(cap - total) <= cap - total {
      forall e: Event, c: Cycle {:trigger StepReward(cap, threshold, decay, Running(true, total), e, c)} |
        CycleSound(c) && StepReward(cap, threshold, decay, Running(true, total), e, c).valid
        ensures StepReward(cap, threshold, decay, Running(true, total), e, c).total <= cap
      {
        EventStaysWithin(cap, threshold, decay, total, e, c);
      }
    } else {
      ScaleIsFixed();
      LoopEventMatches(cap, threshold, decay, total);
      assert StepReward(cap, threshold, decay, Running(true, total), LoopEvent(cap, total), LOOP).total > cap;
    }
  }

  // ---- accepted paths above their cap --------------------------------------

  lemma GridStep(cap: real, threshold: real, decay: real -> real, r: Running, e: Event, c: Cycle)
    requires OnGrid(r.total) && r.valid && StepReward(cap, threshold, decay, r, e, c).valid
    ensures OnGrid(StepReward(cap, threshold, decay, r, e, c).total)
    ensures cap >= 0.0 && threshold <= 0.0 ==> StepReward(cap, threshold, decay, r, e, c).total == r.total
  {
    MatchedEventAddsRounded(cap, threshold, decay, r, e, c);
    ScaleIsFixed();
  }

  lemma {:induction false} ValidTotalOnGrid(cap: real, threshold: real, decay: real -> real,
                                             events: seq<Event>, cycles: seq<Cycle>, n: nat)
    requires n <= |events| && n <= |cycles| && RunRewards(cap, threshold, decay, events, cycles, n).valid
    ensures OnGrid(RunRewards(cap, threshold, decay, events, cycles, n).total)
    ensures cap >= 0.0 && threshold <= 0.0 ==> RunRewards(cap, threshold, decay, events, cycles, n).total == 0.0
  {
    if n == 0 {
      ScaleIsFixed();
    } else {
      var r := RunRewards(cap, threshold, decay, events, cycles, n - 1);
      assert r.valid;
      ValidTotalOnGrid(cap, threshold, decay, events, cycles, n - 1);
      GridStep(cap, threshold, decay, r, events[n - 1], cycles[n - 1]);
    }
  }

  /** The total after n self-loops, each replayed as the code expects it. */
  function LoopTotal(cap: real, n: nat): real {
    if n == 0 then 0.0 else LoopTotal(cap, n - 1) + LoopReward(cap, LoopTotal(cap, n - 1))
  }

  function LoopPath(cap: real, n: nat): RewardedPath {
    RewardedPath(seq(n + 1, _ => "a"), seq(n, _ => "e"), seq(n, _ => 0.0), seq(n, _ => 1.0),
                 seq(n, i requires 0 <= i < n => LoopEvent(cap, LoopTotal(cap, i))), Some(LoopTotal(cap, n)))
  }

  lemma LoopCloses(p: RewardedPath, cap: real, n: nat, e: nat)
    requires p == LoopPath(cap, n) && PathSound(p) && e < n
    ensures ClosesALoop(p, e)
  {
    var visited := p.path[..e + 1];
    assert visited[e] == "a" && p.path[e + 1] == "a";
    assert LastIndex(visited, "a") == e;
    assert p.edgeIds[e..e + 1] == ["e"];
    assert p.distances[e..e + 1] == [0.0];
    assert [0.0][..0] == [] && Sum([0.0]) == 0.0;
    ScaleIsFixed();
  }

  predicate ClosesALoop(p: RewardedPath, e: nat)
    requires PathSound(p) && e < |p.edgeIds|
  {
    Closes(p, e) && CycleOf(p, e) == LOOP
  }

  lemma {:induction false} LoopCycles(p: RewardedPath, k: nat)
    requires PathSound(p) && k <= |p.edgeIds| && forall e | 0 <= e < k :: ClosesALoop(p, e)
    ensures |ExpectedCycles(p, k)| == k && forall i | 0 <= i < k :: ExpectedCycles(p, k)[i] == LOOP
  {
    if k > 0 {
      LoopCycles(p, k - 1);
      assert ClosesALoop(p, k - 1);
    }
  }

  /** The event takes a valid total of t to a valid total of u. */
  ghost predicate Takes(cap: real, threshold: real, decay: real -> real, t: real, e: Event, c: Cycle, u: real) {
    StepReward(cap, threshold, decay, Running(true, t), e, c) == Running(true, u)
  }

  lemma RunStep(cap: real, threshold: real, decay: real -> real, events: seq<Event>, cycles: seq<Cycle>, n: nat,
                t: real, u: real)
    requires n < |events| && n < |cycles|
    requires RunRewards(cap, threshold, decay, events, cycles, n) == Running(true, t)
    requires Takes(cap, threshold, decay, t, events[n], cycles[n], u)
    ensures RunRewards(cap, threshold, decay, events, cycles, n + 1) == Running(true, u)
  {
  }

  lemma {:induction false} LoopTotalOnGrid(cap: real, n: nat)
    ensures OnGrid(LoopTotal(cap, n))
  {
    if n == 0 {
      ScaleIsFixed();
    } else {
      LoopTotalOnGrid(cap, n - 1);
      Round6OnGrid(Min(cap - LoopTotal(cap, n - 1), REWARD_SCALE));
      OnGridSum(LoopTotal(cap, n - 1), LoopReward(cap, LoopTotal(cap, n - 1)));
    }
  }

  lemma LoopTakes(cap: real, threshold: real, decay: real -> real, i: nat)
    requires IsDecay(decay) && threshold > 0.0 && LoopTotal(cap, i) < cap
    ensures Takes(cap, threshold, decay, LoopTotal(cap, i), LoopEvent(cap, LoopTotal(cap, i)), LOOP, LoopTotal(cap, i + 1))
  {
    LoopTotalOnGrid(cap, i);
    LoopEventMatches(cap, threshold, decay, LoopTotal(cap, i));
  }

  predicate AreLoops(cap: real, events: seq<Event>, cycles: seq<Cycle>, n: nat) {
    && n <= |events| && n <= |cycles|
    && forall i {:trigger events[i]} | 0 <= i < n ::
         LoopTotal(cap, i) < cap && events[i] == LoopEvent(cap, LoopTotal(cap, i)) && cycles[i] == LOOP
  }

  lemma {:induction false} LoopRuns(cap: real, threshold: real, decay: real -> real,
                                    events: seq<Event>, cycles: seq<Cycle>, n: nat)
    requires IsDecay(decay) && threshold > 0.0 && AreLoops(cap, events, cycles, n)
    ensures RunRewards(cap, threshold, decay, events, cycles, n) == Running(true, LoopTotal(cap, n))
  {
    if n > 0 {
      var m := n - 1;
      LoopRuns(cap, threshold, decay, events, cycles, m);
      assert events[m] == LoopEvent(cap, LoopTotal(cap, m)) && cycles[m] == LOOP;
      LoopTakes(cap, threshold, decay, m);
      RunStep(cap, threshold, decay, events, cycles, m, LoopTotal(cap, m), LoopTotal(cap, n));
    }
  }

  lemma LoopsAreExpected(p: RewardedPath, cap: real, n: nat)
    requires p == LoopPath(cap, n) && forall i | 0 <= i < n :: LoopTotal(cap, i) < cap
    ensures PathSound(p) && AreLoops(cap, p.events, ExpectedCycles(p, n), n)
    ensures |p.events| == |p.path| - |NodesOf(p.path)| && PairCount(p) == n
  {
    forall e | 0 <= e < n ensures ClosesALoop(p, e) {
      LoopCloses(p, cap, n, e);
    }
    LoopCycles(p, n);
    CycleCount(p);
  }

  /** Self-loops are accepted as long as the cap was not reached before the last. */
  lemma LoopPathAccepted(cap: real, threshold: real, decay: real -> real, n: nat)
    requires IsDecay(decay) && threshold > 0.0
    requires forall i | 0 <= i < n :: LoopTotal(cap, i) < cap
    requires LoopTotal(cap, n) <= cap + DISTANCE_REPLAY_ABS_TOLERANCE
    ensures PathAccepted(LoopPath(cap, n), cap, threshold, decay)
    ensures RewardsOf(LoopPath(cap, n), cap, threshold, decay).total == LoopTotal(cap, n)
  {
    var p := LoopPath(cap, n);
    LoopsAreExpected(p, cap, n);
    LoopRuns(cap, threshold, decay, p.events, ExpectedCycles(p, n), n);
  }

  lemma LastLoop(cap: real, m: nat)
    requires cap < Round6(cap) <= cap + DISTANCE_REPLAY_ABS_TOLERANCE
    requires LoopTotal(cap, m) < cap && cap - LoopTotal(cap, m) < REWARD_SCALE
    ensures LoopTotal(cap, m + 1) == Round6(cap)
  {
    var total := LoopTotal(cap, m);
    LoopTotalOnGrid(cap, m);
    Round6OnGrid(cap);
    OnGridSum(Round6(cap), total);
    Round6Near(cap - total, Round6(cap) - total);
  }

  lemma FullLoop(cap: real, m: nat)
    requires cap < Round6(cap) && cap - LoopTotal(cap, m) >= REWARD_SCALE
    ensures LoopTotal(cap, m + 1) == LoopTotal(cap, m) + REWARD_SCALE < cap
  {
    ScaleIsFixed();
    LoopTotalOnGrid(cap, m + 1);
    if LoopTotal(cap, m + 1) == cap {
      Round6Fixes(cap);
      assert false;
    }
  }

  /** A grid point closely above the cap is reached. */
  lemma {:induction false} LoopsReach(cap: real, m: nat) returns (n: nat)
    requires cap < Round6(cap) <= cap + DISTANCE_REPLAY_ABS_TOLERANCE
    requires forall i | 0 <= i <= m :: LoopTotal(cap, i) < cap
    ensures LoopTotal(cap, n) == Round6(cap) && forall i | 0 <= i < n :: LoopTotal(cap, i) < cap
    decreases ((cap - LoopTotal(cap, m)) * 25.0).Floor
  {
    if cap - LoopTotal(cap, m) < REWARD_SCALE {
      LastLoop(cap, m);
      n := m + 1;
    } else {
      FullLoop(cap, m);
      n := LoopsReach(cap, m + 1);
    }
  }

  ghost predicate SomePathOverdraws(cap: real, threshold: real, decay: real -> real) {
    exists p :: PathAccepted(p, cap, threshold, decay) && RewardsOf(p, cap, threshold, decay).total > cap
  }

  /** Some accepted path earns more than the cap if and only if cycles can earn at all
      and a multiple of 1e-6 lies above the cap but within the last test's tolerance. */
  lemma AcceptedOverdraftExactly(cap: real, threshold: real, decay: real -> real)
    requires cap >= 0.0 && threshold >= 0.0 && IsDecay(decay)
    ensures SomePathOverdraws(cap, threshold, decay)
            <==> threshold > 0.0 && cap < Round6(cap) <= cap + DISTANCE_REPLAY_ABS_TOLERANCE
  {
    if SomePathOverdraws(cap, threshold, decay) {
      var p :| PathAccepted(p, cap, threshold, decay) && RewardsOf(p, cap, threshold, decay).total > cap;
      ValidTotalOnGrid(cap, threshold, decay, p.events, ExpectedCycles(p, |p.edgeIds|), PairCount(p));
      Round6Near(cap, RewardsOf(p, cap, threshold, decay).total);
    }
    if threshold > 0.0 && cap < Round6(cap) <= cap + DISTANCE_REPLAY_ABS_TOLERANCE {
      ScaleIsFixed();
      if cap == 0.0 {
        assert false;
      }
      var n := LoopsReach(cap, 0);
      LoopPathAccepted(cap, threshold, decay, n);
    }
  }

  /** Such a path: one self-loop under a cap of 0.0000009995 earns 0.000001. */
  lemma OffGridCapOverdraws(decay: real -> real) returns (p: RewardedPath)
    requires IsDecay(decay)
    ensures p == LoopPath(0.0000009995, 1)
    ensures PathAccepted(p, 0.0000009995, 1.0, decay)
    ensures RewardsOf(p, 0.0000009995, 1.0, decay).total == 0.000001
  {
    var cap := 0.0000009995;
    p := LoopPath(cap, 1);
    UnitsOnGrid(0.000001, 1);
    Round6Near(cap, 0.000001);
    assert LoopTotal(cap, 0) == 0.0;
    assert LoopTotal(cap, 1) == 0.000001;
    LoopPathAccepted(cap, 1.0, decay, 1);
  }
}
