/** The reward events of an accepted path, in terms of the path: which event belongs to
    which closing edge, what each must say, and how the totals run. */
module RewardOutcomes {
  import opened Basics
  import opened CycleReward
  import opened Options
  import opened Rounding

  // ---- one event -----------------------------------------------------------

  /** What a cycle of this length earns: nothing once the cap is used up or when it is
      longer than the threshold, otherwise the scaled strength, decayed, or what is left. */
  function Earned(cap: real, threshold: real, decay: real -> real, total: real, strength: real, distance: real): real {
    if cap - total <= 0.0 || threshold <= 0.0 || distance > threshold then 0.0
    else Min(cap - total, Uncapped(threshold, decay, strength, distance))
  }

  function Uncapped(threshold: real, decay: real -> real, strength: real, distance: real): real
    requires threshold > 0.0
  {
    0.04 * strength * decay(distance / if threshold < 0.000001 then 0.000001 else threshold)
  }

  predicate Close(x: Option<real>, y: real) {
    x.Some? && y - 0.000000001 <= x.value <= y + 0.000000001
  }

  /** The event reports these edges and this distance, no reward, and the reason why. */
  predicate Refused(e: Event, edges: seq<string>, distance: real, reason: string)
    requires e.Event?
  {
    && e.cycleEdges == edges && Close(e.cycleDistance, distance)
    && Close(e.rewardBeforeCap, 0.0) && Close(e.rewardAfterCap, 0.0)
    && e.capReason == reason && e.supportDelta == 0
  }

  /** The event reports the cycle and its reward before and after the cap. */
  predicate Rewarded(e: Event, c: Cycle, left: real, full: real)
    requires e.Event?
  {
    && e.cycleEdges == c.edges && Close(e.cycleDistance, c.distance)
    && Close(e.rewardBeforeCap, Round6(full)) && Close(e.rewardAfterCap, Round6(Min(left, full)))
    && e.capReason == (if full <= left + 0.000000001 then "within_cap" else "max_cycle_reward_per_path")
    && e.supportDelta == 1
  }

  predicate NonNegative(x: Option<real>) {
    x.Some? && x.value >= 0.0
  }

  /** An event that is recorded at all, whether or not it is right. */
  predicate Recorded(e: Event) {
    && e.Event? && e.protocolVersion == "bounded_cycle_distance_reward_replay_v1"
    && NonNegative(e.cycleDistance) && NonNegative(e.rewardBeforeCap) && NonNegative(e.rewardAfterCap)
    && NonNegative(e.edgeStrength) && e.edgeStrength.value <= 1.0
  }

  /** The event says what a cycle closed at this total must. */
  predicate EventRight(cap: real, threshold: real, decay: real -> real, total: real, e: Event, c: Cycle) {
    && Recorded(e)
    && c.currentEdgeStrength - 0.000001 <= e.edgeStrength.value <= c.currentEdgeStrength + 0.000001
    && if cap - total <= 0.0 then
         Refused(e, [c.currentEdgeId], c.currentEdgeDistance, "max_cycle_reward_per_path_exhausted")
       else if threshold <= 0.0 || c.distance > threshold then
         Refused(e, c.edges, c.distance, "cycle_distance_above_threshold")
       else
         Rewarded(e, c, cap - total, Uncapped(threshold, decay, e.edgeStrength.value, c.distance))
  }

  lemma ExpectedFields(cap: real, threshold: real, decay: real -> real, total: real, strength: real, c: Cycle)
    requires 0.0 <= strength <= 1.0
    ensures var x := Expect(cap, threshold, decay, total, strength, c);
            if cap - total <= 0.0 then
              && x.edges == [c.currentEdgeId] && x.distance == c.currentEdgeDistance
              && x.before == 0.0 && x.after == 0.0 && x.supportDelta == 0
              && x.capReason == "max_cycle_reward_per_path_exhausted"
            else if threshold <= 0.0 || c.distance > threshold then
              && x.edges == c.edges && x.distance == c.distance
              && x.before == 0.0 && x.after == 0.0 && x.supportDelta == 0
              && x.capReason == "cycle_distance_above_threshold"
            else
              var full := Uncapped(threshold, decay, strength, c.distance);
              && x.edges == c.edges && x.distance == c.distance
              && x.before == full && x.after == Min(cap - total, full) && x.supportDelta == 1
              && x.capReason == if full <= cap - total + 0.000000001 then "within_cap" else "max_cycle_reward_per_path"
  {
  }

  /** The replay takes an event exactly when it says what it must. */
  lemma EventExactly(cap: real, threshold: real, decay: real -> real, total: real, e: Event, c: Cycle)
    ensures EventRight(cap, threshold, decay, total, e, c) <==>
            EventReadable(e) && EventMatches(e, Expect(cap, threshold, decay, total, e.edgeStrength.value, c), c)
  {
    UnitsOnGrid(0.0, 0);
    Round6Fixes(0.0);
    if EventReadable(e) {
      ExpectedFields(cap, threshold, decay, total, e.edgeStrength.value, c);
    }
  }

  /** One wrong event makes the path wrong for good; its reward still counts if it is
      recorded at all. */
  lemma StepExactly(cap: real, threshold: real, decay: real -> real, r: Running, e: Event, c: Cycle)
    ensures var s := StepReward(cap, threshold, decay, r, e, c);
            && (s.valid <==> r.valid && EventRight(cap, threshold, decay, r.total, e, c))
            && (Recorded(e) ==> s.total == Round6(r.total + e.rewardAfterCap.value))
            && (!Recorded(e) ==> s.total == r.total)
  {
    EventExactly(cap, threshold, decay, r.total, e, c);
  }

  /** A right event adds exactly the rounded reward it has earned. */
  lemma TotalAfter(cap: real, threshold: real, decay: real -> real, total: real, e: Event, c: Cycle)
    requires OnGrid(total) && EventRight(cap, threshold, decay, total, e, c)
    ensures var next := total + Round6(Earned(cap, threshold, decay, total, e.edgeStrength.value, c.distance));
            StepReward(cap, threshold, decay, Running(true, total), e, c) == Running(true, next) && OnGrid(next)
  {
    EventExactly(cap, threshold, decay, total, e, c);
    MatchedEventAddsRounded(cap, threshold, decay, Running(true, total), e, c);
    ExpectedFields(cap, threshold, decay, total, e.edgeStrength.value, c);
  }

  // ---- which cycle an event is about ---------------------------------------

  predicate SameLengths(p: RewardedPath) {
    |p.path| == |p.edgeIds| + 1 && |p.edgeIds| == |p.distances| == |p.strengths|
  }

  /** Edge e ends where the path was before. */
  predicate Returns(p: RewardedPath, e: nat)
    requires SameLengths(p) && e < |p.edgeIds|
  {
    exists j | 0 <= j <= e :: p.path[j] == p.path[e + 1]
  }

  /** The last visit before was at `start`. */
  predicate LastVisit(p: RewardedPath, start: nat, e: nat)
    requires SameLengths(p) && e < |p.edgeIds|
  {
    && start <= e && p.path[start] == p.path[e + 1]
    && forall j | start < j <= e :: p.path[j] != p.path[e + 1]
  }

  function ReturnsBefore(p: RewardedPath, e: nat): set<nat>
    requires SameLengths(p) && e <= |p.edgeIds|
  {
    set f: nat | f < e && Returns(p, f)
  }

  function Slice(p: RewardedPath, start: nat, e: nat): Cycle
    requires SameLengths(p) && start <= e < |p.edgeIds|
  {
    Cycle(p.edgeIds[start..e + 1], Round6(Sum(p.distances[start..e + 1])), p.edgeIds[e], p.distances[e], p.strengths[e])
  }

  lemma ReturnsExactly(p: RewardedPath, e: nat)
    requires PathSound(p) && e < |p.edgeIds|
    ensures Returns(p, e) <==> Closes(p, e)
  {
    if Returns(p, e) {
      var j :| 0 <= j <= e && p.path[j] == p.path[e + 1];
      assert p.path[..e + 1][j] == p.path[e + 1];
    }
    if Closes(p, e) {
      var j :| 0 <= j < |p.path[..e + 1]| && p.path[..e + 1][j] == p.path[e + 1];
    }
  }

  lemma SliceExactly(p: RewardedPath, start: nat, e: nat)
    requires PathSound(p) && e < |p.edgeIds| && LastVisit(p, start, e)
    ensures Closes(p, e) && CycleOf(p, e) == Slice(p, start, e)
  {
    assert p.path[..e + 1][start] == p.path[e + 1];
    var last := LastIndex(p.path[..e + 1], p.path[e + 1]);
    assert forall j | 0 <= j <= e :: p.path[..e + 1][j] == p.path[j];
  }

  lemma ReturnsNext(p: RewardedPath, e: nat)
    requires SameLengths(p) && e < |p.edgeIds|
    ensures |ReturnsBefore(p, e + 1)| == |ReturnsBefore(p, e)| + if Returns(p, e) then 1 else 0
    ensures ReturnsBefore(p, 0) == {}
  {
    assert ReturnsBefore(p, e + 1) == ReturnsBefore(p, e) + if Returns(p, e) then {e} else {};
  }

  lemma {:induction false} CyclesAreCounted(p: RewardedPath, n: nat)
    requires PathSound(p) && n <= |p.edgeIds|
    ensures |ExpectedCycles(p, n)| == |ReturnsBefore(p, n)|
  {
    if n == 0 {
      assert ReturnsBefore(p, 0) == {};
    } else {
      var e := n - 1;
      CyclesAreCounted(p, e);
      ReturnsExactly(p, e);
      ReturnsNext(p, e);
    }
  }

  /** The cycle of edge e has as many before it as earlier edges return. */
  lemma {:induction false} CycleAt(p: RewardedPath, n: nat, e: nat)
    requires PathSound(p) && e < n <= |p.edgeIds| && Closes(p, e)
    ensures |ReturnsBefore(p, e)| < |ExpectedCycles(p, n)|
    ensures ExpectedCycles(p, n)[|ReturnsBefore(p, e)|] == CycleOf(p, e)
  {
    CyclesAreCounted(p, e);
    if e < n - 1 {
      CycleAt(p, n - 1, e);
    }
  }

  lemma {:induction false} EdgeOfCycle(p: RewardedPath, n: nat, k: nat) returns (start: nat, e: nat)
    requires PathSound(p) && n <= |p.edgeIds| && k < |ExpectedCycles(p, n)|
    ensures e < n && LastVisit(p, start, e) && |ReturnsBefore(p, e)| == k
    ensures ExpectedCycles(p, n)[k] == Slice(p, start, e)
  {
    if k < |ExpectedCycles(p, n - 1)| {
      start, e := EdgeOfCycle(p, n - 1, k);
    } else {
      e := n - 1;
      CyclesAreCounted(p, e);
      start := ClosingIsClosedWalk(p, e);
    }
  }

  // ---- the whole path ------------------------------------------------------

  /** The event for the return of edge e, and the totals before and after it. */
  predicate ReturnRight(p: RewardedPath, cap: real, threshold: real, decay: real -> real, totals: seq<real>,
                        start: nat, e: nat)
    requires SameLengths(p) && start <= e < |p.edgeIds|
  {
    var k, c := |ReturnsBefore(p, e)|, Slice(p, start, e);
    && k < |p.events| && k + 1 < |totals|
    && EventRight(cap, threshold, decay, totals[k], p.events[k], c)
    && totals[k + 1]
       == totals[k] + Round6(Earned(cap, threshold, decay, totals[k], p.events[k].edgeStrength.value, c.distance))
  }

  /** A path of sound numbers with one event per repeated node, every event right at the
      total reached so far, whose declared reward and cap agree with the last total. */
  ghost predicate PathRight(p: RewardedPath, cap: real, threshold: real, decay: real -> real, totals: seq<real>) {
    && SameLengths(p)
    && (forall d | d in p.distances :: d >= 0.0) && (forall s | s in p.strengths :: 0.0 <= s <= 1.0)
    && |p.events| == |p.path| - |set x | x in p.path|
    && |totals| == |p.events| + 1 && totals[0] == 0.0
    && (forall start: nat, e: nat {:trigger LastVisit(p, start, e)} | e < |p.edgeIds| && LastVisit(p, start, e) ::
          ReturnRight(p, cap, threshold, decay, totals, start, e))
    && var last := totals[|p.events|];
    && p.declaredReward.Some? && last - 0.000001 <= p.declaredReward.value <= last + 0.000001
    && last <= cap + 0.000000001
  }

  lemma EventsPair(p: RewardedPath)
    requires PathSound(p) && |p.events| == |p.path| - |set x | x in p.path|
    ensures PairCount(p) == |p.events| == |ExpectedCycles(p, |p.edgeIds|)|
  {
    CycleCount(p);
    assert NodesOf(p.path) == set x | x in p.path;
  }

  lemma RightStep(p: RewardedPath, cap: real, threshold: real, decay: real -> real, totals: seq<real>, n: nat)
    requires PathSound(p) && PathRight(p, cap, threshold, decay, totals) && n < |p.events|
    requires |ExpectedCycles(p, |p.edgeIds|)| == |p.events|
    ensures var c := ExpectedCycles(p, |p.edgeIds|)[n];
            && EventRight(cap, threshold, decay, totals[n], p.events[n], c)
            && totals[n + 1]
               == totals[n] + Round6(Earned(cap, threshold, decay, totals[n], p.events[n].edgeStrength.value, c.distance))
  {
    var start, e := EdgeOfCycle(p, |p.edgeIds|, n);
    assert ReturnRight(p, cap, threshold, decay, totals, start, e);
  }

  lemma RightTakes(cap: real, threshold: real, decay: real -> real, total: real, e: Event, c: Cycle, next: real)
    requires OnGrid(total) && EventRight(cap, threshold, decay, total, e, c)
    requires next == total + Round6(Earned(cap, threshold, decay, total, e.edgeStrength.value, c.distance))
    ensures OnGrid(next) && Takes(cap, threshold, decay, total, e, c, next)
  {
    TotalAfter(cap, threshold, decay, total, e, c);
  }

  /** Right events run valid along the totals. */
  lemma {:induction false} RightEventsRun(p: RewardedPath, cap: real, threshold: real, decay: real -> real,
                                          totals: seq<real>, n: nat)
    requires PathSound(p) && PathRight(p, cap, threshold, decay, totals) && n <= |p.events|
    requires |ExpectedCycles(p, |p.edgeIds|)| == |p.events|
    ensures OnGrid(totals[n])
    ensures RunRewards(cap, threshold, decay, p.events, ExpectedCycles(p, |p.edgeIds|), n) == Running(true, totals[n])
  {
    if n == 0 {
      UnitsOnGrid(0.0, 0);
    } else {
      var m := n - 1;
      RightEventsRun(p, cap, threshold, decay, totals, m);
      RightStep(p, cap, threshold, decay, totals, m);
      var cycles := ExpectedCycles(p, |p.edgeIds|);
      RightTakes(cap, threshold, decay, totals[m], p.events[m], cycles[m], totals[n]);
      RunStep(cap, threshold, decay, p.events, cycles, m, totals[m], totals[n]);
    }
  }

  /** The totals along a run. */
  function TotalsOf(p: RewardedPath, cap: real, threshold: real, decay: real -> real): seq<real>
    requires PathSound(p)
  {
    seq(PairCount(p) + 1, k requires 0 <= k < PairCount(p) + 1 =>
      RunRewards(cap, threshold, decay, p.events, ExpectedCycles(p, |p.edgeIds|), k).total)
  }

  lemma StaysInvalid(cap: real, threshold: real, decay: real -> real, r: Running, e: Event, c: Cycle)
    ensures StepReward(cap, threshold, decay, r, e, c).valid ==> r.valid
  {
  }

  lemma {:induction false} ValidBefore(cap: real, threshold: real, decay: real -> real, events: seq<Event>,
                                       cycles: seq<Cycle>, m: nat, n: nat)
    requires m <= n <= |events| && n <= |cycles| && RunRewards(cap, threshold, decay, events, cycles, n).valid
    ensures RunRewards(cap, threshold, decay, events, cycles, m).valid
  {
    if m < n {
      StaysInvalid(cap, threshold, decay, RunRewards(cap, threshold, decay, events, cycles, n - 1), events[n - 1], cycles[n - 1]);
      ValidBefore(cap, threshold, decay, events, cycles, m, n - 1);
    }
  }

  lemma ValidEventIsRight(cap: real, threshold: real, decay: real -> real, total: real, e: Event, c: Cycle)
    requires StepReward(cap, threshold, decay, Running(true, total), e, c).valid
    ensures EventRight(cap, threshold, decay, total, e, c)
  {
    EventExactly(cap, threshold, decay, total, e, c);
  }

  lemma ValidStep(cap: real, threshold: real, decay: real -> real, events: seq<Event>, cycles: seq<Cycle>, k: nat)
    requires k < |events| && k < |cycles| && RunRewards(cap, threshold, decay, events, cycles, k + 1).valid
    ensures var total := RunRewards(cap, threshold, decay, events, cycles, k).total;
            && EventRight(cap, threshold, decay, total, events[k], cycles[k])
            && RunRewards(cap, threshold, decay, events, cycles, k + 1).total
               == total + Round6(Earned(cap, threshold, decay, total, events[k].edgeStrength.value, cycles[k].distance))
  {
    var r := RunRewards(cap, threshold, decay, events, cycles, k);
    assert r.valid && r == Running(true, r.total);
    ValidTotalOnGrid(cap, threshold, decay, events, cycles, k);
    ValidEventIsRight(cap, threshold, decay, r.total, events[k], cycles[k]);
    TotalAfter(cap, threshold, decay, r.total, events[k], cycles[k]);
  }

  lemma StepOnTheWay(cap: real, threshold: real, decay: real -> real, events: seq<Event>, cycles: seq<Cycle>,
                     k: nat, n: nat, totals: seq<real>)
    requires k < n <= |events| && n <= |cycles| && |totals| == n + 1
    requires RunRewards(cap, threshold, decay, events, cycles, n).valid
    requires forall m | 0 <= m <= n :: totals[m] == RunRewards(cap, threshold, decay, events, cycles, m).total
    ensures EventRight(cap, threshold, decay, totals[k], events[k], cycles[k])
    ensures totals[k + 1]
            == totals[k] + Round6(Earned(cap, threshold, decay, totals[k], events[k].edgeStrength.value, cycles[k].distance))
  {
    ValidBefore(cap, threshold, decay, events, cycles, k + 1, n);
    ValidStep(cap, threshold, decay, events, cycles, k);
  }

  lemma CycleOfReturn(p: RewardedPath, start: nat, e: nat) returns (k: nat)
    requires PathSound(p) && e < |p.edgeIds| && LastVisit(p, start, e)
    ensures k == |ReturnsBefore(p, e)| < |ExpectedCycles(p, |p.edgeIds|)|
    ensures ExpectedCycles(p, |p.edgeIds|)[k] == Slice(p, start, e)
  {
    k := |ReturnsBefore(p, e)|;
    SliceExactly(p, start, e);
    CycleAt(p, |p.edgeIds|, e);
  }

  lemma AcceptedReturns(p: RewardedPath, cap: real, threshold: real, decay: real -> real, totals: seq<real>,
                        start: nat, e: nat)
    requires PathAccepted(p, cap, threshold, decay) && PairCount(p) == |p.events| == |ExpectedCycles(p, |p.edgeIds|)|
    requires totals == TotalsOf(p, cap, threshold, decay) && e < |p.edgeIds| && LastVisit(p, start, e)
    ensures ReturnRight(p, cap, threshold, decay, totals, start, e)
  {
    var k := CycleOfReturn(p, start, e);
    StepOnTheWay(cap, threshold, decay, p.events, ExpectedCycles(p, |p.edgeIds|), k, |p.events|, totals);
  }

  /** The replay accepts a path exactly when it is right for some totals. */
  lemma AcceptedPathExactly(p: RewardedPath, cap: real, threshold: real, decay: real -> real)
    ensures PathAccepted(p, cap, threshold, decay) <==> exists totals :: PathRight(p, cap, threshold, decay, totals)
    ensures forall totals | PathRight(p, cap, threshold, decay, totals) ::
              RewardsOf(p, cap, threshold, decay).total == totals[|p.events|]
  {
    if PathAccepted(p, cap, threshold, decay) {
      assert NodesOf(p.path) == set x | x in p.path;
      EventsPair(p);
      var totals := TotalsOf(p, cap, threshold, decay);
      forall start: nat, e: nat {:trigger LastVisit(p, start, e)} | e < |p.edgeIds| && LastVisit(p, start, e)
        ensures ReturnRight(p, cap, threshold, decay, totals, start, e)
      {
        AcceptedReturns(p, cap, threshold, decay, totals, start, e);
      }
      assert PathRight(p, cap, threshold, decay, totals);
    }
    forall totals | PathRight(p, cap, threshold, decay, totals)
      ensures PathAccepted(p, cap, threshold, decay) && RewardsOf(p, cap, threshold, decay).total == totals[|p.events|]
    {
      assert NodesOf(p.path) == set x | x in p.path;
      EventsPair(p);
      RightEventsRun(p, cap, threshold, decay, totals, |p.events|);
    }
  }
}
