/** The replay of a path's reward events: one loop over its edges, one over its events. */
module RewardReplay {
  import opened Basics
  import opened CycleReward
  import opened Options
  import opened RewardOutcomes
  import opened Rounding

  /** The cycles of the path, in one pass over its edges. */
  method CollectCycles(p: RewardedPath) returns (cycles: seq<Cycle>)
    requires PathSound(p)
    ensures cycles == ExpectedCycles(p, |p.edgeIds|)
  {
    cycles := [];
    for e := 0 to |p.edgeIds|
      invariant cycles == ExpectedCycles(p, e)
    {
      var neighbor, previous := p.path[e + 1], p.path[..e + 1];
      if neighbor in previous {
        var start := LastIndex(previous, neighbor);
        cycles := cycles + [Cycle(p.edgeIds[start..e + 1], Round6(Sum(p.distances[start..e + 1])),
                                  p.edgeIds[e], p.distances[e], p.strengths[e])];
      }
    }
  }

  /** One pass of the loop body, over the n-th event and the n-th cycle. */
  method AddEvent(cap: real, threshold: real, decay: real -> real, before: bool, earned: real, event: Event, cycle: Cycle,
                  ghost events: seq<Event>, ghost cycles: seq<Cycle>, ghost n: nat)
    returns (valid: bool, total: real)
    requires n < |events| && n < |cycles| && event == events[n] && cycle == cycles[n]
    requires Running(before, earned) == RunRewards(cap, threshold, decay, events, cycles, n)
    ensures Running(valid, total) == RunRewards(cap, threshold, decay, events, cycles, n + 1)
  {
    if !EventReadable(event) {
      return false, earned;
    }
    var x := Expect(cap, threshold, decay, earned, event.edgeStrength.value, cycle);
    valid := before && EventMatches(event, x, cycle);
    total := Round6(earned + Max(0.0, event.rewardAfterCap.value));
  }

  method AccumulateRewards(cap: real, threshold: real, decay: real -> real, events: seq<Event>, cycles: seq<Cycle>, n: nat)
    returns (valid: bool, total: real)
    requires n <= |events| && n <= |cycles|
    ensures Running(valid, total) == RunRewards(cap, threshold, decay, events, cycles, n)
  {
    total, valid := 0.0, true;
    for k := 0 to n
      invariant Running(valid, total) == RunRewards(cap, threshold, decay, events, cycles, k)
    {
      valid, total := AddEvent(cap, threshold, decay, valid, total, events[k], cycles[k], events, cycles, k);
    }
  }

  /** Replay the reward events of a path. */
  method ReplayPathCycleReward(p: RewardedPath, envelope: Envelope, decay: real -> real)
    returns (valid: bool, total: real)
    ensures valid <==> EnvelopeSound(envelope) && PathAccepted(p, envelope.cap.value, envelope.threshold.value, decay)
    ensures total == if EnvelopeSound(envelope) && PathSound(p)
                     then RewardsOf(p, envelope.cap.value, envelope.threshold.value, decay).total else 0.0
    ensures valid <==> && envelope.cap.Some? && envelope.cap.value >= 0.0
                       && envelope.threshold.Some? && envelope.threshold.value >= 0.0
                       && exists totals :: PathRight(p, envelope.cap.value, envelope.threshold.value, decay, totals)
    ensures valid ==> forall totals | PathRight(p, envelope.cap.value, envelope.threshold.value, decay, totals) ::
                        total == totals[|p.events|]
  {
    if EnvelopeSound(envelope) {
      AcceptedPathExactly(p, envelope.cap.value, envelope.threshold.value, decay);
    }
    if !EnvelopeSound(envelope) || !PathSound(p) {
      return false, 0.0;
    }
    var cycles := CollectCycles(p);
    valid, total := AccumulateRewards(envelope.cap.value, envelope.threshold.value, decay, p.events, cycles, PairCount(p));
    CycleCount(p);
    valid := && valid && |p.events| == |cycles|
             && DeclaredMatches(p, total)
             && total <= envelope.cap.value + DISTANCE_REPLAY_ABS_TOLERANCE;
  }
}
