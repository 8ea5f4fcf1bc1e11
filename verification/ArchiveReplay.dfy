/** The dominance replay itself: a loop over the observations with a list per node that
    is edited as each decision is made again. */
module ArchiveReplay {
  import opened Archive
  import opened ArchiveLaws
  import opened ArchiveOutcomes
  import opened EntryOrder
  import opened Labels

  // ---- the replay ----------------------------------------------------------

  lemma NewcomerCut(cfg: Config, kept: seq<Entry>, c: Entry, sorted: seq<Entry>, size: nat)
    requires c !in kept && sorted == SortEntries(cfg.requiredFacets, kept + [c]) && size <= |sorted|
    ensures |sorted| == |kept| + 1 && (c !in sorted[size..] <==> Position(sorted, c) < size)
  {
    NewcomerOccursOnce(cfg.requiredFacets, kept, c);
    CutAt(sorted, c, size);
  }

  /** What is left when the sorted list of the newcomer and those kept is cut at `size`. */
  lemma CutTakes(cfg: Config, es: seq<Entry>, c: Entry, kept: seq<Entry>, sorted: seq<Entry>, size: nat)
    requires 0 < cfg.maxLabels && !HasIdentity(es, c.pathIdentity) && !HasDominator(es, c.fact)
    requires kept == Undominated(c.fact, es) && sorted == SortEntries(cfg.requiredFacets, kept + [c])
    requires size == if |sorted| <= cfg.maxLabels then |sorted| else cfg.maxLabels
    ensures |sorted| == |kept| + 1 <= |es| + 1
    ensures Offer(cfg, es, c) == Outcome(sorted[..size], c !in sorted[size..], |es| - |kept|, |sorted| - size)
  {
    assert c !in kept;
    NewcomerCut(cfg, kept, c, sorted, size);
    assert Offer(cfg, es, c) == Truncate(cfg, es, c, sorted);
  }

  /** One pass of the loop body over a node's list: reject, or delete what the
      newcomer dominates, append, sort and truncate. */
  method OfferInPlace(cfg: Config, raw: Observation, retained: seq<Entry>)
    returns (entries: seq<Entry>, admitted: bool, dominanceDelta: nat, labelBudgetDelta: nat)
    requires WellFormed(cfg, raw)
    ensures Outcome(entries, admitted, dominanceDelta, labelBudgetDelta) == Offer(cfg, retained, EntryOf(raw))
  {
    entries, admitted, dominanceDelta, labelBudgetDelta := retained, false, 1, 0;
    if HasIdentity(entries, raw.pathIdentity) {
      return;
    }
    if HasDominator(entries, raw.fact) {
      return;
    }
    var candidate := Entry(raw.fact, raw.queueKey, raw.pathIdentity);
    var kept := Undominated(raw.fact, entries);
    dominanceDelta := |entries| - |kept|;
    entries := SortEntries(raw.requiredFacets, kept + [candidate]);
    var size := if |entries| <= raw.maxLabels then |entries| else raw.maxLabels;
    CutTakes(cfg, retained, candidate, kept, entries, size);
    var removed := entries[size..];
    entries := entries[..size];
    labelBudgetDelta := |removed|;
    admitted := candidate !in removed;
  }

  method CompareRows(cfg: Config, admitted: seq<Observation>, frontierJson: seq<Snapshot>) returns (agree: bool)
    ensures agree <==> RowsAgree(cfg, admitted, frontierJson)
  {
    agree := |admitted| == |frontierJson|;
    for k := 0 to if |admitted| < |frontierJson| then |admitted| else |frontierJson|
      invariant agree <==> |admitted| == |frontierJson| && forall j | 0 <= j < k :: RowAgrees(cfg, admitted[j], frontierJson[j])
    {
      if !RowAgrees(cfg, admitted[k], frontierJson[k]) {
        agree := false;
      }
    }
  }

  lemma StepTakes(cfg: Config, r: Replay, raw: Observation, entries: seq<Entry>, outcome: Outcome,
                  retained: map<string, seq<Entry>>)
    requires WellFormed(cfg, raw) && entries == r.At(raw.nodeId) && outcome == Offer(cfg, entries, EntryOf(raw))
    requires retained == r.retained[raw.nodeId := outcome.entries]
    ensures Step(cfg, r, raw) == Replay(retained, r.dominanceCount + outcome.dominancePruned,
                                        r.labelBudgetCount + outcome.budgetPruned)
    ensures Replays(cfg, r, raw) <==> Records(raw, outcome)
  {
  }

  /** The decision on a well-formed observation, and the lists with its node's replaced. */
  method DecideOne(cfg: Config, raw: Observation, before: map<string, seq<Entry>>, ghost r: Replay)
    returns (retained: map<string, seq<Entry>>, outcome: Outcome)
    requires WellFormed(cfg, raw) && before == r.retained
    ensures outcome == Offer(cfg, r.At(raw.nodeId), EntryOf(raw))
    ensures retained == before[raw.nodeId := outcome.entries]
  {
    var entries := if raw.nodeId in before then before[raw.nodeId] else [];
    var updated, expectedAdmitted, dominanceDelta, labelBudgetDelta := OfferInPlace(cfg, raw, entries);
    outcome := Outcome(updated, expectedAdmitted, dominanceDelta, labelBudgetDelta);
    retained := before[raw.nodeId := updated];
  }

  method ReplayOne(cfg: Config, raw: Observation, before: map<string, seq<Entry>>, ghost r: Replay)
    returns (retained: map<string, seq<Entry>>, dominanceDelta: nat, labelBudgetDelta: nat, valid: bool)
    requires before == r.retained
    ensures Step(cfg, r, raw) == Replay(retained, r.dominanceCount + dominanceDelta, r.labelBudgetCount + labelBudgetDelta)
    ensures valid <==> Replays(cfg, r, raw)
  {
    if !WellFormed(cfg, raw) {
      return before, 0, 0, false;
    }
    var outcome;
    retained, outcome := DecideOne(cfg, raw, before, r);
    StepTakes(cfg, r, raw, r.At(raw.nodeId), outcome, retained);
    dominanceDelta, labelBudgetDelta, valid := outcome.dominancePruned, outcome.budgetPruned, Records(raw, outcome);
  }

  method ReplayObservations(cfg: Config, observations: seq<Observation>)
    returns (retained: map<string, seq<Entry>>, dominanceCount: nat, labelBudgetCount: nat, allValid: bool)
    ensures Replay(retained, dominanceCount, labelBudgetCount) == Final(cfg, observations)
    ensures allValid <==> Accepted(cfg, observations)
  {
    retained, dominanceCount, labelBudgetCount, allValid := map[], 0, 0, true;
    for i := 0 to |observations|
      invariant Replay(retained, dominanceCount, labelBudgetCount) == Final(cfg, observations[..i])
      invariant allValid <==> Accepted(cfg, observations[..i])
    {
      ghost var r := Replay(retained, dominanceCount, labelBudgetCount);
      var dominanceDelta, labelBudgetDelta, valid;
      retained, dominanceDelta, labelBudgetDelta, valid := ReplayOne(cfg, observations[i], retained, r);
      dominanceCount := dominanceCount + dominanceDelta;
      labelBudgetCount := labelBudgetCount + labelBudgetDelta;
      allValid := allValid && valid;
      assert observations[..i + 1][..i] == observations[..i];
    }
    assert observations[..|observations|] == observations;
  }

  method ReplayDominanceObservations(cfg: Config, observations: seq<Observation>, frontierJson: seq<Snapshot>)
    returns (allValid: bool, dominanceCount: nat, labelBudgetCount: nat, rankById: map<string, Entry>)
    ensures allValid <==> Accepted(cfg, observations) && RowsAgree(cfg, AdmittedOnes(observations), frontierJson)
    ensures dominanceCount == Final(cfg, observations).dominanceCount
    ensures labelBudgetCount == Final(cfg, observations).labelBudgetCount
    ensures forall node :: node in rankById <==> Final(cfg, observations).At(node) != []
    ensures forall node | node in rankById :: rankById[node] == BestEntry(Final(cfg, observations).At(node))
    ensures forall states: seq<Replay> {:trigger IsRun(cfg, observations, states)} | IsRun(cfg, observations, states) ::
              allValid <==> DecidedThroughout(cfg, observations, states) && RowsShow(cfg, observations, frontierJson)
    ensures forall states: seq<Replay> {:trigger IsRun(cfg, observations, states)} | IsRun(cfg, observations, states) ::
              forall node | node in rankById :: FirstOf(states[|observations|].At(node), rankById[node])
  {
    var retained;
    retained, dominanceCount, labelBudgetCount, allValid := ReplayObservations(cfg, observations);
    var agree := CompareRows(cfg, AdmittedOnes(observations), frontierJson);
    allValid := allValid && agree;
    rankById := map node | node in retained && retained[node] != [] :: BestEntry(retained[node]);
    forall states: seq<Replay> {:trigger IsRun(cfg, observations, states)} | IsRun(cfg, observations, states)
      ensures allValid <==> DecidedThroughout(cfg, observations, states) && RowsShow(cfg, observations, frontierJson)
      ensures forall node | node in rankById :: FirstOf(states[|observations|].At(node), rankById[node])
    {
      RunIsDetermined(cfg, observations, states);
      DominanceReplayExactly(cfg, observations, states, frontierJson);
      forall node | node in rankById ensures FirstOf(states[|observations|].At(node), rankById[node]) {
        RankedEntryIsFirst(cfg, observations, states, |observations|, node);
      }
    }
  }
}
