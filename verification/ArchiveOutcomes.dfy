/** What an archive decides, read off the fields of the labels: which newcomers are
    turned away, which entries they displace, what a cut leaves, and which entry is
    ranked. Nothing here refers to how the replay computes it. */
module ArchiveOutcomes {
  import opened Basics
  import opened Ordering
  import opened Labels
  import opened EntryOrder
  import opened Archive
  import opened ArchiveLaws
  import opened ParetoFront
  import opened RecordedFields

  // ---- better in all respects ----------------------------------------------

  /** A different label that is no worse in any of the five respects. */
  predicate Beats(a: Label, b: Label) {
    && a != b
    && a.distance <= b.distance
    && (forall f | f in b.coveredFacets :: f in a.coveredFacets)
    && (forall r | r in b.evidenceRoles :: r in a.evidenceRoles)
    && a.depth <= b.depth
    && (forall t | t in b.edgeTypeCounts ::
          (if t in a.edgeTypeCounts then a.edgeTypeCounts[t] else 0) >= b.edgeTypeCounts[t])
  }

  lemma DominatesExactly(a: Label, b: Label)
    ensures Dominates(a, b) <==> Beats(a, b)
  {
    if Dominates(a, b) {
      forall t | t in b.edgeTypeCounts
        ensures (if t in a.edgeTypeCounts then a.edgeTypeCounts[t] else 0) >= b.edgeTypeCounts[t]
      {
        assert CountOf(a, t) >= b.edgeTypeCounts[t];
      }
    }
  }

  /** In any run no label kept at a node beats another kept there. */
  lemma KeptLabelsAreIncomparable(cfg: Config, obs: seq<Observation>, states: seq<Replay>, n: nat, node: string,
                                  e: Entry, f: Entry)
    requires IsRun(cfg, obs, states) && n <= |obs| && e in states[n].At(node) && f in states[n].At(node)
    ensures !Beats(e.fact, f.fact)
  {
    ArchiveKeepsInvariant(cfg, obs, states, n, node);
    DominatesExactly(e.fact, f.fact);
  }

  // ---- one offer -----------------------------------------------------------

  predicate TurnedAway(before: seq<Entry>, c: Entry) {
    exists e | e in before :: e.pathIdentity == c.pathIdentity || Beats(e.fact, c.fact)
  }

  /** The entries the newcomer displaces. */
  function Displaced(before: seq<Entry>, c: Entry): set<Entry> {
    set e | e in before && Beats(c.fact, e.fact)
  }

  predicate Competes(before: seq<Entry>, c: Entry, e: Entry) {
    e == c || (e in before && e !in Displaced(before, c))
  }

  /** The newcomer and what it does not displace, in order, or the front of that list
      if it is longer than the budget. */
  ghost predicate FrontOfCompetitors(cfg: Config, before: seq<Entry>, c: Entry, after: seq<Entry>) {
    var competitors := |before| + 1 - |Displaced(before, c)|;
    && |after| == (if competitors <= cfg.maxLabels then competitors else cfg.maxLabels)
    && (forall e | e in after :: Competes(before, c, e))
    && (forall i, j | 0 <= i < j < |after| :: ListedBefore(cfg.requiredFacets, after[i], after[j]))
    && (forall e, k | Competes(before, c, e) && e !in after && k in after :: ListedBefore(cfg.requiredFacets, k, e))
  }

  /** The keys that well-formed observations carry all have the same length. */
  predicate SameKeyLength(es: seq<Entry>, c: Entry) {
    forall e | e in es :: |e.queueKey| == |c.queueKey|
  }

  lemma DisplacedCons(e: Entry, rest: seq<Entry>, c: Entry)
    requires e !in rest
    ensures |Displaced([e] + rest, c)| == |Displaced(rest, c)| + if Beats(c.fact, e.fact) then 1 else 0
  {
    assert Displaced([e] + rest, c) == Displaced(rest, c) + if Beats(c.fact, e.fact) then {e} else {};
  }

  lemma UndominatedCons(c: Label, e: Entry, rest: seq<Entry>)
    ensures |Undominated(c, [e] + rest)| == |Undominated(c, rest)| + if Beats(c, e.fact) then 0 else 1
  {
    DominatesExactly(c, e.fact);
    assert ([e] + rest)[1..] == rest;
  }

  lemma FirstIsNotRepeated(es: seq<Entry>)
    requires es != [] && DistinctIdentities(es)
    ensures es[0] !in es[1..] && DistinctIdentities(es[1..]) && es == [es[0]] + es[1..]
  {
  }

  lemma {:induction false} UndominatedCount(es: seq<Entry>, c: Entry)
    requires DistinctIdentities(es)
    ensures |Undominated(c.fact, es)| + |Displaced(es, c)| == |es|
  {
    if es == [] {
      assert Displaced(es, c) == {};
    } else {
      FirstIsNotRepeated(es);
      UndominatedCount(es[1..], c);
      DisplacedCons(es[0], es[1..], c);
      UndominatedCons(c.fact, es[0], es[1..]);
    }
  }

  lemma TurnedAwayExactly(es: seq<Entry>, c: Entry)
    ensures TurnedAway(es, c) <==> HasIdentity(es, c.pathIdentity) || HasDominator(es, c.fact)
  {
    forall e | e in es ensures Dominates(e.fact, c.fact) <==> Beats(e.fact, c.fact) {
      DominatesExactly(e.fact, c.fact);
    }
  }

  lemma CompetesExactly(es: seq<Entry>, c: Entry, e: Entry)
    ensures Competes(es, c, e) <==> e == c || (e in es && !Dominates(c.fact, e.fact))
  {
    DominatesExactly(c.fact, e.fact);
  }

  lemma ListedInOrder(required: set<string>, sorted: seq<Entry>, i: nat, j: nat)
    requires i < j < |sorted| && SortedEntries(required, sorted) && DistinctIdentities(sorted)
    requires |sorted[i].queueKey| == |sorted[j].queueKey|
    ensures ListedBefore(required, sorted[i], sorted[j])
  {
    KeyLeExactly(required, sorted[i], sorted[j]);
  }

  lemma MergedIsListed(cfg: Config, es: seq<Entry>, c: Entry, sorted: seq<Entry>)
    requires Merged(cfg, es, c, sorted) && DistinctIdentities(sorted) && SameKeyLength(es, c)
    ensures forall i, j | 0 <= i < j < |sorted| :: ListedBefore(cfg.requiredFacets, sorted[i], sorted[j])
  {
    forall e | e in sorted ensures |e.queueKey| == |c.queueKey| {
    }
    forall i, j | 0 <= i < j < |sorted| ensures ListedBefore(cfg.requiredFacets, sorted[i], sorted[j]) {
      assert sorted[i] in sorted && sorted[j] in sorted;
      ListedInOrder(cfg.requiredFacets, sorted, i, j);
    }
  }

  lemma CompetitorsAreMerged(cfg: Config, es: seq<Entry>, c: Entry, sorted: seq<Entry>)
    requires Merged(cfg, es, c, sorted)
    ensures forall e :: Competes(es, c, e) <==> e in sorted
  {
    forall e ensures Competes(es, c, e) <==> e in sorted {
      CompetesExactly(es, c, e);
    }
  }

  /** Whatever a cut removes is listed behind what it leaves. */
  lemma CutIsBehind(required: set<string>, sorted: seq<Entry>, size: nat, e: Entry, k: Entry)
    requires size <= |sorted| && e in sorted && e !in sorted[..size] && k in sorted[..size]
    requires forall i, j | 0 <= i < j < |sorted| :: ListedBefore(required, sorted[i], sorted[j])
    ensures ListedBefore(required, k, e)
  {
    var j :| 0 <= j < |sorted| && sorted[j] == e;
    var i :| 0 <= i < size && sorted[i] == k;
  }

  lemma FrontOfMerged(cfg: Config, es: seq<Entry>, c: Entry, sorted: seq<Entry>, size: nat)
    requires Merged(cfg, es, c, sorted) && DistinctIdentities(sorted) && SameKeyLength(es, c)
    requires |sorted| == |es| + 1 - |Displaced(es, c)|
    requires size == if |sorted| <= cfg.maxLabels then |sorted| else cfg.maxLabels
    ensures FrontOfCompetitors(cfg, es, c, sorted[..size])
  {
    MergedIsListed(cfg, es, c, sorted);
    CompetitorsAreMerged(cfg, es, c, sorted);
    var after := sorted[..size];
    assert forall e | e in after :: e in sorted;
    forall e, k | Competes(es, c, e) && e !in after && k in after ensures ListedBefore(cfg.requiredFacets, k, e) {
      CutIsBehind(cfg.requiredFacets, sorted, size, e, k);
    }
  }

  lemma NewcomerStays(sorted: seq<Entry>, c: Entry, size: nat)
    requires size <= |sorted| && c in sorted && DistinctIdentities(sorted)
    ensures Position(sorted, c) < size <==> c in sorted[..size]
  {
    PositionFinds(sorted, c);
    if c in sorted[..size] {
      var i :| 0 <= i < size && sorted[i] == c;
    }
  }

  lemma MergedCount(cfg: Config, es: seq<Entry>, c: Entry) returns (sorted: seq<Entry>)
    requires 0 < cfg.maxLabels && DistinctIdentities(es) && !TurnedAway(es, c)
    ensures Merged(cfg, es, c, sorted) && DistinctIdentities(sorted)
    ensures |sorted| == |es| + 1 - |Displaced(es, c)|
    ensures Offer(cfg, es, c) == Truncate(cfg, es, c, sorted)
  {
    TurnedAwayExactly(es, c);
    var kept := Undominated(c.fact, es);
    sorted := SortEntries(cfg.requiredFacets, kept + [c]);
    SortPermutes(cfg.requiredFacets, kept + [c]);
    SameMembers(sorted, kept + [c]);
    AdmissionKeepsDistinct(cfg, es, c);
    UndominatedCount(es, c);
  }

  /** What one offer does, exactly: a newcomer whose identity is held, or that some
      entry beats, changes nothing; otherwise the best of the competitors remain, and
      the newcomer is admitted if it is among them. */
  lemma OfferExactly(cfg: Config, es: seq<Entry>, c: Entry)
    requires 0 < cfg.maxLabels && DistinctIdentities(es) && SameKeyLength(es, c)
    ensures var o := Offer(cfg, es, c);
            if TurnedAway(es, c) then o == Outcome(es, false, 1, 0)
            else && FrontOfCompetitors(cfg, es, c, o.entries)
                 && (o.admitted <==> c in o.entries)
                 && o.dominancePruned == |Displaced(es, c)|
                 && o.budgetPruned == |es| + 1 - |Displaced(es, c)| - |o.entries|
  {
    if TurnedAway(es, c) {
      TurnedAwayExactly(es, c);
    } else {
      var sorted := MergedCount(cfg, es, c);
      var after := Truncate(cfg, es, c, sorted).entries;
      FrontOfMerged(cfg, es, c, sorted, |after|);
      NewcomerStays(sorted, c, |after|);
    }
  }

  // ---- whole runs ----------------------------------------------------------

  lemma KeptWasObserved(cfg: Config, obs: seq<Observation>, states: seq<Replay>, n: nat, node: string, e: Entry)
    returns (i: nat)
    requires IsRun(cfg, obs, states) && n <= |obs| && e in states[n].At(node)
    ensures i < n && Concerns(cfg, obs[i], node) && EntryOf(obs[i]) == e
  {
    RunPrefix(cfg, obs, states, n);
    var offers := OffersAt(cfg, obs[..n], node);
    var archives := NodeHistory(cfg, obs[..n], states[..n + 1], node);
    var j := RetainedWasConsidered(cfg, offers, archives, |offers|, e);
    assert offers[j] in offers;
    i := OfferWasObserved(cfg, obs[..n], node, e);
  }

  lemma KeysAreAlike(cfg: Config, obs: seq<Observation>, states: seq<Replay>, i: nat)
    requires IsRun(cfg, obs, states) && i < |obs| && WellFormed(cfg, obs[i])
    ensures SameKeyLength(states[i].At(obs[i].nodeId), EntryOf(obs[i]))
  {
    forall e | e in states[i].At(obs[i].nodeId) ensures |e.queueKey| == |EntryOf(obs[i]).queueKey| {
      var j := KeptWasObserved(cfg, obs, states, i, obs[i].nodeId, e);
    }
  }

  /** The recorded decision, with the archive before and after it. */
  ghost predicate RightlyDecided(cfg: Config, o: Observation, before: seq<Entry>, after: seq<Entry>)
    requires o.Observation?
  {
    var c := EntryOf(o);
    if TurnedAway(before, c) then
      after == before && !o.admitted && o.dominancePrunedDelta == 1 && o.labelBudgetPrunedDelta == 0
    else
      && FrontOfCompetitors(cfg, before, c, after)
      && (o.admitted <==> c in after)
      && o.dominancePrunedDelta == |Displaced(before, c)|
      && o.labelBudgetPrunedDelta == |before| + 1 - |Displaced(before, c)| - |after|
  }

  lemma DecidedByOffer(cfg: Config, o: Observation, before: seq<Entry>)
    requires WellFormed(cfg, o) && DistinctIdentities(before) && SameKeyLength(before, EntryOf(o))
    ensures Records(o, Offer(cfg, before, EntryOf(o))) <==>
            RightlyDecided(cfg, o, before, Offer(cfg, before, EntryOf(o)).entries)
  {
    OfferExactly(cfg, before, EntryOf(o));
  }

  /** In any run a well-formed observation replays if and only if it records the right
      decision, and other nodes are left alone. */
  lemma DecisionExactly(cfg: Config, obs: seq<Observation>, states: seq<Replay>, i: nat)
    requires IsRun(cfg, obs, states) && i < |obs| && WellFormed(cfg, obs[i])
    ensures Replays(cfg, states[i], obs[i]) <==>
            RightlyDecided(cfg, obs[i], states[i].At(obs[i].nodeId), states[i + 1].At(obs[i].nodeId))
    ensures forall other | other != obs[i].nodeId :: states[i + 1].At(other) == states[i].At(other)
  {
    ArchiveKeepsInvariant(cfg, obs, states, i, obs[i].nodeId);
    KeysAreAlike(cfg, obs, states, i);
    DecidedByOffer(cfg, obs[i], states[i].At(obs[i].nodeId));
    assert Stepped(cfg, obs, states, i);
    forall node ensures states[i + 1].At(node) == if Concerns(cfg, obs[i], node)
                        then Offer(cfg, states[i].At(node), EntryOf(obs[i])).entries else states[i].At(node) {
      StepAt(cfg, states[i], obs[i], node);
    }
  }

  /** What the counters count, whether or not it was recorded: malformed observations
      change nothing, a newcomer turned away counts as one, any other for what it displaces
      and what is then cut. */
  lemma CountersExactly(cfg: Config, obs: seq<Observation>, states: seq<Replay>, i: nat)
    requires IsRun(cfg, obs, states) && i < |obs|
    ensures states[0].dominanceCount == 0 && states[0].labelBudgetCount == 0
    ensures !WellFormed(cfg, obs[i]) ==> states[i + 1] == states[i]
    ensures WellFormed(cfg, obs[i]) ==>
      var c, r, s := EntryOf(obs[i]), states[i], states[i + 1];
      var before, after := r.At(obs[i].nodeId), s.At(obs[i].nodeId);
      if TurnedAway(before, c) then
        after == before && s.dominanceCount == r.dominanceCount + 1 && s.labelBudgetCount == r.labelBudgetCount
      else
        && FrontOfCompetitors(cfg, before, c, after)
        && s.dominanceCount == r.dominanceCount + |Displaced(before, c)|
        && s.labelBudgetCount == r.labelBudgetCount + |before| + 1 - |Displaced(before, c)| - |after|
  {
    assert Stepped(cfg, obs, states, i);
    if WellFormed(cfg, obs[i]) {
      ArchiveKeepsInvariant(cfg, obs, states, i, obs[i].nodeId);
      KeysAreAlike(cfg, obs, states, i);
      OfferExactly(cfg, states[i].At(obs[i].nodeId), EntryOf(obs[i]));
    }
  }

  lemma EntriesAreListed(cfg: Config, obs: seq<Observation>, states: seq<Replay>, n: nat, node: string, i: nat, j: nat)
    requires IsRun(cfg, obs, states) && n <= |obs| && i < j < |states[n].At(node)|
    ensures ListedBefore(cfg.requiredFacets, states[n].At(node)[i], states[n].At(node)[j])
  {
    var es := states[n].At(node);
    ArchiveKeepsInvariant(cfg, obs, states, n, node);
    var a := KeptWasObserved(cfg, obs, states, n, node, es[i]);
    var b := KeptWasObserved(cfg, obs, states, n, node, es[j]);
    ListedInOrder(cfg.requiredFacets, es, i, j);
  }

  // ---- the ranked entry ----------------------------------------------------

  /** The smaller queue key at the first difference, or the same and the earlier identity. */
  predicate RankedAhead(a: Entry, b: Entry) {
    NumbersBefore(a.queueKey, b.queueKey) || (a.queueKey == b.queueKey && TextBefore(a.pathIdentity, b.pathIdentity))
  }

  /** The entry is in the list and ranked ahead of all others. */
  predicate FirstOf(es: seq<Entry>, best: Entry) {
    best in es && forall e | e in es :: e == best || RankedAhead(best, e)
  }

  lemma RankedPair(es: seq<Entry>, best: Entry, e: Entry)
    requires DistinctIdentities(es) && best in es && e in es && e != best && RankedBefore(best, e)
    requires |best.queueKey| == |e.queueKey|
    ensures RankedAhead(best, e)
  {
    LexNumbers(best.queueKey, e.queueKey, CodePoints(best.pathIdentity), CodePoints(e.pathIdentity));
    StringLeExactly(best.pathIdentity, e.pathIdentity);
  }

  /** The entry reported for a node is kept there and ranked ahead of all others. */
  lemma RankedEntryIsFirst(cfg: Config, obs: seq<Observation>, states: seq<Replay>, n: nat, node: string)
    requires IsRun(cfg, obs, states) && n <= |obs| && states[n].At(node) != []
    ensures FirstOf(states[n].At(node), BestEntry(states[n].At(node)))
  {
    var es := states[n].At(node);
    var best := BestEntry(es);
    var j := KeptWasObserved(cfg, obs, states, n, node, best);
    ArchiveKeepsInvariant(cfg, obs, states, n, node);
    forall e | e in es && e != best ensures RankedAhead(best, e) {
      var i := KeptWasObserved(cfg, obs, states, n, node, e);
      assert RankedBefore(best, e);
      RankedPair(es, best, e);
    }
  }

  // ---- the recorded frontier -----------------------------------------------

  function AdmittedFlags(obs: seq<Observation>): seq<bool> {
    seq(|obs|, i requires 0 <= i < |obs| => obs[i].admitted)
  }

  lemma AdmittedSnoc(front: seq<Observation>, last: Observation)
    ensures AdmittedOnes(front + [last]) == AdmittedOnes(front) + if last.admitted then [last] else []
    ensures AdmittedFlags(front + [last]) == AdmittedFlags(front) + [last.admitted]
  {
    assert (front + [last])[..|front|] == front;
  }

  lemma {:induction false} AdmittedArePicked(obs: seq<Observation>)
    ensures Picks(AdmittedOnes(obs), obs, AdmittedFlags(obs))
    decreases |obs|
  {
    if obs == [] {
      PicksNothing<Observation>();
    } else {
      var front, last := SplitLast(obs);
      AdmittedArePicked(front);
      AdmittedSnoc(front, last);
      PicksSnoc(AdmittedOnes(front), front, AdmittedFlags(front), last, last.admitted);
    }
  }

  /** The row shows the state the observation popped, under the same key. */
  ghost predicate Shown(cfg: Config, o: Observation, row: Snapshot)
    requires o.Observation?
  {
    && row.Snapshot?
    && CandidateMatches(o.candidateState, row.popped)
    && FactOf(o.fact, row.popped)
    && o.nodeId == row.popped.nodeId && o.maxLabels == cfg.maxLabels && o.requiredFacets == cfg.requiredFacets
    && o.queueKey == row.key && KeyedAs(row.key, cfg.requiredFacets, row.popped)
    && var s := row.popped;
    && o.pathIdentity
       == cfg.stableHash(PathKey(s.layer, s.nodeId, s.rootNodeId, s.path, s.pathEdgeIds, s.entryParentRefs))
  }

  lemma ShownExactly(cfg: Config, o: Observation, row: Snapshot)
    requires o.Observation?
    ensures RowAgrees(cfg, o, row) <==> Shown(cfg, o, row)
  {
    if row.Snapshot? && CandidateMatches(o.candidateState, row.popped) {
      LabelFactExactly(o.fact, row.popped);
      QueueKeyExactly(row.key, cfg.requiredFacets, row.popped);
    }
  }

  /** Every observation is well formed and rightly decided. */
  ghost predicate DecidedThroughout(cfg: Config, obs: seq<Observation>, states: seq<Replay>)
    requires |states| == |obs| + 1
  {
    forall i {:trigger obs[i]} | 0 <= i < |obs| ::
      && WellFormed(cfg, obs[i])
      && RightlyDecided(cfg, obs[i], states[i].At(obs[i].nodeId), states[i + 1].At(obs[i].nodeId))
  }

  /** The admitted observations, in order, are the rows of the recorded frontier. */
  ghost predicate RowsShow(cfg: Config, obs: seq<Observation>, rows: seq<Snapshot>) {
    var flags := AdmittedFlags(obs);
    && |rows| == |Flagged(flags, |obs|)|
    && (forall i {:trigger flags[i]} | 0 <= i < |obs| && flags[i] ::
          |Flagged(flags, i)| < |rows| && obs[i].Observation? && Shown(cfg, obs[i], rows[|Flagged(flags, i)|]))
  }

  lemma RowsOfAdmitted(cfg: Config, obs: seq<Observation>, rows: seq<Snapshot>, i: nat)
    requires RowsAgree(cfg, AdmittedOnes(obs), rows) && i < |obs| && obs[i].admitted && obs[i].Observation?
    ensures var k := |Flagged(AdmittedFlags(obs), i)|; k < |rows| && Shown(cfg, obs[i], rows[k])
  {
    AdmittedArePicked(obs);
    var k := |Flagged(AdmittedFlags(obs), i)|;
    assert AdmittedFlags(obs)[i];
    assert RowAgrees(cfg, AdmittedOnes(obs)[k], rows[k]);
    ShownExactly(cfg, obs[i], rows[k]);
  }

  lemma AdmittedOfRows(cfg: Config, obs: seq<Observation>, rows: seq<Snapshot>)
    requires RowsShow(cfg, obs, rows)
    ensures RowsAgree(cfg, AdmittedOnes(obs), rows)
  {
    var flags := AdmittedFlags(obs);
    AdmittedArePicked(obs);
    forall k | 0 <= k < |rows| ensures RowAgrees(cfg, AdmittedOnes(obs)[k], rows[k]) {
      var i := FlaggedAt(flags, |obs|, k);
      assert flags[i] && obs[i].Observation?;
      ShownExactly(cfg, obs[i], rows[k]);
    }
  }

  lemma RowsExactly(cfg: Config, obs: seq<Observation>, rows: seq<Snapshot>)
    requires forall o | o in obs :: o.Observation?
    ensures RowsAgree(cfg, AdmittedOnes(obs), rows) <==> RowsShow(cfg, obs, rows)
  {
    if RowsAgree(cfg, AdmittedOnes(obs), rows) {
      AdmittedArePicked(obs);
      forall i | 0 <= i < |obs| && AdmittedFlags(obs)[i]
        ensures var k := |Flagged(AdmittedFlags(obs), i)|; k < |rows| && obs[i].Observation? && Shown(cfg, obs[i], rows[k])
      {
        assert obs[i] in obs;
        RowsOfAdmitted(cfg, obs, rows, i);
      }
    }
    if RowsShow(cfg, obs, rows) {
      AdmittedOfRows(cfg, obs, rows);
    }
  }

  lemma AcceptedIsDecided(cfg: Config, obs: seq<Observation>, states: seq<Replay>)
    requires IsRun(cfg, obs, states)
    ensures Accepted(cfg, obs) <==> DecidedThroughout(cfg, obs, states)
  {
    RunIsDetermined(cfg, obs, states);
    forall i | 0 <= i < |obs| && WellFormed(cfg, obs[i])
      ensures Replays(cfg, states[i], obs[i]) <==>
              RightlyDecided(cfg, obs[i], states[i].At(obs[i].nodeId), states[i + 1].At(obs[i].nodeId))
    {
      DecisionExactly(cfg, obs, states, i);
    }
    if DecidedThroughout(cfg, obs, states) {
      forall i {:trigger states[i]} | 0 <= i < |obs| ensures Replays(cfg, states[i], obs[i]) {
        assert WellFormed(cfg, obs[i]);
      }
    } else if Accepted(cfg, obs) {
      forall i {:trigger obs[i]} | 0 <= i < |obs| ensures Replays(cfg, states[i], obs[i]) {
      }
    }
  }

  /** The dominance replay accepts exactly the observations that are decided rightly
      throughout and whose admitted ones are the recorded rows. */
  lemma DominanceReplayExactly(cfg: Config, obs: seq<Observation>, states: seq<Replay>, rows: seq<Snapshot>)
    requires IsRun(cfg, obs, states)
    ensures Accepted(cfg, obs) && RowsAgree(cfg, AdmittedOnes(obs), rows)
            <==> DecidedThroughout(cfg, obs, states) && RowsShow(cfg, obs, rows)
  {
    AcceptedIsDecided(cfg, obs, states);
    if DecidedThroughout(cfg, obs, states) {
      forall o | o in obs ensures o.Observation? {
        var i :| 0 <= i < |obs| && obs[i] == o;
        assert WellFormed(cfg, obs[i]);
      }
      RowsExactly(cfg, obs, rows);
    }
  }
}
