/** The two replays of one search read the same observations: the dominance replay
    what each node's archive decided, the frontier replay what was queued, popped and
    reported. What passing both says that neither says alone. */
module JointReplay {
  import opened Labels
  import opened EntryOrder
  import opened Archive
  import opened ArchiveLaws
  import opened Basics
  import opened Frontier
  import opened FrontierLaws
  import opened FrontierOutcomes
  import opened FrontierPaths
  import opened ParetoFront

  /** The log passes the frontier replay with the given states, and its observations
      the dominance replay with the given running archives. */
  ghost predicate PassesBoth(log: Log, states: seq<Progress>, cfg: Config, runs: seq<Replay>) {
    && Completes(log, states)
    && cfg.stableHash == log.stableHash
    && IsRun(cfg, log.observations, runs) && AllReplay(cfg, log.observations, runs)
  }

  /** Every state ever queued is still queued, or its label is retained at its node,
      or it was pruned by dominance, or cut by the label budget. */
  lemma EveryQueuedStateIsAccountedFor(log: Log, states: seq<Progress>, cfg: Config, runs: seq<Replay>)
    requires PassesBoth(log, states, cfg, runs)
    ensures var r := runs[|log.observations|];
            |log.enqueues| == log.terminal.frontierRemainingCount
                              + TotalRetained(r.retained) + r.dominanceCount + r.labelBudgetCount
  {
    QueueIsConserved(log, states);
    AcceptedRunsAccountForAll(cfg, log.observations, runs);
  }

  lemma {:induction false} PositionIsFirst(es: seq<Entry>, e: Entry, k: nat)
    requires k < |es| && es[k] == e
    ensures Position(es, e) <= k
  {
    if es[0] != e {
      PositionIsFirst(es[1..], e, k - 1);
    }
  }

  lemma NewcomerWasAdmitted(cfg: Config, es: seq<Entry>, c: Entry, e: Entry)
    requires 0 < cfg.maxLabels && e !in es && e in Offer(cfg, es, c).entries
    ensures e == c && Offer(cfg, es, c).admitted
  {
    var sorted := OfferShape(cfg, es, c);
    var kept := Offer(cfg, es, c).entries;
    var k :| 0 <= k < |kept| && kept[k] == e;
    assert sorted[k] == e && e in sorted;
    PositionIsFirst(sorted, c, k);
  }

  lemma RetainedOrAdmitted(cfg: Config, r: Replay, o: Observation, node: string, e: Entry)
    requires e in Step(cfg, r, o).At(node) && Replays(cfg, r, o)
    ensures e in r.At(node) || (Concerns(cfg, o, node) && EntryOf(o) == e && o.admitted)
  {
    StepAt(cfg, r, o, node);
    if e !in r.At(node) {
      NewcomerWasAdmitted(cfg, r.At(node), EntryOf(o), e);
    }
  }

  lemma RetainedStep(cfg: Config, obs: seq<Observation>, runs: seq<Replay>, k: nat, node: string, e: Entry)
    requires IsRun(cfg, obs, runs) && AllReplay(cfg, obs, runs) && k < |obs| && e in runs[k + 1].At(node)
    ensures e in runs[k].At(node) || (Concerns(cfg, obs[k], node) && EntryOf(obs[k]) == e && obs[k].admitted)
  {
    assert Stepped(cfg, obs, runs, k) && Replays(cfg, runs[k], obs[k]);
    RetainedOrAdmitted(cfg, runs[k], obs[k], node, e);
  }

  /** A retained label was admitted by the observation that offered it. */
  lemma {:induction false} RetainedWasAdmitted(cfg: Config, obs: seq<Observation>, runs: seq<Replay>, n: nat,
                                              node: string, e: Entry) returns (i: nat)
    requires IsRun(cfg, obs, runs) && AllReplay(cfg, obs, runs) && n <= |obs| && e in runs[n].At(node)
    ensures i < n && Concerns(cfg, obs[i], node) && EntryOf(obs[i]) == e && obs[i].admitted
  {
    i := n - 1;
    RetainedStep(cfg, obs, runs, i, node, e);
    if e in runs[i].At(node) {
      i := RetainedWasAdmitted(cfg, obs, runs, i, node, e);
    }
  }

  lemma AdmissionIsReported(log: Log, states: seq<Progress>, n: nat, i: nat) returns (j: nat)
    requires IsReplay(log, states, n) && i < n && log.observations[i].admitted
    ensures log.observations[i].Observation?
    ensures j < |log.labels| == |log.frontierRows| && log.frontierRows[j].Snapshot?
    ensures CandidateMatches(log.observations[i].candidateState, log.frontierRows[j].popped)
    ensures LabelMatches(log.labels[j], log.frontierRows[j].popped, log.layer)
  {
    assert Passes(log, states, i);
    j := states[i].active;
  }

  /** Every label an archive still holds at the end is among the reported path
      labels, under the same path identity and with the same facets and roles. */
  lemma RetainedLabelsAreReported(log: Log, states: seq<Progress>, cfg: Config, runs: seq<Replay>,
                                  node: string, e: Entry) returns (j: nat)
    requires PassesBoth(log, states, cfg, runs) && e in runs[|log.observations|].At(node)
    ensures j < |log.labels| == |log.frontierRows| && log.frontierRows[j].Snapshot?
    ensures var popped := log.frontierRows[j].popped;
            && popped.nodeId == node && e.pathIdentity == log.stableHash(PathKeyOf(popped))
            && log.labels[j].path == popped.path && log.labels[j].pathEdgeIds == popped.pathEdgeIds
            && log.labels[j].coveredFacets == e.fact.coveredFacets
            && log.labels[j].evidenceRoles == e.fact.evidenceRoles
  {
    var n := |log.observations|;
    var i := RetainedWasAdmitted(cfg, log.observations, runs, n, node, e);
    j := AdmissionIsReported(log, states, n, i);
  }

  // ---- no identity is observed twice ---------------------------------------

  lemma PoppedPathsDiffer(log: Log, states: seq<Progress>, i: nat, m: nat)
    requires Completes(log, states) && i < m < |log.observations|
    ensures log.observations[i].Observation? && log.observations[m].Observation?
    ensures !SamePath(log.observations[i].candidateState, log.observations[m].candidateState)
  {
    var n := |log.observations|;
    var j := PopFacts(log, states, n, i);
    var k := PopFacts(log, states, n, m);
    EarlierPopDiffers(log, states, n, i, m);
    PopStaysQueued(log, states, n, i);
    PopStaysQueued(log, states, n, m);
    QueueBounds(log, states, n, n);
    if SamePath(log.enqueues[j].candidateState, log.enqueues[k].candidateState) {
      QueuedPathsAreDistinct(log, states, n, j, k);
    }
  }

  ghost predicate NoRepeats(obs: seq<Observation>) {
    forall i, m | 0 <= i < m < |obs| && obs[i].Observation? && obs[m].Observation? ::
      obs[i].pathIdentity != obs[m].pathIdentity
  }

  lemma IdentityOfPath(log: Log, states: seq<Progress>, cfg: Config, runs: seq<Replay>, i: nat)
    requires PassesBoth(log, states, cfg, runs) && i < |log.observations|
    ensures log.observations[i].Observation?
    ensures log.observations[i].pathIdentity == log.stableHash(PathKeyOf(log.observations[i].candidateState))
  {
    assert Replays(cfg, runs[i], log.observations[i]);
  }

  /** No two observations of a log that passes both replays share an identity. */
  lemma IdentitiesAreDistinct(log: Log, states: seq<Progress>, cfg: Config, runs: seq<Replay>)
    requires PassesBoth(log, states, cfg, runs) && Injective(log.stableHash)
    ensures NoRepeats(log.observations)
  {
    var obs := log.observations;
    forall i, m | 0 <= i < m < |obs| && obs[i].Observation? && obs[m].Observation?
      ensures obs[i].pathIdentity != obs[m].pathIdentity
    {
      IdentityOfPath(log, states, cfg, runs, i);
      IdentityOfPath(log, states, cfg, runs, m);
      PoppedPathsDiffer(log, states, i, m);
    }
  }

  /** So the archive never turns a label away for repeating a retained identity. */
  lemma RepeatBranchIsDead(log: Log, states: seq<Progress>, cfg: Config, runs: seq<Replay>, i: nat)
    requires PassesBoth(log, states, cfg, runs) && Injective(log.stableHash) && i < |log.observations|
    ensures log.observations[i].Observation?
    ensures !HasIdentity(runs[i].At(log.observations[i].nodeId), log.observations[i].pathIdentity)
  {
    var o := log.observations[i];
    IdentityOfPath(log, states, cfg, runs, i);
    IdentitiesAreDistinct(log, states, cfg, runs);
    if HasIdentity(runs[i].At(o.nodeId), o.pathIdentity) {
      var e :| e in runs[i].At(o.nodeId) && e.pathIdentity == o.pathIdentity;
      var t := RetainedWasAdmitted(cfg, log.observations, runs, i, o.nodeId, e);
    }
  }

  lemma {:induction false} OffersAreDistinct(cfg: Config, obs: seq<Observation>, node: string)
    requires NoRepeats(obs)
    ensures DistinctIdentities(OffersAt(cfg, obs, node))
  {
    if obs != [] {
      var n := |obs| - 1;
      OffersAreDistinct(cfg, obs[..n], node);
      if Concerns(cfg, obs[n], node) {
        var before := OffersAt(cfg, obs[..n], node);
        forall k | 0 <= k < |before| ensures before[k].pathIdentity != obs[n].pathIdentity {
          var i := OfferWasObserved(cfg, obs[..n], node, before[k]);
        }
      }
    }
  }

  // ---- nothing cut ---------------------------------------------------------

  lemma CutsGrow(cfg: Config, obs: seq<Observation>, runs: seq<Replay>, k: nat)
    requires IsRun(cfg, obs, runs) && k < |obs|
    ensures runs[k + 1].labelBudgetCount
            == runs[k].labelBudgetCount + if WellFormed(cfg, obs[k]) then Decide(cfg, runs[k], obs[k]).budgetPruned else 0
  {
    assert Stepped(cfg, obs, runs, k);
  }

  lemma UncutExtends(cfg: Config, offers: seq<Entry>, archives: seq<seq<Entry>>, c: Entry, after: seq<Entry>)
    requires |archives| == |offers| + 1 && NoCut(cfg, offers, archives)
    requires UncutAt(cfg, [c], [archives[|offers|]], 0)
    ensures NoCut(cfg, offers + [c], archives + [after])
  {
    var more, longer := offers + [c], archives + [after];
    forall k | 0 <= k < |more| ensures UncutAt(cfg, more, longer, k) {
      if k < |offers| {
        assert UncutAt(cfg, offers, archives, k);
      }
    }
  }

  /** A run that ends with a label-budget count of zero cut nothing at any node. */
  lemma {:induction false} UncutHistory(cfg: Config, obs: seq<Observation>, runs: seq<Replay>, node: string)
    returns (archives: seq<seq<Entry>>)
    requires IsRun(cfg, obs, runs) && runs[|obs|].labelBudgetCount == 0
    ensures IsHistory(cfg, OffersAt(cfg, obs, node), archives) && NoCut(cfg, OffersAt(cfg, obs, node), archives)
    ensures archives[|OffersAt(cfg, obs, node)|] == runs[|obs|].At(node)
  {
    if obs == [] {
      archives := [[]];
    } else {
      var n := |obs| - 1;
      RunPrefix(cfg, obs, runs, n);
      CutsGrow(cfg, obs, runs, n);
      assert Stepped(cfg, obs, runs, n);
      archives := UncutHistory(cfg, obs[..n], runs[..n + 1], node);
      StepAt(cfg, runs[n], obs[n], node);
      if Concerns(cfg, obs[n], node) {
        var offers := OffersAt(cfg, obs[..n], node);
        HistoryExtends(cfg, offers, archives, EntryOf(obs[n]));
        var after := Offer(cfg, archives[|offers|], EntryOf(obs[n])).entries;
        UncutExtends(cfg, offers, archives, EntryOf(obs[n]), after);
        archives := archives + [after];
      }
    }
  }

  /** The front and best laws, for every node of every log that passes both replays:
      the head is no worse than every label observed there; and if the run counts no
      label-budget cut, the labels retained are the Pareto front of those observed. */
  lemma AcceptedRunsKeepFrontAndBest(log: Log, states: seq<Progress>, cfg: Config, runs: seq<Replay>, node: string)
    requires PassesBoth(log, states, cfg, runs) && Injective(log.stableHash)
    ensures var offered := LabelsOf(OffersAt(cfg, log.observations, node));
            var r := runs[|log.observations|];
            && (forall x | x in offered :: HeadNoWorse(cfg, r.At(node), x))
            && (r.labelBudgetCount == 0 ==> LabelsOf(r.At(node)) == Front(offered))
  {
    var obs := log.observations;
    var offers := OffersAt(cfg, obs, node);
    IdentitiesAreDistinct(log, states, cfg, runs);
    OffersAreDistinct(cfg, obs, node);
    DistinctMeansDetermined(offers);
    var archives := RunsKeepFrontAndBest(cfg, obs, runs, node);
    if runs[|obs|].labelBudgetCount == 0 {
      var uncut := UncutHistory(cfg, obs, runs, node);
      OffersAreCanonical(cfg, obs, node);
      ConsistentIdentitiesAreCovered(cfg, offers, uncut);
      RetainedIsParetoFront(cfg, offers, uncut);
    }
  }

  lemma DistinctMeansDetermined(offers: seq<Entry>)
    requires DistinctIdentities(offers)
    ensures IdentityDeterminesLabel(offers)
  {
    assert forall i, j | 0 <= i < |offers| && 0 <= j < |offers| && i != j ::
      offers[i].pathIdentity != offers[j].pathIdentity;
  }
}
