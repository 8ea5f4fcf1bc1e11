/** What every replayed run keeps: the archive invariant and conservation of
    observations; and its view as one history of offers per node. */
module ArchiveLaws {
  import opened Labels
  import opened EntryOrder
  import opened Archive

  // ---- the invariant of one archive ----------------------------------------

  predicate Antichain(es: seq<Entry>) {
    forall e, f | e in es && f in es :: !Dominates(e.fact, f.fact)
  }

  ghost predicate AllCanonical(es: seq<Entry>) {
    forall e | e in es :: Canonical(e.fact)
  }

  ghost predicate Invariant(cfg: Config, es: seq<Entry>) {
    && DistinctIdentities(es)
    && Antichain(es)
    && AllCanonical(es)
    && SortedEntries(cfg.requiredFacets, es)
    && |es| <= if cfg.maxLabels > 0 then cfg.maxLabels else 0
  }

  lemma {:induction false} UndominatedKeepsDistinct(c: Label, es: seq<Entry>)
    requires DistinctIdentities(es)
    ensures DistinctIdentities(Undominated(c, es))
  {
    if es != [] {
      UndominatedKeepsDistinct(c, es[1..]);
      var rest := Undominated(c, es[1..]);
      forall i | 0 <= i < |rest| ensures rest[i].pathIdentity != es[0].pathIdentity {
        assert rest[i] in es[1..];
      }
    }
  }

  lemma AdmissionKeepsDistinct(cfg: Config, es: seq<Entry>, c: Entry)
    requires DistinctIdentities(es) && !HasIdentity(es, c.pathIdentity)
    ensures DistinctIdentities(SortEntries(cfg.requiredFacets, Undominated(c.fact, es) + [c]))
  {
    var kept := Undominated(c.fact, es);
    UndominatedKeepsDistinct(c.fact, es);
    forall i | 0 <= i < |kept| ensures kept[i].pathIdentity != c.pathIdentity {
      assert kept[i] in es;
    }
    SortPermutes(cfg.requiredFacets, kept + [c]);
    PermutationKeepsDistinct(kept + [c], SortEntries(cfg.requiredFacets, kept + [c]));
  }

  /** What sorting a newcomer in among the entries it does not dominate yields. */
  ghost predicate Merged(cfg: Config, es: seq<Entry>, c: Entry, sorted: seq<Entry>) {
    && SortedEntries(cfg.requiredFacets, sorted)
    && (forall e :: e in sorted <==> e == c || (e in es && !Dominates(c.fact, e.fact)))
    && 0 < |sorted| <= |es| + 1
  }

  /** An offer either changes nothing, or truncates the merged list. */
  lemma OfferShape(cfg: Config, es: seq<Entry>, c: Entry) returns (sorted: seq<Entry>)
    requires 0 < cfg.maxLabels
    ensures Merged(cfg, es, c, sorted)
    ensures Offer(cfg, es, c) ==
            if HasIdentity(es, c.pathIdentity) || HasDominator(es, c.fact) then Outcome(es, false, 1, 0)
            else Truncate(cfg, es, c, sorted)
    ensures DistinctIdentities(es) && !HasIdentity(es, c.pathIdentity) ==> DistinctIdentities(sorted)
  {
    var kept := Undominated(c.fact, es);
    sorted := SortEntries(cfg.requiredFacets, kept + [c]);
    SortPermutes(cfg.requiredFacets, kept + [c]);
    SameMembers(sorted, kept + [c]);
    if DistinctIdentities(es) && !HasIdentity(es, c.pathIdentity) {
      AdmissionKeepsDistinct(cfg, es, c);
    }
  }

  lemma TruncateKeepsInvariant(cfg: Config, es: seq<Entry>, c: Entry, sorted: seq<Entry>)
    requires 0 < cfg.maxLabels && Merged(cfg, es, c, sorted) && DistinctIdentities(sorted)
    requires Antichain(es) && AllCanonical(es) && Canonical(c.fact) && !HasDominator(es, c.fact)
    ensures Invariant(cfg, Truncate(cfg, es, c, sorted).entries)
  {
    var after := Truncate(cfg, es, c, sorted).entries;
    assert forall e | e in after :: e in sorted;
  }

  lemma OfferKeepsInvariant(cfg: Config, es: seq<Entry>, c: Entry)
    requires 0 < cfg.maxLabels && Invariant(cfg, es) && Canonical(c.fact)
    ensures Invariant(cfg, Offer(cfg, es, c).entries)
  {
    var sorted := OfferShape(cfg, es, c);
    if !HasIdentity(es, c.pathIdentity) && !HasDominator(es, c.fact) {
      TruncateKeepsInvariant(cfg, es, c, sorted);
    }
  }

  /** Every observation ends up retained, counted as dominated, or cut by the
      budget; and the budget cuts at most one label, never after a deletion. */
  lemma OfferConserves(cfg: Config, es: seq<Entry>, c: Entry)
    requires 0 < cfg.maxLabels && |es| <= cfg.maxLabels
    ensures var o := Offer(cfg, es, c);
            && |es| + 1 == |o.entries| + o.dominancePruned + o.budgetPruned
            && o.budgetPruned <= 1
            && (o.budgetPruned == 1 ==> o.dominancePruned == 0 && |es| == cfg.maxLabels)
            && (!o.admitted ==> o.dominancePruned + o.budgetPruned == 1)
  {
    var sorted := OfferShape(cfg, es, c);
    PositionFinds(sorted, c);
  }

  // ---- the history of one node ---------------------------------------------

  /** `archives` are the successive archives of a node under a sequence of offers. */
  ghost predicate IsHistory(cfg: Config, offers: seq<Entry>, archives: seq<seq<Entry>>) {
    && |archives| == |offers| + 1
    && archives[0] == []
    && forall k | 0 <= k < |offers| :: Offered(cfg, offers, archives, k)
  }

  ghost predicate Offered(cfg: Config, offers: seq<Entry>, archives: seq<seq<Entry>>, k: nat)
    requires k < |offers| && k + 1 < |archives|
  {
    0 < cfg.maxLabels && archives[k + 1] == Offer(cfg, archives[k], offers[k]).entries
  }

  lemma HistoryStep(cfg: Config, offers: seq<Entry>, archives: seq<seq<Entry>>, k: nat)
    requires IsHistory(cfg, offers, archives) && AllCanonical(offers) && k < |offers|
    requires Invariant(cfg, archives[k])
    ensures Invariant(cfg, archives[k + 1])
  {
    assert Offered(cfg, offers, archives, k);
    assert offers[k] in offers;
    OfferKeepsInvariant(cfg, archives[k], offers[k]);
  }

  lemma {:induction false} HistoryKeepsInvariant(cfg: Config, offers: seq<Entry>, archives: seq<seq<Entry>>, n: nat)
    requires IsHistory(cfg, offers, archives) && AllCanonical(offers) && n <= |offers|
    ensures Invariant(cfg, archives[n])
  {
    if n > 0 {
      HistoryKeepsInvariant(cfg, offers, archives, n - 1);
      HistoryStep(cfg, offers, archives, n - 1);
    }
  }

  lemma StepAt(cfg: Config, r: Replay, o: Observation, node: string)
    ensures Step(cfg, r, o).At(node) ==
            if Concerns(cfg, o, node) then Offer(cfg, r.At(node), EntryOf(o)).entries else r.At(node)
  {
  }

  lemma {:induction false} OfferWasObserved(cfg: Config, obs: seq<Observation>, node: string, e: Entry) returns (i: nat)
    requires e in OffersAt(cfg, obs, node)
    ensures i < |obs| && Concerns(cfg, obs[i], node) && EntryOf(obs[i]) == e
  {
    var n := |obs| - 1;
    if e in OffersAt(cfg, obs[..n], node) {
      i := OfferWasObserved(cfg, obs[..n], node, e);
    } else {
      i := n;
    }
  }

  lemma OffersAreCanonical(cfg: Config, obs: seq<Observation>, node: string)
    ensures AllCanonical(OffersAt(cfg, obs, node))
  {
    forall e | e in OffersAt(cfg, obs, node) ensures Canonical(e.fact) {
      var i := OfferWasObserved(cfg, obs, node, e);
      LabelFactCanonical(obs[i].candidateState);
    }
  }

  lemma HistoryExtends(cfg: Config, offers: seq<Entry>, archives: seq<seq<Entry>>, c: Entry)
    requires 0 < cfg.maxLabels && IsHistory(cfg, offers, archives)
    ensures IsHistory(cfg, offers + [c], archives + [Offer(cfg, archives[|offers|], c).entries])
  {
    var longer := archives + [Offer(cfg, archives[|offers|], c).entries];
    forall k | 0 <= k < |offers| + 1 ensures Offered(cfg, offers + [c], longer, k) {
      if k < |offers| {
        assert Offered(cfg, offers, archives, k);
      }
    }
  }

  lemma RunPrefix(cfg: Config, obs: seq<Observation>, states: seq<Replay>, n: nat)
    requires IsRun(cfg, obs, states) && n <= |obs|
    ensures IsRun(cfg, obs[..n], states[..n + 1])
  {
    var p, s := obs[..n], states[..n + 1];
    forall i | 0 <= i < n ensures Stepped(cfg, p, s, i) {
      assert Stepped(cfg, obs, states, i);
    }
  }

  /** A run is determined by its observations; the replay's loop computes its end
      and whether every observation replays along it. */
  lemma {:induction false} RunIsDetermined(cfg: Config, obs: seq<Observation>, states: seq<Replay>)
    requires IsRun(cfg, obs, states)
    ensures states[|obs|] == Final(cfg, obs)
    ensures AllReplay(cfg, obs, states) <==> Accepted(cfg, obs)
  {
    if obs != [] {
      var n := |obs| - 1;
      RunPrefix(cfg, obs, states, n);
      RunIsDetermined(cfg, obs[..n], states[..n + 1]);
      assert Stepped(cfg, obs, states, n);
      AllReplaySplits(cfg, obs, states);
    }
  }

  lemma FrontReplays(cfg: Config, obs: seq<Observation>, states: seq<Replay>, n: nat)
    requires |states| == |obs| + 1 && n <= |obs| && AllReplay(cfg, obs, states)
    ensures AllReplay(cfg, obs[..n], states[..n + 1])
  {
    var before, front := obs[..n], states[..n + 1];
    forall i {:trigger front[i]} | 0 <= i < n ensures Replays(cfg, front[i], before[i]) {
      assert Replays(cfg, states[i], obs[i]);
    }
  }

  lemma AllReplaySplits(cfg: Config, obs: seq<Observation>, states: seq<Replay>)
    requires obs != [] && |states| == |obs| + 1
    ensures var n := |obs| - 1;
            AllReplay(cfg, obs, states) <==> AllReplay(cfg, obs[..n], states[..n + 1]) && Replays(cfg, states[n], obs[n])
  {
    var n := |obs| - 1;
    var front := states[..n + 1];
    assert forall i | 0 <= i < n :: front[i] == states[i];
    if AllReplay(cfg, obs, states) {
      assert Replays(cfg, states[n], obs[n]);
      FrontReplays(cfg, obs, states, n);
    }
  }

  lemma RunExtends(cfg: Config, obs: seq<Observation>, states: seq<Replay>, o: Observation, next: Replay)
    requires IsRun(cfg, obs, states) && next == Step(cfg, states[|obs|], o)
    ensures IsRun(cfg, obs + [o], states + [next])
  {
    forall i | 0 <= i < |obs| + 1 ensures Stepped(cfg, obs + [o], states + [next], i) {
      if i < |obs| {
        assert Stepped(cfg, obs, states, i);
      }
    }
  }

  /** Every sequence of observations has a run. */
  lemma {:induction false} RunExists(cfg: Config, obs: seq<Observation>) returns (states: seq<Replay>)
    ensures IsRun(cfg, obs, states)
  {
    if obs == [] {
      states := [START];
    } else {
      var front, last := obs[..|obs| - 1], obs[|obs| - 1];
      states := RunExists(cfg, front);
      assert obs == front + [last];
      RunExtends(cfg, front, states, last, Step(cfg, states[|front|], last));
      states := states + [Step(cfg, states[|front|], last)];
    }
  }

  /** A run over many nodes is, node by node, a history of offers. */
  lemma {:induction false} NodeHistory(cfg: Config, obs: seq<Observation>, states: seq<Replay>, node: string)
    returns (archives: seq<seq<Entry>>)
    requires IsRun(cfg, obs, states)
    ensures IsHistory(cfg, OffersAt(cfg, obs, node), archives)
    ensures archives[|OffersAt(cfg, obs, node)|] == states[|obs|].At(node)
  {
    if obs == [] {
      archives := [[]];
    } else {
      var n := |obs| - 1;
      RunPrefix(cfg, obs, states, n);
      archives := NodeHistory(cfg, obs[..n], states[..n + 1], node);
      assert Stepped(cfg, obs, states, n);
      StepAt(cfg, states[n], obs[n], node);
      if Concerns(cfg, obs[n], node) {
        var offers := OffersAt(cfg, obs[..n], node);
        HistoryExtends(cfg, offers, archives, EntryOf(obs[n]));
        archives := archives + [Offer(cfg, archives[|offers|], EntryOf(obs[n])).entries];
      }
    }
  }

  /** At every point of a run, every node's archive keeps the invariant. */
  lemma ArchiveKeepsInvariant(cfg: Config, obs: seq<Observation>, states: seq<Replay>, n: nat, node: string)
    requires IsRun(cfg, obs, states) && n <= |obs|
    ensures Invariant(cfg, states[n].At(node))
  {
    RunPrefix(cfg, obs, states, n);
    var archives := NodeHistory(cfg, obs[..n], states[..n + 1], node);
    OffersAreCanonical(cfg, obs[..n], node);
    HistoryKeepsInvariant(cfg, OffersAt(cfg, obs[..n], node), archives, |OffersAt(cfg, obs[..n], node)|);
  }

  /** Each observation evicts at most one label, and only if it dominated none. */
  lemma EvictionIsRare(cfg: Config, obs: seq<Observation>, states: seq<Replay>, i: nat)
    requires IsRun(cfg, obs, states) && i < |obs| && WellFormed(cfg, obs[i])
    ensures var o := Decide(cfg, states[i], obs[i]);
            o.budgetPruned <= 1 && (o.budgetPruned == 1 ==> o.dominancePruned == 0)
  {
    ArchiveKeepsInvariant(cfg, obs, states, i, obs[i].nodeId);
    OfferConserves(cfg, states[i].At(obs[i].nodeId), EntryOf(obs[i]));
  }

  // ---- conservation over a whole run ---------------------------------------

  /** Labels retained at the given nodes. */
  ghost function TotalOver(retained: map<string, seq<Entry>>, nodes: set<string>): nat
    requires nodes <= retained.Keys
  {
    if nodes == {} then 0 else
      var node :| node in nodes;
      |retained[node]| + TotalOver(retained, nodes - {node})
  }

  ghost function TotalRetained(retained: map<string, seq<Entry>>): nat {
    TotalOver(retained, retained.Keys)
  }

  lemma {:induction false} TotalOverPick(retained: map<string, seq<Entry>>, nodes: set<string>, node: string)
    requires nodes <= retained.Keys && node in nodes
    ensures TotalOver(retained, nodes) == |retained[node]| + TotalOver(retained, nodes - {node})
  {
    var first :| first in nodes && TotalOver(retained, nodes) == |retained[first]| + TotalOver(retained, nodes - {first});
    if first != node {
      TotalOverPick(retained, nodes - {first}, node);
      TotalOverPick(retained, nodes - {node}, first);
      assert nodes - {first} - {node} == nodes - {node} - {first};
    }
  }

  lemma {:induction false} TotalOverAgree(a: map<string, seq<Entry>>, b: map<string, seq<Entry>>, nodes: set<string>)
    requires nodes <= a.Keys && nodes <= b.Keys && forall n | n in nodes :: a[n] == b[n]
    ensures TotalOver(a, nodes) == TotalOver(b, nodes)
  {
    if nodes != {} {
      var node :| node in nodes;
      TotalOverPick(a, nodes, node);
      TotalOverPick(b, nodes, node);
      TotalOverAgree(a, b, nodes - {node});
    }
  }

  lemma TotalAfterUpdate(r: Replay, node: string, es: seq<Entry>)
    ensures TotalRetained(r.retained[node := es]) == TotalRetained(r.retained) - |r.At(node)| + |es|
  {
    var updated := r.retained[node := es];
    var others := r.retained.Keys - {node};
    TotalOverPick(updated, updated.Keys, node);
    assert updated.Keys - {node} == others;
    TotalOverAgree(updated, r.retained, others);
    if node in r.retained {
      TotalOverPick(r.retained, r.retained.Keys, node);
    } else {
      assert others == r.retained.Keys;
    }
  }

  function WellFormedCount(cfg: Config, obs: seq<Observation>): nat {
    if obs == [] then 0 else
      WellFormedCount(cfg, obs[..|obs| - 1]) + if WellFormed(cfg, obs[|obs| - 1]) then 1 else 0
  }

  lemma StepConserves(cfg: Config, r: Replay, o: Observation)
    requires WellFormed(cfg, o) && |r.At(o.nodeId)| <= cfg.maxLabels
    ensures var s := Step(cfg, r, o);
            TotalRetained(s.retained) + s.dominanceCount + s.labelBudgetCount
            == TotalRetained(r.retained) + r.dominanceCount + r.labelBudgetCount + 1
  {
    OfferConserves(cfg, r.At(o.nodeId), EntryOf(o));
    TotalAfterUpdate(r, o.nodeId, Decide(cfg, r, o).entries);
  }

  /** Nothing is lost or counted twice: well-formed observations split into the
      labels still retained, the dominance count and the label-budget count. */
  lemma {:induction false} Conservation(cfg: Config, obs: seq<Observation>, states: seq<Replay>)
    requires IsRun(cfg, obs, states)
    ensures var r := states[|obs|];
            WellFormedCount(cfg, obs) == TotalRetained(r.retained) + r.dominanceCount + r.labelBudgetCount
  {
    if obs != [] {
      var n := |obs| - 1;
      RunPrefix(cfg, obs, states, n);
      Conservation(cfg, obs[..n], states[..n + 1]);
      assert Stepped(cfg, obs, states, n);
      if WellFormed(cfg, obs[n]) {
        ArchiveKeepsInvariant(cfg, obs, states, n, obs[n].nodeId);
        StepConserves(cfg, states[n], obs[n]);
      }
    }
  }

  lemma {:induction false} AllWellFormedCount(cfg: Config, obs: seq<Observation>)
    requires forall o | o in obs :: WellFormed(cfg, o)
    ensures WellFormedCount(cfg, obs) == |obs|
  {
    if obs != [] {
      AllWellFormedCount(cfg, obs[..|obs| - 1]);
    }
  }

  /** An accepted run accounts for every one of its observations. */
  lemma AcceptedRunsAccountForAll(cfg: Config, obs: seq<Observation>, states: seq<Replay>)
    requires IsRun(cfg, obs, states) && AllReplay(cfg, obs, states)
    ensures var r := states[|obs|];
            |obs| == TotalRetained(r.retained) + r.dominanceCount + r.labelBudgetCount
  {
    forall o | o in obs ensures WellFormed(cfg, o) {
      var i :| 0 <= i < |obs| && obs[i] == o;
      assert Replays(cfg, states[i], obs[i]);
    }
    AllWellFormedCount(cfg, obs);
    Conservation(cfg, obs, states);
  }
}
