/** What the labels left in an archive have to do with all labels ever offered.
    A node's history is its sequence of offers (NodeHistory ties it to the run). */
module ParetoFront {
  import opened Ordering
  import opened Labels
  import opened EntryOrder
  import opened Archive
  import opened ArchiveLaws
  import opened Rounding

  /** The i-th offer is not turned away merely for repeating a retained identity. */
  predicate Considered(offers: seq<Entry>, archives: seq<seq<Entry>>, i: nat)
    requires i < |offers| && i < |archives|
  {
    !HasIdentity(archives[i], offers[i].pathIdentity)
  }

  predicate UncutAt(cfg: Config, offers: seq<Entry>, archives: seq<seq<Entry>>, i: nat)
    requires i < |offers| && i < |archives|
  {
    0 < cfg.maxLabels && Offer(cfg, archives[i], offers[i]).budgetPruned == 0
  }

  /** No label was cut by the budget. */
  predicate NoCut(cfg: Config, offers: seq<Entry>, archives: seq<seq<Entry>>)
    requires |archives| == |offers| + 1
  {
    forall i | 0 <= i < |offers| :: UncutAt(cfg, offers, archives, i)
  }

  /** Equal path identities carry equal labels. */
  predicate IdentityDeterminesLabel(offers: seq<Entry>) {
    forall i, j | 0 <= i < |offers| && 0 <= j < |offers| && offers[i].pathIdentity == offers[j].pathIdentity ::
      offers[i].fact == offers[j].fact
  }

  function LabelsOf(es: seq<Entry>): set<Label> {
    set e | e in es :: e.fact
  }

  function Front(labels: set<Label>): set<Label> {
    set l | l in labels && forall x | x in labels :: !Dominates(x, l)
  }

  predicate SomeCovers(es: seq<Entry>, x: Label) {
    exists e | e in es :: Covers(e.fact, x)
  }

  lemma OfferMembers(cfg: Config, es: seq<Entry>, c: Entry, e: Entry)
    requires 0 < cfg.maxLabels && e in Offer(cfg, es, c).entries
    ensures e in es || (e == c && !HasIdentity(es, c.pathIdentity))
  {
    var sorted := OfferShape(cfg, es, c);
    assert e in es || e in sorted;
  }

  /** Every retained entry was offered, and considered when it was. */
  lemma {:induction false} RetainedWasConsidered(cfg: Config, offers: seq<Entry>, archives: seq<seq<Entry>>, n: nat, e: Entry)
    returns (i: nat)
    requires IsHistory(cfg, offers, archives) && n <= |offers| && e in archives[n]
    ensures i < n && Considered(offers, archives, i) && offers[i] == e
  {
    assert Offered(cfg, offers, archives, n - 1);
    OfferMembers(cfg, archives[n - 1], offers[n - 1], e);
    if e in archives[n - 1] {
      i := RetainedWasConsidered(cfg, offers, archives, n - 1, e);
    } else {
      i := n - 1;
    }
  }

  // ---- the Pareto front ----------------------------------------------------

  lemma CoverStep(cfg: Config, es: seq<Entry>, c: Entry, sorted: seq<Entry>, x: Label)
    requires Merged(cfg, es, c, sorted) && AllCanonical(es) && Canonical(c.fact) && Canonical(x)
    requires SomeCovers(es, x) || c.fact == x
    ensures SomeCovers(sorted, x)
  {
    assert c in sorted;
    if SomeCovers(es, x) {
      var e :| e in es && Covers(e.fact, x);
      if Dominates(c.fact, e.fact) {
        CoversTransitive(c.fact, e.fact, x);
      } else {
        assert e in sorted;
      }
    }
  }

  lemma UncutOffer(cfg: Config, es: seq<Entry>, c: Entry) returns (sorted: seq<Entry>)
    requires 0 < cfg.maxLabels && Offer(cfg, es, c).budgetPruned == 0
    ensures Merged(cfg, es, c, sorted)
    ensures Offer(cfg, es, c).entries ==
            if HasIdentity(es, c.pathIdentity) || HasDominator(es, c.fact) then es else sorted
  {
    sorted := OfferShape(cfg, es, c);
    assert sorted[..|sorted|] == sorted;
  }

  /** With nothing cut, an offer keeps covered what was covered, and covers the
      newcomer unless its identity is a repeat. */
  lemma OfferKeepsCover(cfg: Config, es: seq<Entry>, c: Entry, x: Label)
    requires 0 < cfg.maxLabels && AllCanonical(es) && Canonical(c.fact) && Canonical(x)
    requires Offer(cfg, es, c).budgetPruned == 0
    requires SomeCovers(es, x) || (c.fact == x && !HasIdentity(es, c.pathIdentity))
    ensures SomeCovers(Offer(cfg, es, c).entries, x)
  {
    var sorted := UncutOffer(cfg, es, c);
    CoverStep(cfg, es, c, sorted, x);
    if HasDominator(es, c.fact) && c.fact == x {
      var d :| d in es && Dominates(d.fact, c.fact);
      assert Covers(d.fact, x);
    }
  }

  /** What one call does, exactly: with nothing cut, the newcomer is covered afterwards
      unless its identity is retained and nothing retained covers it. */
  lemma OfferCoversExactly(cfg: Config, es: seq<Entry>, c: Entry)
    requires 0 < cfg.maxLabels && AllCanonical(es) && Canonical(c.fact)
    requires Offer(cfg, es, c).budgetPruned == 0
    ensures SomeCovers(Offer(cfg, es, c).entries, c.fact)
            <==> !HasIdentity(es, c.pathIdentity) || SomeCovers(es, c.fact)
  {
    if !HasIdentity(es, c.pathIdentity) || SomeCovers(es, c.fact) {
      OfferKeepsCover(cfg, es, c, c.fact);
    }
  }

  lemma CoverAfter(cfg: Config, offers: seq<Entry>, archives: seq<seq<Entry>>, k: nat, x: Label)
    requires IsHistory(cfg, offers, archives) && AllCanonical(offers) && NoCut(cfg, offers, archives)
    requires k < |offers| && Canonical(x)
    requires SomeCovers(archives[k], x) || (offers[k].fact == x && Considered(offers, archives, k))
    ensures SomeCovers(archives[k + 1], x)
  {
    HistoryKeepsInvariant(cfg, offers, archives, k);
    assert Offered(cfg, offers, archives, k) && UncutAt(cfg, offers, archives, k);
    assert offers[k] in offers;
    OfferKeepsCover(cfg, archives[k], offers[k], x);
  }

  /** With nothing cut, a considered label is covered from then on. */
  lemma {:induction false} ConsideredIsCovered(cfg: Config, offers: seq<Entry>, archives: seq<seq<Entry>>, i: nat, n: nat)
    requires IsHistory(cfg, offers, archives) && AllCanonical(offers) && NoCut(cfg, offers, archives)
    requires i < n <= |offers| && Considered(offers, archives, i)
    ensures SomeCovers(archives[n], offers[i].fact)
  {
    if i < n - 1 {
      ConsideredIsCovered(cfg, offers, archives, i, n - 1);
    }
    assert offers[i] in offers;
    CoverAfter(cfg, offers, archives, n - 1, offers[i].fact);
  }

  /** A repeated identity hides nothing as long as some considered label covers
      the label it came with. */
  predicate RepeatsAreCovered(offers: seq<Entry>, archives: seq<seq<Entry>>)
    requires |archives| == |offers| + 1
  {
    forall i | 0 <= i < |offers| ::
      Considered(offers, archives, i) || CoveredByConsidered(offers, archives, offers[i].fact)
  }

  predicate CoveredByConsidered(offers: seq<Entry>, archives: seq<seq<Entry>>, x: Label)
    requires |archives| == |offers| + 1
  {
    exists j | 0 <= j < |offers| :: Considered(offers, archives, j) && Covers(offers[j].fact, x)
  }

  lemma OfferedIsCovered(cfg: Config, offers: seq<Entry>, archives: seq<seq<Entry>>, i: nat)
    requires IsHistory(cfg, offers, archives) && AllCanonical(offers) && NoCut(cfg, offers, archives)
    requires RepeatsAreCovered(offers, archives) && i < |offers|
    ensures SomeCovers(archives[|offers|], offers[i].fact)
  {
    if Considered(offers, archives, i) {
      ConsideredIsCovered(cfg, offers, archives, i, |offers|);
    } else {
      var j :| 0 <= j < |offers| && Considered(offers, archives, j) && Covers(offers[j].fact, offers[i].fact);
      ConsideredIsCovered(cfg, offers, archives, j, |offers|);
      var e :| e in archives[|offers|] && Covers(e.fact, offers[j].fact);
      HistoryKeepsInvariant(cfg, offers, archives, |offers|);
      CoversTransitive(e.fact, offers[j].fact, offers[i].fact);
    }
  }

  function Above(labels: set<Label>, x: Label): set<Label> {
    set l | l in labels && Dominates(l, x)
  }

  /** A finite strict order: everything is covered by something undominated. */
  lemma {:induction false} FrontCovers(labels: set<Label>, x: Label) returns (y: Label)
    requires x in labels && forall l | l in labels :: Canonical(l)
    ensures y in Front(labels) && Covers(y, x)
    decreases Above(labels, x)
  {
    if l :| l in labels && Dominates(l, x) {
      forall m | m in labels && Dominates(m, l) ensures Dominates(m, x) {
        DominanceIsStrictOrder(m, l, x);
      }
      DominanceIsStrictOrder(l, l, l);
      assert Above(labels, l) <= Above(labels, x) && l in Above(labels, x) && l !in Above(labels, l);
      y := FrontCovers(labels, l);
      CoversTransitive(y, l, x);
    } else {
      y := x;
    }
  }

  /** An antichain drawn from the labels that covers all of them is their front. */
  lemma CoveringAntichainIsFront(es: seq<Entry>, labels: set<Label>)
    requires Antichain(es) && AllCanonical(es) && LabelsOf(es) <= labels
    requires forall x | x in labels :: Canonical(x) && SomeCovers(es, x)
    ensures LabelsOf(es) == Front(labels)
  {
    forall x | x in Front(labels) ensures x in LabelsOf(es) {
      var e :| e in es && Covers(e.fact, x);
      assert e.fact in LabelsOf(es);
    }
    forall l | l in LabelsOf(es) ensures l in Front(labels) {
      var e :| e in es && e.fact == l;
      forall x | x in labels ensures !Dominates(x, l) {
        var f :| f in es && Covers(f.fact, x);
        if Dominates(x, l) {
          CoversTransitive(f.fact, x, l);
        }
      }
    }
  }

  lemma CoveredMakesFront(cfg: Config, offers: seq<Entry>, archives: seq<seq<Entry>>)
    requires IsHistory(cfg, offers, archives) && AllCanonical(offers) && NoCut(cfg, offers, archives)
    requires RepeatsAreCovered(offers, archives)
    ensures LabelsOf(archives[|offers|]) == Front(LabelsOf(offers))
  {
    var es := archives[|offers|];
    HistoryKeepsInvariant(cfg, offers, archives, |offers|);
    forall l | l in LabelsOf(es) ensures l in LabelsOf(offers) {
      var e :| e in es && e.fact == l;
      var i := RetainedWasConsidered(cfg, offers, archives, |offers|, e);
      assert offers[i] in offers;
    }
    forall x | x in LabelsOf(offers) ensures Canonical(x) && SomeCovers(es, x) {
      var e :| e in offers && e.fact == x;
      var i :| 0 <= i < |offers| && offers[i] == e;
      OfferedIsCovered(cfg, offers, archives, i);
    }
    CoveringAntichainIsFront(es, LabelsOf(offers));
  }

  lemma FrontMeansCovered(cfg: Config, offers: seq<Entry>, archives: seq<seq<Entry>>)
    requires IsHistory(cfg, offers, archives) && AllCanonical(offers)
    requires LabelsOf(archives[|offers|]) == Front(LabelsOf(offers))
    ensures RepeatsAreCovered(offers, archives)
  {
    forall i | 0 <= i < |offers| ensures CoveredByConsidered(offers, archives, offers[i].fact) {
      assert offers[i] in offers;
      var y := FrontCovers(LabelsOf(offers), offers[i].fact);
      assert y in LabelsOf(archives[|offers|]);
      var e :| e in archives[|offers|] && e.fact == y;
      var j := RetainedWasConsidered(cfg, offers, archives, |offers|, e);
      assert Considered(offers, archives, j) && Covers(offers[j].fact, offers[i].fact);
    }
  }

  /** With nothing cut, the retained labels are the Pareto front of all labels
      offered exactly when no repeated identity hid a label nothing else covers. */
  lemma RetainedIsParetoFront(cfg: Config, offers: seq<Entry>, archives: seq<seq<Entry>>)
    requires IsHistory(cfg, offers, archives) && AllCanonical(offers) && NoCut(cfg, offers, archives)
    ensures LabelsOf(archives[|offers|]) == Front(LabelsOf(offers)) <==> RepeatsAreCovered(offers, archives)
  {
    if RepeatsAreCovered(offers, archives) {
      CoveredMakesFront(cfg, offers, archives);
    }
    if LabelsOf(archives[|offers|]) == Front(LabelsOf(offers)) {
      FrontMeansCovered(cfg, offers, archives);
    }
  }

  lemma ConsistentIdentitiesAreCovered(cfg: Config, offers: seq<Entry>, archives: seq<seq<Entry>>)
    requires IsHistory(cfg, offers, archives) && IdentityDeterminesLabel(offers)
    ensures RepeatsAreCovered(offers, archives)
  {
    forall i | 0 <= i < |offers| && !Considered(offers, archives, i)
      ensures CoveredByConsidered(offers, archives, offers[i].fact)
    {
      var e :| e in archives[i] && e.pathIdentity == offers[i].pathIdentity;
      var j := RetainedWasConsidered(cfg, offers, archives, i, e);
      assert Considered(offers, archives, j) && Covers(offers[j].fact, offers[i].fact);
    }
  }

  /** Two histories that saw the same labels, in whatever order, and cut none
      retain the same labels. */
  lemma ArrivalOrderIsIrrelevant(cfg: Config, offers: seq<Entry>, archives: seq<seq<Entry>>,
                                 offers': seq<Entry>, archives': seq<seq<Entry>>)
    requires IsHistory(cfg, offers, archives) && AllCanonical(offers) && NoCut(cfg, offers, archives)
    requires IsHistory(cfg, offers', archives') && AllCanonical(offers') && NoCut(cfg, offers', archives')
    requires IdentityDeterminesLabel(offers) && IdentityDeterminesLabel(offers')
    requires LabelsOf(offers) == LabelsOf(offers')
    ensures LabelsOf(archives[|offers|]) == LabelsOf(archives'[|offers'|])
  {
    ConsistentIdentitiesAreCovered(cfg, offers, archives);
    ConsistentIdentitiesAreCovered(cfg, offers', archives');
    RetainedIsParetoFront(cfg, offers, archives);
    RetainedIsParetoFront(cfg, offers', archives');
  }

  // ---- truncation ----------------------------------------------------------

  /** Lexicographically no worse on uncovered facets, distance, depth and roles. */
  predicate NoWorse(cfg: Config, a: Label, b: Label) {
    LexLe(Rank(cfg.requiredFacets, a), Rank(cfg.requiredFacets, b))
  }

  lemma NoWorseTransitive(cfg: Config, a: Label, b: Label, c: Label)
    requires NoWorse(cfg, a, b) && NoWorse(cfg, b, c)
    ensures NoWorse(cfg, a, c)
  {
    LexTransitive(Rank(cfg.requiredFacets, a), Rank(cfg.requiredFacets, b), Rank(cfg.requiredFacets, c));
  }

  lemma SubsetNoLarger<T>(a: set<T>, b: set<T>)
    requires a <= b
    ensures |a| <= |b|
  {
    assert b == a + (b - a);
  }

  lemma CoveringIsNoWorse(cfg: Config, a: Label, b: Label)
    requires Covers(a, b)
    ensures NoWorse(cfg, a, b)
  {
    SubsetNoLarger(cfg.requiredFacets - a.coveredFacets, cfg.requiredFacets - b.coveredFacets);
    SubsetNoLarger(b.evidenceRoles, a.evidenceRoles);
    LexPointwise(Rank(cfg.requiredFacets, a), Rank(cfg.requiredFacets, b));
  }

  lemma KeyOrderIsNoWorse(cfg: Config, a: Entry, b: Entry)
    requires KeyLe(cfg.requiredFacets, a, b)
    ensures NoWorse(cfg, a.fact, b.fact)
  {
    var ka, kb := SortKey(cfg.requiredFacets, a), SortKey(cfg.requiredFacets, b);
    LexPrefix(ka, kb, 4);
    assert ka[..4] == Rank(cfg.requiredFacets, a.fact) && kb[..4] == Rank(cfg.requiredFacets, b.fact);
  }

  /** The head of a sorted list is no worse than any of its entries. */
  lemma HeadIsNoWorse(cfg: Config, es: seq<Entry>, e: Entry)
    requires SortedEntries(cfg.requiredFacets, es) && e in es
    ensures NoWorse(cfg, es[0].fact, e.fact)
  {
    var i :| 0 <= i < |es| && es[i] == e;
    if i == 0 {
      LexReflexive(Rank(cfg.requiredFacets, e.fact));
    } else {
      KeyOrderIsNoWorse(cfg, es[0], es[i]);
    }
  }

  predicate HeadNoWorse(cfg: Config, es: seq<Entry>, x: Label) {
    es != [] && NoWorse(cfg, es[0].fact, x)
  }

  lemma MergedHead(cfg: Config, es: seq<Entry>, c: Entry, sorted: seq<Entry>, x: Label)
    requires Merged(cfg, es, c, sorted)
    requires HeadNoWorse(cfg, es, x) || c.fact == x
    ensures HeadNoWorse(cfg, sorted, x)
  {
    HeadIsNoWorse(cfg, sorted, c);
    if HeadNoWorse(cfg, es, x) {
      var y := es[0];
      assert y in es;
      if Dominates(c.fact, y.fact) {
        CoveringIsNoWorse(cfg, c.fact, y.fact);
        NoWorseTransitive(cfg, sorted[0].fact, c.fact, y.fact);
      } else {
        HeadIsNoWorse(cfg, sorted, y);
      }
      NoWorseTransitive(cfg, sorted[0].fact, y.fact, x);
    }
  }

  /** Whatever the budget, an offer leaves a head no worse than what the old head
      was no worse than, and no worse than a considered newcomer. */
  lemma OfferKeepsHead(cfg: Config, es: seq<Entry>, c: Entry, x: Label)
    requires 0 < cfg.maxLabels && SortedEntries(cfg.requiredFacets, es)
    requires HeadNoWorse(cfg, es, x) || (c.fact == x && !HasIdentity(es, c.pathIdentity))
    ensures HeadNoWorse(cfg, Offer(cfg, es, c).entries, x)
  {
    var sorted := OfferShape(cfg, es, c);
    if HasIdentity(es, c.pathIdentity) {
    } else if HasDominator(es, c.fact) {
      if !HeadNoWorse(cfg, es, x) {
        var d :| d in es && Dominates(d.fact, c.fact);
        CoveringIsNoWorse(cfg, d.fact, x);
        HeadIsNoWorse(cfg, es, d);
        NoWorseTransitive(cfg, es[0].fact, d.fact, x);
      }
    } else {
      MergedHead(cfg, es, c, sorted, x);
    }
  }

  lemma HeadStep(cfg: Config, offers: seq<Entry>, archives: seq<seq<Entry>>, n: nat, x: Label)
    requires IsHistory(cfg, offers, archives) && AllCanonical(offers) && n < |offers|
    requires HeadNoWorse(cfg, archives[n], x) || (Considered(offers, archives, n) && offers[n].fact == x)
    ensures HeadNoWorse(cfg, archives[n + 1], x)
  {
    HistoryKeepsInvariant(cfg, offers, archives, n);
    assert Offered(cfg, offers, archives, n);
    OfferKeepsHead(cfg, archives[n], offers[n], x);
  }

  lemma {:induction false} HeadBeatsConsidered(cfg: Config, offers: seq<Entry>, archives: seq<seq<Entry>>, i: nat, n: nat)
    requires IsHistory(cfg, offers, archives) && AllCanonical(offers)
    requires i < n <= |offers| && Considered(offers, archives, i)
    ensures HeadNoWorse(cfg, archives[n], offers[i].fact)
  {
    if i < n - 1 {
      HeadBeatsConsidered(cfg, offers, archives, i, n - 1);
    }
    HeadStep(cfg, offers, archives, n - 1, offers[i].fact);
  }

  /** Some considered label is no worse than x. */
  predicate MatchedByConsidered(cfg: Config, offers: seq<Entry>, archives: seq<seq<Entry>>, x: Label)
    requires |archives| == |offers| + 1
  {
    exists j | 0 <= j < |offers| :: Considered(offers, archives, j) && NoWorse(cfg, offers[j].fact, x)
  }

  /** Truncation never loses the best label: at any budget the head is no worse
      than x exactly when some considered label is. */
  lemma HeadIsBestExactly(cfg: Config, offers: seq<Entry>, archives: seq<seq<Entry>>, x: Label)
    requires IsHistory(cfg, offers, archives) && AllCanonical(offers)
    ensures HeadNoWorse(cfg, archives[|offers|], x) <==> MatchedByConsidered(cfg, offers, archives, x)
  {
    if MatchedByConsidered(cfg, offers, archives, x) {
      var j :| 0 <= j < |offers| && Considered(offers, archives, j) && NoWorse(cfg, offers[j].fact, x);
      HeadBeatsConsidered(cfg, offers, archives, j, |offers|);
      NoWorseTransitive(cfg, archives[|offers|][0].fact, offers[j].fact, x);
    }
    if HeadNoWorse(cfg, archives[|offers|], x) {
      var head := archives[|offers|][0];
      var j := RetainedWasConsidered(cfg, offers, archives, |offers|, head);
      assert Considered(offers, archives, j) && NoWorse(cfg, offers[j].fact, x);
    }
  }

  /** If identities determine labels, the head is no worse than every label offered. */
  lemma ConsistentIdentitiesKeepTheBest(cfg: Config, offers: seq<Entry>, archives: seq<seq<Entry>>, i: nat)
    requires IsHistory(cfg, offers, archives) && AllCanonical(offers)
    requires IdentityDeterminesLabel(offers) && i < |offers|
    ensures HeadNoWorse(cfg, archives[|offers|], offers[i].fact)
  {
    var x := offers[i].fact;
    ConsistentIdentitiesAreCovered(cfg, offers, archives);
    LexReflexive(Rank(cfg.requiredFacets, x));
    if !Considered(offers, archives, i) {
      var j :| 0 <= j < |offers| && Considered(offers, archives, j) && Covers(offers[j].fact, x);
      CoveringIsNoWorse(cfg, offers[j].fact, x);
    }
    HeadIsBestExactly(cfg, offers, archives, x);
  }

  // ---- whole runs ----------------------------------------------------------

  /** Both laws for the archive of any node in any run of the replay. */
  lemma RunsKeepFrontAndBest(cfg: Config, obs: seq<Observation>, states: seq<Replay>, node: string)
    returns (archives: seq<seq<Entry>>)
    requires IsRun(cfg, obs, states) && IdentityDeterminesLabel(OffersAt(cfg, obs, node))
    ensures IsHistory(cfg, OffersAt(cfg, obs, node), archives)
    ensures NoCut(cfg, OffersAt(cfg, obs, node), archives) ==>
            LabelsOf(states[|obs|].At(node)) == Front(LabelsOf(OffersAt(cfg, obs, node)))
    ensures forall x | x in LabelsOf(OffersAt(cfg, obs, node)) :: HeadNoWorse(cfg, states[|obs|].At(node), x)
  {
    var offers := OffersAt(cfg, obs, node);
    archives := NodeHistory(cfg, obs, states, node);
    OffersAreCanonical(cfg, obs, node);
    ConsistentIdentitiesAreCovered(cfg, offers, archives);
    if NoCut(cfg, offers, archives) {
      RetainedIsParetoFront(cfg, offers, archives);
    }
    forall x | x in LabelsOf(offers) ensures HeadNoWorse(cfg, states[|obs|].At(node), x) {
      var e :| e in offers && e.fact == x;
      var i :| 0 <= i < |offers| && offers[i] == e;
      ConsistentIdentitiesKeepTheBest(cfg, offers, archives, i);
    }
  }

  // ---- a repeat on its own -------------------------------------------------

  function EntryState(distance: real): State {
    State("chunk", "n", "n", ["n"], [], [], Absent, Absent, 0, distance, 0.0, {}, {}, [])
  }

  function Pop(hash: PathKey -> string, distance: real, admitted: bool, pruned: nat): Observation {
    var s := EntryState(distance);
    Observation(admitted, DOMINANCE_REPLAY_PROTOCOL_VERSION, "n", LabelFact(s), s, QueueKey({}, s), hash(PathKeyOf(s)),
                8, {}, pruned, 0, 0, 0, 0)
  }

  lemma PopIsWellFormed(hash: PathKey -> string, distance: real, admitted: bool, pruned: nat)
    requires distance >= 0.0 && hash(PathKeyOf(EntryState(distance))) != ""
    ensures WellFormed(Config({}, 8, hash), Pop(hash, distance, admitted, pruned))
  {
    LabelFactCanonical(EntryState(distance));
  }

  lemma FirstIsAdmitted(cfg: Config, c: Entry)
    requires 0 < cfg.maxLabels
    ensures Offer(cfg, [], c) == Outcome([c], true, 0, 0)
  {
    assert Undominated(c.fact, []) + [c] == [c];
    assert [c][..0] == [];
    assert SortEntries(cfg.requiredFacets, [c]) == [c];
    assert [c][..1] == [c];
  }

  /** A second pop of the same path, after the first was admitted to an empty archive. */
  lemma RepeatIsTurnedAway(hash: PathKey -> string, cfg: Config, first: Observation, second: Observation)
    requires cfg == Config({}, 8, hash) && forall k :: hash(k) != ""
    requires first == Pop(hash, 1.0, true, 0) && second == Pop(hash, 0.0, false, 1)
    ensures WellFormed(cfg, first) && WellFormed(cfg, second)
    ensures Offer(cfg, [], EntryOf(first)) == Outcome([EntryOf(first)], true, 0, 0)
    ensures Offer(cfg, [EntryOf(first)], EntryOf(second)) == Outcome([EntryOf(first)], false, 1, 0)
  {
    PopIsWellFormed(hash, 1.0, true, 0);
    PopIsWellFormed(hash, 0.0, false, 1);
    FirstIsAdmitted(cfg, EntryOf(first));
    assert EntryOf(first) in [EntryOf(first)] && HasIdentity([EntryOf(first)], second.pathIdentity);
  }

  /** The dominance replay by itself accepts observations whose repeated identity
      hides the front, under any hash function: the second path is the first one
      over again, shorter, and is turned away. */
  lemma RepeatCanHideTheFront(hash: PathKey -> string)
    returns (cfg: Config, obs: seq<Observation>, states: seq<Replay>)
    requires forall k :: hash(k) != ""
    ensures cfg.stableHash == hash && IsRun(cfg, obs, states) && AllReplay(cfg, obs, states)
    ensures states[|obs|].labelBudgetCount == 0
    ensures LabelsOf(states[|obs|].At("n")) != Front(LabelsOf(OffersAt(cfg, obs, "n")))
  {
    cfg := Config({}, 8, hash);
    var worse, better := Pop(hash, 1.0, true, 0), Pop(hash, 0.0, false, 1);
    RepeatIsTurnedAway(hash, cfg, worse, better);
    var kept := EntryOf(worse);
    var middle, last := Replay(map["n" := [kept]], 0, 0), Replay(map["n" := [kept]], 1, 0);
    obs, states := [worse, better], [START, middle, last];
    assert Stepped(cfg, obs, states, 0) && Stepped(cfg, obs, states, 1);
    assert Replays(cfg, states[0], obs[0]) && Replays(cfg, states[1], obs[1]);
    TwoSteps(cfg, obs, states);
    TwoOffers(cfg, worse, better);
    UnitLabels();
    assert kept in last.At("n") && kept.fact in LabelsOf(last.At("n"));
    assert EntryOf(better).fact in LabelsOf(OffersAt(cfg, obs, "n"));
  }

  lemma TwoSteps(cfg: Config, obs: seq<Observation>, states: seq<Replay>)
    requires |obs| == 2 && |states| == 3 && states[0] == START
    requires Stepped(cfg, obs, states, 0) && Stepped(cfg, obs, states, 1)
    requires Replays(cfg, states[0], obs[0]) && Replays(cfg, states[1], obs[1])
    ensures IsRun(cfg, obs, states) && AllReplay(cfg, obs, states)
  {
    forall i | 0 <= i < 2 ensures Stepped(cfg, obs, states, i) {
      if i == 0 {
      } else {
        assert i == 1;
      }
    }
  }

  lemma TwoOffers(cfg: Config, a: Observation, b: Observation)
    requires Concerns(cfg, a, "n") && Concerns(cfg, b, "n")
    ensures OffersAt(cfg, [a, b], "n") == [EntryOf(a), EntryOf(b)]
    ensures EntryOf(b).fact in LabelsOf(OffersAt(cfg, [a, b], "n"))
  {
    var one, two := [a], [a, b];
    assert one[..|one| - 1] == [] && OffersAt(cfg, one, "n") == [EntryOf(a)];
    assert two[..|two| - 1] == one && OffersAt(cfg, two, "n") == [EntryOf(a)] + [EntryOf(b)];
    assert EntryOf(b) in OffersAt(cfg, [a, b], "n");
  }

  lemma UnitLabels()
    ensures Dominates(LabelFact(EntryState(0.0)), LabelFact(EntryState(1.0)))
  {
    UnitsOnGrid(0.0, 0);
    UnitsOnGrid(1.0, 1000000);
    Round6Fixes(0.0);
    Round6Fixes(1.0);
  }
}
