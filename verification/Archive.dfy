/** The per-node Pareto archive: a bounded list of labels that every popped state
    is offered to, and the replay that recomputes each admission decision. */
module Archive {
  import opened Ordering
  import opened Labels
  import opened EntryOrder

  const DOMINANCE_REPLAY_PROTOCOL_VERSION := "pareto_label_admission_replay_v2"

  /** stableHash stands for SHA-256 over canonical JSON: every result below holds
      for any function, collisions included. */
  datatype Config = Config(requiredFacets: set<string>, maxLabels: int, stableHash: PathKey -> string)

  /** A recorded pop. An item that is not a record, or whose fields have the wrong
      types, is Malformed. */
  datatype Observation =
    | Malformed(admitted: bool)
    | Observation(
        admitted: bool,
        protocolVersion: string,
        nodeId: string,
        fact: Label,
        candidateState: State,
        queueKey: seq<real>,
        pathIdentity: string,
        maxLabels: int,
        requiredFacets: set<string>,
        dominancePrunedDelta: int,
        labelBudgetPrunedDelta: int,
        frontierSerial: int,
        queueSizeBeforePop: int,
        queueSizeAfterPop: int)

  predicate WellFormed(cfg: Config, o: Observation) {
    && o.Observation?
    && o.protocolVersion == DOMINANCE_REPLAY_PROTOCOL_VERSION
    && o.nodeId != ""
    && StructureValid(o.candidateState, false)
    && LabelFactValid(o.fact)
    && o.pathIdentity != ""
    && o.maxLabels > 0
    && o.maxLabels == cfg.maxLabels
    && o.requiredFacets == cfg.requiredFacets
    && o.nodeId == o.candidateState.nodeId
    && o.fact == LabelFact(o.candidateState)
    && o.queueKey == QueueKey(cfg.requiredFacets, o.candidateState)
    && o.pathIdentity == cfg.stableHash(PathKeyOf(o.candidateState))
  }

  predicate Concerns(cfg: Config, o: Observation, node: string) {
    WellFormed(cfg, o) && o.nodeId == node
  }

  function EntryOf(o: Observation): Entry
    requires o.Observation?
  {
    Entry(o.fact, o.queueKey, o.pathIdentity)
  }

  // ---- one offer to one archive --------------------------------------------

  datatype Outcome = Outcome(entries: seq<Entry>, admitted: bool, dominancePruned: nat, budgetPruned: nat)

  function Undominated(c: Label, es: seq<Entry>): (r: seq<Entry>)
    ensures forall e :: e in r <==> e in es && !Dominates(c, e.fact)
    ensures |r| <= |es|
  {
    if es == [] then []
    else (if Dominates(c, es[0].fact) then [] else [es[0]]) + Undominated(c, es[1..])
  }

  predicate HasIdentity(es: seq<Entry>, identity: string) {
    exists e | e in es :: e.pathIdentity == identity
  }

  predicate HasDominator(es: seq<Entry>, l: Label) {
    exists e | e in es :: Dominates(e.fact, l)
  }

  /** Keep what fits the budget of the list that the newcomer c was sorted into in
      place of the entries of es it dominates. The newcomer is admitted if it is
      not among the entries cut, that is, if it stands before the cut. */
  function Truncate(cfg: Config, es: seq<Entry>, c: Entry, sorted: seq<Entry>): Outcome
    requires 0 < cfg.maxLabels && 0 < |sorted| <= |es| + 1
  {
    var size := if |sorted| <= cfg.maxLabels then |sorted| else cfg.maxLabels;
    Outcome(sorted[..size], Position(sorted, c) < size, |es| + 1 - |sorted|, |sorted| - size)
  }

  function Offer(cfg: Config, es: seq<Entry>, c: Entry): Outcome
    requires 0 < cfg.maxLabels
  {
    if HasIdentity(es, c.pathIdentity) || HasDominator(es, c.fact) then
      Outcome(es, false, 1, 0)
    else
      Truncate(cfg, es, c, SortEntries(cfg.requiredFacets, Undominated(c.fact, es) + [c]))
  }

  /** The replay's running state: the list kept per node and the two counters. */
  datatype Replay = Replay(retained: map<string, seq<Entry>>, dominanceCount: nat, labelBudgetCount: nat)
  {
    function At(node: string): seq<Entry> {
      if node in retained then retained[node] else []
    }
  }

  function Decide(cfg: Config, r: Replay, o: Observation): Outcome
    requires WellFormed(cfg, o)
  {
    Offer(cfg, r.At(o.nodeId), EntryOf(o))
  }

  function Step(cfg: Config, r: Replay, o: Observation): Replay {
    if !WellFormed(cfg, o) then r else
      var outcome := Decide(cfg, r, o);
      Replay(r.retained[o.nodeId := outcome.entries],
             r.dominanceCount + outcome.dominancePruned,
             r.labelBudgetCount + outcome.budgetPruned)
  }

  const START := Replay(map[], 0, 0)

  /** `states` are the running states of a replay: before the first observation,
      and after each one. They are determined by the observations. */
  ghost predicate IsRun(cfg: Config, obs: seq<Observation>, states: seq<Replay>) {
    && |states| == |obs| + 1
    && states[0] == START
    && forall i | 0 <= i < |obs| :: Stepped(cfg, obs, states, i)
  }

  ghost predicate Stepped(cfg: Config, obs: seq<Observation>, states: seq<Replay>, i: nat)
    requires i < |obs| && i + 1 < |states|
  {
    states[i + 1] == Step(cfg, states[i], obs[i])
  }

  /** Whether the recorded decision is the one just computed. */
  predicate Records(o: Observation, outcome: Outcome) {
    && o.Observation?
    && o.admitted == outcome.admitted
    && o.dominancePrunedDelta == outcome.dominancePruned
    && o.labelBudgetPrunedDelta == outcome.budgetPruned
  }

  /** The observation is well formed and records exactly what the archive, in the
      state the run has reached, decides. */
  predicate Replays(cfg: Config, r: Replay, o: Observation) {
    WellFormed(cfg, o) && Records(o, Decide(cfg, r, o))
  }

  predicate AllReplay(cfg: Config, obs: seq<Observation>, states: seq<Replay>) {
    |states| == |obs| + 1 && forall i {:trigger states[i]} | 0 <= i < |obs| :: Replays(cfg, states[i], obs[i])
  }

  /** Where the run over the observations ends, and whether all of them replay. */
  function Final(cfg: Config, obs: seq<Observation>): Replay {
    if obs == [] then START else Step(cfg, Final(cfg, obs[..|obs| - 1]), obs[|obs| - 1])
  }

  predicate Accepted(cfg: Config, obs: seq<Observation>) {
    obs == [] ||
    (Accepted(cfg, obs[..|obs| - 1]) && Replays(cfg, Final(cfg, obs[..|obs| - 1]), obs[|obs| - 1]))
  }

  /** The offers a run makes to one node, in order. */
  function OffersAt(cfg: Config, obs: seq<Observation>, node: string): (offers: seq<Entry>)
  {
    if obs == [] then [] else
      var o := obs[|obs| - 1];
      var before := OffersAt(cfg, obs[..|obs| - 1], node);
      if Concerns(cfg, o, node) then before + [EntryOf(o)] else before
  }

  // ---- agreement with the recorded frontier --------------------------------

  function AdmittedOnes(obs: seq<Observation>): seq<Observation> {
    if obs == [] then []
    else AdmittedOnes(obs[..|obs| - 1]) + if obs[|obs| - 1].admitted then [obs[|obs| - 1]] else []
  }

  predicate RowAgrees(cfg: Config, o: Observation, row: Snapshot) {
    && o.Observation? && row.Snapshot?
    && CandidateMatches(o.candidateState, row.popped)
    && o.nodeId == row.popped.nodeId
    && o.fact == LabelFact(row.popped)
    && o.requiredFacets == cfg.requiredFacets
    && o.maxLabels == cfg.maxLabels
    && row.key == QueueKey(cfg.requiredFacets, row.popped)
    && o.queueKey == QueueKey(cfg.requiredFacets, row.popped)
    && o.pathIdentity == cfg.stableHash(PathKeyOf(row.popped))
  }

  predicate RowsAgree(cfg: Config, admitted: seq<Observation>, rows: seq<Snapshot>) {
    && |admitted| == |rows|
    && forall k | 0 <= k < |rows| :: RowAgrees(cfg, admitted[k], rows[k])
  }

  // ---- the raw ranking fact ------------------------------------------------

  predicate RankedBefore(a: Entry, b: Entry) {
    LexLe(a.queueKey + CodePoints(a.pathIdentity), b.queueKey + CodePoints(b.pathIdentity))
  }

  function BestEntry(es: seq<Entry>): (best: Entry)
    requires es != []
    ensures best in es
    ensures forall e | e in es :: RankedBefore(best, e)
  {
    var n := |es| - 1;
    LexReflexive(es[n].queueKey + CodePoints(es[n].pathIdentity));
    if n == 0 then es[0] else
      var best := BestEntry(es[..n]);
      LexTotal(best.queueKey + CodePoints(best.pathIdentity), es[n].queueKey + CodePoints(es[n].pathIdentity));
      assert forall e | e in es :: e in es[..n] || e == es[n];
      if RankedBefore(best, es[n]) then best else
        RankedFirst(es[..n], best, es[n]);
        es[n]
  }

  lemma RankedFirst(es: seq<Entry>, best: Entry, e: Entry)
    requires forall x | x in es :: RankedBefore(best, x)
    requires RankedBefore(e, best)
    ensures forall x | x in es :: RankedBefore(e, x)
  {
    forall x | x in es ensures RankedBefore(e, x) {
      LexTransitive(e.queueKey + CodePoints(e.pathIdentity), best.queueKey + CodePoints(best.pathIdentity),
                    x.queueKey + CodePoints(x.pathIdentity));
    }
  }
}
