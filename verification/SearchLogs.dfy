/** The logs the frontier replay accepts, in closed form: every clause speaks of the log
    alone, none of a heap, a dictionary or a running state. */
module SearchLogs {
  import opened Archive
  import opened Basics
  import opened Frontier
  import opened FrontierLaws
  import opened FrontierOutcomes
  import opened FrontierPaths
  import opened Labels
  import opened Options
  import opened Ordering
  import opened RecordedFields
  import opened Rounding

  // ---- the enqueue log -----------------------------------------------------

  /** Event k is numbered, sound, and keyed by its state. */
  predicate EventSound(log: Log, k: nat)
    requires k < |log.enqueues|
  {
    var e := log.enqueues[k];
    && e.protocolVersion == "frontier_heap_enqueue_key_serial_v1" && e.serial == k
    && StructureValid(e.candidateState, false)
    && KeyedAs(e.queueKey, log.requiredFacets, e.candidateState)
  }

  /** Event k enters the search at the k-th declared entry. */
  predicate EntersAt(log: Log, k: nat)
    requires k < |log.enqueues| && k < |log.initialEntryIds|
  {
    var e := log.enqueues[k];
    && e.kind == InitialEntry && e.edgeId == None && e.parentPathIdentity == None
    && e.candidateState.path == [log.initialEntryIds[k]] && e.candidateState.pathEdgeIds == []
  }

  /** Event k takes the edge from the popped state. */
  predicate Takes(log: Log, k: nat, popped: State, edge: string)
    requires k < |log.enqueues|
  {
    var e := log.enqueues[k];
    && e.kind == ExpandedEdge && e.edgeId == Some(edge)
    && popped.path <= e.candidateState.path && |e.candidateState.path| == |popped.path| + 1
    && e.candidateState.pathEdgeIds == popped.pathEdgeIds + [edge]
    && var identity := log.stableHash(PathKey(popped.layer, popped.nodeId, popped.rootNodeId, popped.path,
                                              popped.pathEdgeIds, popped.entryParentRefs));
    && e.parentPathIdentity == Some(identity)
    && |identity| == 64 && forall c | c in identity :: c in "0123456789abcdefABCDEF"
  }

  /** How many events are queued when observation i is popped: the entries, and the
      expansions of the labels admitted before. */
  function QueuedBefore(log: Log, i: nat): nat
    requires i <= |log.observations| && AdmittedCount(log.observations[..i]) <= |log.labels|
  {
    |log.initialEntryIds| + TotalExpansions(log.labels[..AdmittedCount(log.observations[..i])])
  }

  // ---- one observation -----------------------------------------------------

  /** Smaller key at the first of the four positions where they differ, or the same key
      and the smaller serial. */
  predicate FirstInLine(log: Log, j: nat, k: nat)
    requires j < |log.enqueues| && k < |log.enqueues|
  {
    var a, b := log.enqueues[j].queueKey, log.enqueues[k].queueKey;
    NumbersBefore(a, b) || (a == b && j < k)
  }

  /** Event k is queued and not popped when observation i is made. */
  predicate Waiting(log: Log, i: nat, k: nat)
    requires i <= |log.observations| && AdmittedCount(log.observations[..i]) <= |log.labels|
  {
    && k < QueuedBefore(log, i)
    && forall m | 0 <= m < i :: log.observations[m].Observation? ==> log.observations[m].frontierSerial != k
  }

  /** Observation i pops the first event in line and records it. */
  predicate PopsFirst(log: Log, i: nat)
    requires i < |log.observations| && AdmittedCount(log.observations[..i]) <= |log.labels|
    requires QueuedBefore(log, i) <= |log.enqueues|
  {
    var o := log.observations[i];
    && o.Observation? && o.frontierSerial >= 0
    && Waiting(log, i, o.frontierSerial)
    && (forall k: nat | k < |log.enqueues| && Waiting(log, i, k) && k != o.frontierSerial ::
          FirstInLine(log, o.frontierSerial, k))
    && o.candidateState == log.enqueues[o.frontierSerial].candidateState
    && o.queueKey == log.enqueues[o.frontierSerial].queueKey
    && o.queueSizeBeforePop == QueuedBefore(log, i) - i
    && o.queueSizeAfterPop == QueuedBefore(log, i) - i - 1
  }

  /** Row and label j report observation i. */
  predicate Reports(log: Log, i: nat, j: nat)
    requires i < |log.observations| && log.observations[i].Observation?
    requires j < |log.labels| == |log.frontierRows|
  {
    var o, row := log.observations[i], log.frontierRows[j];
    && row.Snapshot?
    && CandidateMatches(o.candidateState, row.popped)
    && LabelMatches(log.labels[j], row.popped, log.layer)
    && row.key == o.queueKey && row.serial == o.frontierSerial
    && row.queueSizeBeforePop == o.queueSizeBeforePop && row.queueSizeAfterPop == o.queueSizeAfterPop
  }

  /** Partial distances: each is the one before plus an edge, rounded. */
  predicate RoundedSums(start: real, edges: seq<real>, sums: seq<real>) {
    && |sums| == |edges| + 1 && sums[0] == start
    && forall x | 0 <= x < |edges| :: sums[x + 1] == Round6(sums[x] + edges[x])
  }

  /** Row t holds the entry at this root. */
  predicate EntryRow(log: Log, t: nat, root: string) {
    && t < |log.frontierRows| && log.frontierRows[t].Snapshot?
    && log.frontierRows[t].popped.pathEdgeIds == [] && log.frontierRows[t].popped.rootNodeId == root
  }

  /** Row j's distance is that of its root's entry, reported no later, plus its edges. */
  ghost predicate Distanced(log: Log, j: nat)
    requires j < |log.frontierRows| && log.frontierRows[j].Snapshot?
  {
    var popped := log.frontierRows[j].popped;
    popped.pathEdgeDistances.Present? &&
    exists t, sums | 0 <= t <= j ::
      && EntryRow(log, t, popped.rootNodeId)
      && RoundedSums(log.frontierRows[t].popped.distanceSoFar, popped.pathEdgeDistances.values, sums)
      && Near(popped.distanceSoFar, sums[|sums| - 1])
  }

  /** The expansions of label j are the events from `next` on. */
  predicate ExpandsInto(log: Log, j: nat, next: nat)
    requires j < |log.labels| == |log.frontierRows| && log.frontierRows[j].Snapshot?
  {
    var expanded := log.labels[j].expandedEdgeIds;
    && next + |expanded| <= |log.enqueues|
    && forall at | 0 <= at < |expanded| :: Takes(log, next + at, log.frontierRows[j].popped, expanded[at])
  }

  ghost predicate ObservedRightly(log: Log, i: nat)
    requires i < |log.observations| && |log.labels| == |log.frontierRows|
  {
    var j := AdmittedCount(log.observations[..i]);
    && j <= |log.labels| && QueuedBefore(log, i) <= |log.enqueues|
    && PopsFirst(log, i)
    && (log.observations[i].admitted ==>
          && j < |log.labels|
          && Reports(log, i, j) && Distanced(log, j) && ExpandsInto(log, j, QueuedBefore(log, i)))
  }

  // ---- the whole log -------------------------------------------------------

  /** The edges taken by the events behind the entries, in order. */
  function TakenEdges(log: Log): seq<string> {
    if |log.enqueues| < |log.initialEntryIds| then [] else
      seq(|log.enqueues| - |log.initialEntryIds|, x requires 0 <= x < |log.enqueues| - |log.initialEntryIds| =>
        var edge := log.enqueues[|log.initialEntryIds| + x].edgeId; if edge.Some? then edge.value else "")
  }

  predicate TotalsRight(log: Log) {
    && |log.labels| == |log.frontierRows| == AdmittedCount(log.observations)
    && |log.enqueues| == |log.initialEntryIds| + TotalExpansions(log.labels)
    && log.terminal.entryCount == |log.initialEntryIds|
    && log.terminal.frontierExpansionCount == TotalExpansions(log.labels)
    && log.terminal.frontierRemainingCount == |log.enqueues| - |log.observations|
    && log.poppedFrontierState
       == if log.frontierRows != [] && log.frontierRows[0].Snapshot? then Some(log.frontierRows[0].popped) else None
  }

  /** A record of a best-first search. */
  ghost predicate SearchLog(log: Log) {
    && log.layer != "" && "" !in log.initialEntryIds && Distinct(log.initialEntryIds)
    && TotalsRight(log)
    && (forall k {:trigger EventSound(log, k)} | 0 <= k < |log.enqueues| :: EventSound(log, k))
    && (forall k {:trigger EntersAt(log, k)} | 0 <= k < |log.initialEntryIds| :: EntersAt(log, k))
    && (forall i {:trigger ObservedRightly(log, i)} | 0 <= i < |log.observations| :: ObservedRightly(log, i))
    && InOrderOfAppearance(TakenEdges(log), log.stepExpandedEdgeIds)
  }

  // ---- the order of the line -----------------------------------------------

  lemma BeforeExactly(log: Log, j: nat, k: nat)
    requires j < |log.enqueues| && k < |log.enqueues|
    requires |log.enqueues[j].queueKey| == |log.enqueues[k].queueKey|
    ensures Before(log, j, k) <==> j == k || FirstInLine(log, j, k)
  {
    var a, b := log.enqueues[j].queueKey, log.enqueues[k].queueKey;
    LexNumbers(a, b, [j as real], [k as real]);
    IntegersOrdered(j, k);
    if j == k {
      LexReflexive(a + [j as real]);
    }
  }

  lemma IntegersOrdered(m: int, n: int)
    ensures LexLe([m as real], [n as real]) <==> m <= n
  {
    assert [m as real][1..] == [] && [n as real][1..] == [];
  }

  lemma KeysAreAlike(log: Log, k: nat)
    requires Prechecks(log) && k < |log.enqueues|
    ensures |log.enqueues[k].queueKey| == 4
  {
    assert EnqueueValid(log, k);
  }

  /** Best first: an event that was queued when another was popped, and is popped later,
      comes later in line. */
  lemma PopsAreBestFirst(log: Log, states: seq<Progress>, i: nat, m: nat)
    requires Completes(log, states) && i < m < |log.observations|
    ensures log.observations[i].Observation? && log.observations[m].Observation?
    ensures var j, k := log.observations[i].frontierSerial, log.observations[m].frontierSerial;
            && 0 <= j < |log.enqueues| && 0 <= k < |log.enqueues|
            && log.observations[i].queueKey == log.enqueues[j].queueKey
            && log.observations[m].queueKey == log.enqueues[k].queueKey
            && (k < states[i].next ==> FirstInLine(log, j, k))
  {
    var n := |log.observations|;
    var j := PopFacts(log, states, n, i);
    var k := PopFacts(log, states, n, m);
    KeysAreAlike(log, j);
    KeysAreAlike(log, k);
    BeforeExactly(log, j, k);
    PopsComeInOrder(log, states, n, i, m);
    EarlierPopDiffers(log, states, n, i, m);
  }

  // ---- an accepted log is in closed form -----------------------------------

  lemma EventsAreSound(log: Log, k: nat)
    requires Prechecks(log) && k < |log.enqueues|
    ensures EventSound(log, k) && (k < |log.initialEntryIds| ==> EntersAt(log, k))
  {
    assert EnqueueValid(log, k);
    QueueKeyExactly(log.enqueues[k].queueKey, log.requiredFacets, log.enqueues[k].candidateState);
  }

  lemma CountsHold(log: Log, states: seq<Progress>, n: nat, i: nat)
    requires IsReplay(log, states, n) && i <= n
    ensures AdmittedCount(log.observations[..i]) == states[i].active <= |log.labels|
    ensures QueuedBefore(log, i) == states[i].next <= |log.enqueues|
  {
    CountsAlongTheRun(log, states, n, i);
    QueueIsExact(log, states, n, i);
  }

  lemma WaitingExactly(log: Log, states: seq<Progress>, n: nat, i: nat, k: nat)
    requires IsReplay(log, states, n) && i <= n
    ensures AdmittedCount(log.observations[..i]) <= |log.labels|
    ensures Waiting(log, i, k) <==> k in states[i].frontier
  {
    CountsHold(log, states, n, i);
    QueueIsExact(log, states, n, i);
    if k in PoppedSerials(log, i) {
      var m := PoppedWhen(log, i, k);
      assert log.observations[m] in log.observations;
    }
    if m :| 0 <= m < i && log.observations[m].Observation? && log.observations[m].frontierSerial == k {
      EarlierPops(log, i, m);
    }
  }

  lemma PopsAreFirst(log: Log, states: seq<Progress>, n: nat, i: nat)
    requires IsReplay(log, states, n) && i < n
    ensures AdmittedCount(log.observations[..i]) <= |log.labels| && QueuedBefore(log, i) <= |log.enqueues|
    ensures PopsFirst(log, i)
  {
    CountsHold(log, states, n, i);
    var j := PopFacts(log, states, n, i);
    QueueIsExact(log, states, n, i);
    WaitingExactly(log, states, n, i, j);
    forall k: nat | k < |log.enqueues| && Waiting(log, i, k) && k != j ensures FirstInLine(log, j, k) {
      WaitingExactly(log, states, n, i, k);
      assert Before(log, j, k);
      KeysAreAlike(log, j);
      KeysAreAlike(log, k);
      BeforeExactly(log, j, k);
    }
  }

  lemma AdmissionsAreReported(log: Log, states: seq<Progress>, n: nat, i: nat)
    requires IsReplay(log, states, n) && i < n && log.observations[i].admitted
    ensures log.observations[i].Observation? && states[i].active < |log.labels| == |log.frontierRows|
    ensures Reports(log, i, states[i].active)
  {
    assert Passes(log, states, i);
  }

  lemma RoundedSumsSnoc(start: real, front: seq<real>, last: real, before: seq<real>)
    requires RoundedSums(start, front, before)
    ensures RoundedSums(start, front + [last], before + [Round6(before[|front|] + last)])
  {
    var edges, sums := front + [last], before + [Round6(before[|front|] + last)];
    forall x | 0 <= x < |edges| ensures sums[x + 1] == Round6(sums[x] + edges[x]) {
      if x < |front| {
        assert before[x + 1] == Round6(before[x] + front[x]);
      }
    }
  }

  lemma {:induction false} RoundedSumsExist(start: real, edges: seq<real>) returns (sums: seq<real>)
    ensures RoundedSums(start, edges, sums) && sums[|edges|] == Accumulate(start, edges)
  {
    if edges == [] {
      sums := [start];
    } else {
      var front, last := edges[..|edges| - 1], edges[|edges| - 1];
      var before := RoundedSumsExist(start, front);
      RoundedSumsSnoc(start, front, last, before);
      assert edges == front + [last];
      sums := before + [Round6(before[|front|] + last)];
    }
  }

  lemma RoundedSumsFront(start: real, front: seq<real>, last: real, sums: seq<real>)
    requires RoundedSums(start, front + [last], sums)
    ensures RoundedSums(start, front, sums[..|front| + 1])
    ensures sums[|front| + 1] == Round6(sums[..|front| + 1][|front|] + last)
  {
    var edges := front + [last];
    forall x | 0 <= x < |front| ensures sums[x + 1] == Round6(sums[x] + front[x]) {
      assert edges[x] == front[x];
    }
    assert edges[|front|] == last;
  }

  lemma {:induction false} RoundedSumsExactly(start: real, edges: seq<real>, sums: seq<real>)
    requires RoundedSums(start, edges, sums)
    ensures sums[|edges|] == Accumulate(start, edges)
    decreases |edges|
  {
    if edges != [] {
      var front, last := SplitLast(edges);
      RoundedSumsFront(start, front, last, sums);
      RoundedSumsExactly(start, front, sums[..|front| + 1]);
      assert edges[..|edges| - 1] == front;
    }
  }

  /** The row that entered the root of an admitted label. */
  lemma EntryOfLabel(log: Log, states: seq<Progress>, n: nat, i: nat) returns (t: nat)
    requires IsReplay(log, states, n) && i < n && log.observations[i].admitted
    ensures states[i].active < |log.frontierRows| && log.frontierRows[states[i].active].Snapshot?
    ensures var popped := log.frontierRows[states[i].active].popped;
            && t <= states[i].active && EntryRow(log, t, popped.rootNodeId)
            && log.frontierRows[t].popped.distanceSoFar == EntryDistance(states[i].roots, popped)
  {
    var popped, expanded := AdmitFacts(log, states, n, i);
    if popped.pathEdgeIds == [] {
      t := states[i].active;
    } else {
      var d := FirstLink(log, states, n, i);
      RootsAreKnown(log, states, n, i, d);
      var when := RootsAreEntries(log, states, n, i, popped.rootNodeId);
      t := states[when].active;
      ActiveMonotone(log, states, n, when, i);
    }
  }

  lemma {:induction false} ActiveMonotone(log: Log, states: seq<Progress>, n: nat, t: nat, i: nat)
    requires IsReplay(log, states, n) && t <= i <= n
    ensures states[t].active <= states[i].active
    ensures t < i && log.observations[t].admitted ==> states[t].active < states[i].active
  {
    if t < i {
      ActiveMonotone(log, states, n, t, i - 1);
      ActiveGrows(log, states, n, i - 1);
    }
  }

  lemma LabelsAreDistanced(log: Log, states: seq<Progress>, n: nat, i: nat)
    requires IsReplay(log, states, n) && i < n && log.observations[i].admitted
    ensures states[i].active < |log.frontierRows| && log.frontierRows[states[i].active].Snapshot?
    ensures Distanced(log, states[i].active)
  {
    var popped, expanded := AdmitFacts(log, states, n, i);
    var t := EntryOfLabel(log, states, n, i);
    var sums := RoundedSumsExist(log.frontierRows[t].popped.distanceSoFar, popped.pathEdgeDistances.values);
  }

  lemma HashShape(text: string)
    ensures IsHash(text) <==> |text| == 64 && forall c | c in text :: c in "0123456789abcdefABCDEF"
  {
    forall c: char ensures ('0' <= c <= '9' || 'a' <= c <= 'f' || 'A' <= c <= 'F') <==> c in "0123456789abcdefABCDEF" {
      HexDigit(c);
    }
  }

  lemma HexDigit(c: char)
    ensures ('0' <= c <= '9' || 'a' <= c <= 'f' || 'A' <= c <= 'F') <==> c in "0123456789abcdefABCDEF"
  {
    var digits := "0123456789abcdefABCDEF";
    if '0' <= c <= '9' { assert digits[c as int - '0' as int] == c; }
    if 'a' <= c <= 'f' { assert digits[10 + (c as int - 'a' as int)] == c; }
    if 'A' <= c <= 'F' { assert digits[16 + (c as int - 'A' as int)] == c; }
  }

  lemma ExtensionsAreTaken(log: Log, k: nat, popped: State, edge: string)
    requires Prechecks(log) && |log.initialEntryIds| <= k < |log.enqueues| && popped.path != []
    requires Extends(log, log.enqueues[k], popped, edge)
    ensures Takes(log, k, popped, edge)
  {
    assert EnqueueValid(log, k);
    HashShape(log.enqueues[k].parentPathIdentity.value);
  }

  lemma QueuedIsTaken(log: Log, j: nat, next: nat)
    requires Prechecks(log) && j < |log.labels| && log.frontierRows[j].Snapshot? && next >= |log.initialEntryIds|
    requires log.frontierRows[j].popped.path != []
    requires ExpansionsQueued(log, next, log.frontierRows[j].popped, log.labels[j].expandedEdgeIds)
    ensures ExpandsInto(log, j, next)
  {
    var popped, expanded := log.frontierRows[j].popped, log.labels[j].expandedEdgeIds;
    forall at | 0 <= at < |expanded| ensures Takes(log, next + at, popped, expanded[at]) {
      assert Extends(log, log.enqueues[next + at], popped, expanded[at]);
      ExtensionsAreTaken(log, next + at, popped, expanded[at]);
    }
  }

  lemma ExpansionsAreTaken(log: Log, states: seq<Progress>, n: nat, i: nat)
    requires IsReplay(log, states, n) && i < n && log.observations[i].admitted
    ensures states[i].active < |log.labels| == |log.frontierRows| && log.frontierRows[states[i].active].Snapshot?
    ensures ExpandsInto(log, states[i].active, states[i].next)
  {
    var popped, expanded := AdmitFacts(log, states, n, i);
    CountsHold(log, states, n, i);
    QueuedIsTaken(log, states[i].active, states[i].next);
  }

  lemma ObservedAsReplayed(log: Log, states: seq<Progress>, n: nat, i: nat)
    requires IsReplay(log, states, n) && i < n
    ensures ObservedRightly(log, i)
  {
    CountsHold(log, states, n, i);
    PopsAreFirst(log, states, n, i);
    if log.observations[i].admitted {
      AdmissionsAreReported(log, states, n, i);
      LabelsAreDistanced(log, states, n, i);
      ExpansionsAreTaken(log, states, n, i);
    }
  }

  // ---- the expansions in the enqueue log -----------------------------------

  /** The label and the place in its expansions that the x-th expansion comes from. */
  lemma {:induction false} SlotOf(labels: seq<PathLabel>, x: nat) returns (l: nat, at: nat)
    requires x < TotalExpansions(labels)
    ensures l < |labels| && at < |labels[l].expandedEdgeIds| && x == TotalExpansions(labels[..l]) + at
    ensures |ConcatExpansions(labels)| == TotalExpansions(labels)
    ensures ConcatExpansions(labels)[x] == labels[l].expandedEdgeIds[at]
  {
    var n := |labels| - 1;
    ConcatLength(labels);
    ConcatLength(labels[..n]);
    if x < TotalExpansions(labels[..n]) {
      l, at := SlotOf(labels[..n], x);
      assert labels[..n][..l] == labels[..l];
    } else {
      l, at := n, x - TotalExpansions(labels[..n]);
    }
  }

  lemma {:induction false} ConcatLength(labels: seq<PathLabel>)
    ensures |ConcatExpansions(labels)| == TotalExpansions(labels)
  {
    if labels != [] {
      ConcatLength(labels[..|labels| - 1]);
    }
  }

  lemma {:induction false} AdmittedAt(obs: seq<Observation>, l: nat) returns (i: nat)
    requires l < AdmittedCount(obs)
    ensures i < |obs| && obs[i].admitted && AdmittedCount(obs[..i]) == l
  {
    var n := |obs| - 1;
    if l < AdmittedCount(obs[..n]) {
      i := AdmittedAt(obs[..n], l);
      assert obs[..n][..i] == obs[..i];
    } else {
      i := n;
    }
  }

  ghost predicate AllObservedRightly(log: Log) {
    && TotalsRight(log)
    && forall i {:trigger ObservedRightly(log, i)} | 0 <= i < |log.observations| :: ObservedRightly(log, i)
  }

  /** The expansions of a label stand behind the entries and those of the labels before. */
  lemma ExpansionsOfLabel(log: Log, l: nat)
    requires AllObservedRightly(log) && l < |log.labels|
    ensures log.frontierRows[l].Snapshot? && "" !in log.labels[l].expandedEdgeIds
    ensures ExpandsInto(log, l, |log.initialEntryIds| + TotalExpansions(log.labels[..l]))
  {
    var i := AdmittedAt(log.observations, l);
    assert ObservedRightly(log, i);
  }

  /** Behind the entries every event takes an edge that some label expands. */
  lemma EventOfSlot(log: Log, x: nat) returns (l: nat, at: nat)
    requires AllObservedRightly(log) && x < TotalExpansions(log.labels)
    ensures l < |log.labels| && log.frontierRows[l].Snapshot? && at < |log.labels[l].expandedEdgeIds|
    ensures "" !in log.labels[l].expandedEdgeIds
    ensures Takes(log, |log.initialEntryIds| + x, log.frontierRows[l].popped, log.labels[l].expandedEdgeIds[at])
    ensures |ConcatExpansions(log.labels)| == TotalExpansions(log.labels)
    ensures ConcatExpansions(log.labels)[x] == log.labels[l].expandedEdgeIds[at]
  {
    l, at := SlotOf(log.labels, x);
    ExpansionsOfLabel(log, l);
    var next := |log.initialEntryIds| + TotalExpansions(log.labels[..l]);
    assert Takes(log, next + at, log.frontierRows[l].popped, log.labels[l].expandedEdgeIds[at]);
  }

  lemma TakenEdgesAreExpansions(log: Log)
    requires AllObservedRightly(log)
    ensures TakenEdges(log) == ConcatExpansions(log.labels)
  {
    ConcatLength(log.labels);
    forall x | 0 <= x < TotalExpansions(log.labels) ensures TakenEdges(log)[x] == ConcatExpansions(log.labels)[x] {
      var l, at := EventOfSlot(log, x);
    }
  }

  lemma AcceptedIsSearchLog(log: Log, states: seq<Progress>)
    requires Completes(log, states)
    ensures SearchLog(log)
  {
    var n := |log.observations|;
    QueueIsConserved(log, states);
    forall i {:trigger ObservedRightly(log, i)} | 0 <= i < n ensures ObservedRightly(log, i) {
      ObservedAsReplayed(log, states, n, i);
    }
    forall k | 0 <= k < |log.enqueues| ensures EventSound(log, k) && (k < |log.initialEntryIds| ==> EntersAt(log, k)) {
      EventsAreSound(log, k);
    }
    CountsHold(log, states, n, n);
    CountsAlongTheRun(log, states, n, n);
    assert log.observations[..n] == log.observations && log.labels[..|log.labels|] == log.labels;
    assert log.frontierRows != [] ==> log.frontierRows[0] in log.frontierRows;
    TakenEdgesAreExpansions(log);
    StepListsTheExpansions(log, states, "");
  }

  // ---- a log in closed form is accepted ------------------------------------

  lemma RowsAreReported(log: Log, j: nat) returns (i: nat)
    requires AllObservedRightly(log) && j < |log.labels|
    ensures i < |log.observations| && log.observations[i].Observation? && Reports(log, i, j)
  {
    i := AdmittedAt(log.observations, j);
    assert ObservedRightly(log, i);
  }

  lemma EntryEventValid(log: Log, k: nat)
    requires k < |log.enqueues| && k < |log.initialEntryIds| && EventSound(log, k) && EntersAt(log, k)
    ensures EnqueueValid(log, k)
  {
    QueueKeyExactly(log.enqueues[k].queueKey, log.requiredFacets, log.enqueues[k].candidateState);
  }

  lemma TakenEventValid(log: Log, k: nat, popped: State, edge: string)
    requires |log.initialEntryIds| <= k < |log.enqueues| && EventSound(log, k) && Takes(log, k, popped, edge) && edge != ""
    ensures EnqueueValid(log, k)
  {
    QueueKeyExactly(log.enqueues[k].queueKey, log.requiredFacets, log.enqueues[k].candidateState);
    HashShape(log.enqueues[k].parentPathIdentity.value);
  }

  lemma EventsAreValid(log: Log, k: nat)
    requires SearchLog(log) && k < |log.enqueues|
    ensures EnqueueValid(log, k)
  {
    assert EventSound(log, k);
    if k < |log.initialEntryIds| {
      assert EntersAt(log, k);
      EntryEventValid(log, k);
    } else {
      var l, at := EventOfSlot(log, k - |log.initialEntryIds|);
      assert log.labels[l].expandedEdgeIds[at] in log.labels[l].expandedEdgeIds;
      TakenEventValid(log, k, log.frontierRows[l].popped, log.labels[l].expandedEdgeIds[at]);
    }
  }

  lemma StepEdgesAreNamed(log: Log)
    requires SearchLog(log)
    ensures "" !in log.stepExpandedEdgeIds && Distinct(log.stepExpandedEdgeIds)
  {
    TakenEdgesAreExpansions(log);
    if "" in log.stepExpandedEdgeIds {
      var x :| 0 <= x < |TakenEdges(log)| && TakenEdges(log)[x] == "";
      ConcatLength(log.labels);
      var l, at := EventOfSlot(log, x);
    }
  }

  lemma PrechecksHold(log: Log)
    requires SearchLog(log)
    ensures Prechecks(log)
  {
    forall o | o in log.observations ensures o.Observation? {
      var i :| 0 <= i < |log.observations| && log.observations[i] == o;
      assert ObservedRightly(log, i);
    }
    forall row | row in log.frontierRows ensures row.Snapshot? {
      var j :| 0 <= j < |log.frontierRows| && log.frontierRows[j] == row;
      var i := RowsAreReported(log, j);
    }
    if log.frontierRows != [] {
      var i := RowsAreReported(log, 0);
    }
    StepEdgesAreNamed(log);
    forall k {:trigger EnqueueValid(log, k)} | 0 <= k < |log.enqueues| ensures EnqueueValid(log, k) {
      EventsAreValid(log, k);
    }
  }

  lemma FirstIsMinimum(log: Log, states: seq<Progress>, n: nat, i: nat)
    requires IsReplay(log, states, n) && i <= n && i < |log.observations| && ObservedRightly(log, i)
    ensures PopRecorded(log, states[i], i)
  {
    CountsHold(log, states, n, i);
    QueueIsExact(log, states, n, i);
    var o := log.observations[i];
    var j: nat := o.frontierSerial;
    WaitingExactly(log, states, n, i, j);
    assert EnqueueValid(log, j);
    forall k | k in states[i].frontier ensures Before(log, j, k) {
      WaitingExactly(log, states, n, i, k);
      KeysAreAlike(log, j);
      KeysAreAlike(log, k);
      BeforeExactly(log, j, k);
    }
  }

  lemma TakenIsQueued(log: Log, j: nat, next: nat)
    requires j < |log.labels| == |log.frontierRows| && log.frontierRows[j].Snapshot? && ExpandsInto(log, j, next)
    ensures ExpansionsQueued(log, next, log.frontierRows[j].popped, log.labels[j].expandedEdgeIds)
  {
    var popped, expanded := log.frontierRows[j].popped, log.labels[j].expandedEdgeIds;
    forall at | 0 <= at < |expanded| ensures Extends(log, log.enqueues[next + at], popped, expanded[at]) {
      assert Takes(log, next + at, popped, expanded[at]);
    }
  }

  lemma {:induction false} RootStaysKnown(log: Log, states: seq<Progress>, n: nat, m: nat, i: nat, root: string)
    requires IsReplay(log, states, n) && m < i <= n && log.observations[m].admitted
    requires states[m].active < |log.frontierRows| && EntryRow(log, states[m].active, root)
    ensures root in states[i].roots
  {
    if m + 1 < i {
      RootStaysKnown(log, states, n, m, i - 1, root);
      RootsGrow(log, states, n, i - 1);
    } else {
      EntryMakesRootKnown(log, states, n, m);
    }
  }

  /** The known distance of a root is that of any row that enters it. */
  lemma KnownDistance(log: Log, states: seq<Progress>, n: nat, t: nat, root: string)
    requires IsReplay(log, states, n) && t < states[n].active && EntryRow(log, t, root)
    ensures root in states[n].roots && states[n].roots[root] == log.frontierRows[t].popped.distanceSoFar
  {
    var m := AdmittedWhen(log, states, n, n, t);
    RootStaysKnown(log, states, n, m, n, root);
    var m' := RootsAreEntries(log, states, n, n, root);
    var k := EntrySerial(log, states, n, m);
    var k' := EntrySerial(log, states, n, m');
    assert log.initialEntryIds[k] == log.initialEntryIds[k'];
    PoppedOnce(log, states, n, m, m');
  }

  lemma DistanceIsAccounted(log: Log, states: seq<Progress>, n: nat, j: nat)
    requires IsReplay(log, states, n) && j == states[n].active < |log.frontierRows| && log.frontierRows[j].Snapshot?
    requires Distanced(log, j) && StructureValid(log.frontierRows[j].popped, true)
    ensures DistanceAccounted(states[n].roots, log.frontierRows[j].popped)
  {
    var popped := log.frontierRows[j].popped;
    if popped.pathEdgeIds != [] {
      var t, sums :| 0 <= t <= j
        && EntryRow(log, t, popped.rootNodeId)
        && RoundedSums(log.frontierRows[t].popped.distanceSoFar, popped.pathEdgeDistances.values, sums)
        && Near(popped.distanceSoFar, sums[|sums| - 1]);
      KnownDistance(log, states, n, t, popped.rootNodeId);
      RoundedSumsExactly(log.frontierRows[t].popped.distanceSoFar, popped.pathEdgeDistances.values, sums);
    }
  }

  lemma StepFollows(log: Log, states: seq<Progress>, n: nat)
    requires IsReplay(log, states, n) && n < |log.observations| && ObservedRightly(log, n)
    ensures StepOk(log, states[n], n)
  {
    FirstIsMinimum(log, states, n, n);
    CountsHold(log, states, n, n);
    if log.observations[n].admitted {
      var j := states[n].active;
      DistanceIsAccounted(log, states, n, j);
      TakenIsQueued(log, j, states[n].next);
    }
  }

  lemma {:induction false} SearchLogReplays(log: Log, n: nat) returns (states: seq<Progress>)
    requires SearchLog(log) && Prechecks(log) && n <= |log.observations|
    ensures IsReplay(log, states, n)
  {
    if n == 0 {
      states := [Initial(log)];
    } else {
      states := SearchLogReplays(log, n - 1);
      assert ObservedRightly(log, n - 1);
      StepFollows(log, states, n - 1);
      OneMoreStep(log, states, n - 1);
      states := states + [After(log, states[n - 1], n - 1)];
    }
  }

  lemma OneMoreStep(log: Log, states: seq<Progress>, n: nat)
    requires IsReplay(log, states, n) && n < |log.observations| && StepOk(log, states[n], n)
    ensures IsReplay(log, states + [After(log, states[n], n)], n + 1)
  {
    var more := states + [After(log, states[n], n)];
    forall i | 0 <= i < n + 1 ensures Passes(log, more, i) {
      if i < n {
        assert Passes(log, states, i);
      }
    }
  }

  /** At most one list names the same edges in order of first appearance. */
  lemma {:induction false} SameFirsts(ids: seq<string>, a: seq<string>, b: seq<string>, k: nat)
    requires InOrderOfAppearance(ids, a) && InOrderOfAppearance(ids, b) && k <= |a|
    ensures k <= |b| && a[..k] == b[..k]
  {
    if k > 0 {
      var m := k - 1;
      SameFirsts(ids, a, b, m);
      NextFirst(ids, a, b, m);
    }
  }

  lemma NextFirst(ids: seq<string>, a: seq<string>, b: seq<string>, m: nat)
    requires InOrderOfAppearance(ids, a) && InOrderOfAppearance(ids, b) && m < |a| && m <= |b| && a[..m] == b[..m]
    ensures m < |b| && a[m] == b[m]
  {
    var p := PlaceBehind(ids, a, b, m);
    if p > m {
      var q := PlaceBehind(ids, b, a, m);
      assert FirstIndex(ids, b[m]) < FirstIndex(ids, b[p]);
    }
  }

  /** What a lists at m, b lists at m or behind. */
  lemma PlaceBehind(ids: seq<string>, a: seq<string>, b: seq<string>, m: nat) returns (p: nat)
    requires InOrderOfAppearance(ids, a) && InOrderOfAppearance(ids, b) && m < |a| && m <= |b| && a[..m] == b[..m]
    ensures m <= p < |b| && b[p] == a[m]
  {
    assert a[m] in a && a[m] in ids;
    p :| 0 <= p < |b| && b[p] == a[m];
  }

  lemma StepListIsRight(log: Log)
    requires SearchLog(log)
    ensures FirstOccurrences(ConcatExpansions(log.labels)) == log.stepExpandedEdgeIds
  {
    var ids, a, b := ConcatExpansions(log.labels), FirstOccurrences(ConcatExpansions(log.labels)), log.stepExpandedEdgeIds;
    TakenEdgesAreExpansions(log);
    FirstOccurrencesExactly(ids);
    SameFirsts(ids, a, b, |a|);
    SameFirsts(ids, b, a, |b|);
    assert a[..|a|] == a && b[..|b|] == b;
  }

  lemma SearchLogCompletes(log: Log) returns (states: seq<Progress>)
    requires SearchLog(log)
    ensures Completes(log, states)
  {
    var n := |log.observations|;
    PrechecksHold(log);
    states := SearchLogReplays(log, n);
    CountsHold(log, states, n, n);
    QueueIsExact(log, states, n, n);
    StepListIsRight(log);
    assert log.observations[..n] == log.observations && log.labels[..|log.labels|] == log.labels;
  }

  /** The replay accepts exactly the records of a best-first search: with heap, tables
      and guards it decides what the log itself shows. */
  lemma AcceptedExactly(log: Log)
    ensures Accepts(log) <==> SearchLog(log)
  {
    GuardsNeverFire(log);
    if Accepts(log) {
      var states :| Completes(log, states);
      AcceptedIsSearchLog(log, states);
    }
    if SearchLog(log) {
      var states := SearchLogCompletes(log);
    }
  }
}
