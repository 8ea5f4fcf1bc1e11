/** What every replayed search keeps. */
module FrontierLaws {
  import opened Frontier
  import opened Labels

  // ---- what one step says --------------------------------------------------

  lemma PopFacts(log: Log, states: seq<Progress>, n: nat, i: nat) returns (k: nat)
    requires IsReplay(log, states, n) && i < n
    ensures log.observations[i].Observation? && k == log.observations[i].frontierSerial
    ensures k in states[i].frontier && k < |log.enqueues|
    ensures log.observations[i].candidateState == log.enqueues[k].candidateState
    ensures log.observations[i].queueKey == log.enqueues[k].queueKey
    ensures log.observations[i].queueSizeBeforePop == |states[i].frontier|
    ensures log.observations[i].queueSizeAfterPop == |states[i].frontier| - 1
    ensures Queued(log, states[i]) && IsMinimum(log, states[i].frontier, k)
    ensures !log.observations[i].admitted ==> states[i + 1] == states[i].(frontier := states[i].frontier - {k})
  {
    assert Passes(log, states, i);
    k := log.observations[i].frontierSerial;
  }

  lemma AdmitFacts(log: Log, states: seq<Progress>, n: nat, i: nat) returns (popped: State, expanded: seq<string>)
    requires IsReplay(log, states, n) && i < n && log.observations[i].admitted
    ensures states[i].active < |log.labels| == |log.frontierRows|
    ensures log.frontierRows[states[i].active].Snapshot?
    ensures popped == log.frontierRows[states[i].active].popped
    ensures expanded == log.labels[states[i].active].expandedEdgeIds
    ensures StructureValid(popped, true)
    ensures log.observations[i].Observation? && PathKeyOf(popped) == PathKeyOf(log.observations[i].candidateState)
    ensures DistanceAccounted(states[i].roots, popped)
    ensures ExpansionsQueued(log, states[i].next, popped, expanded)
    ensures log.observations[i].frontierSerial >= 0
    ensures states[i + 1] == Progress(
              states[i].frontier - {log.observations[i].frontierSerial as nat}
                + Serials(states[i].next, states[i].next + |expanded|),
              states[i].next + |expanded|,
              states[i].active + 1,
              if popped.pathEdgeIds == [] then states[i].roots[popped.rootNodeId := popped.distanceSoFar]
              else states[i].roots)
  {
    assert Passes(log, states, i);
    popped := log.frontierRows[states[i].active].popped;
    expanded := log.labels[states[i].active].expandedEdgeIds;
  }

  // ---- conservation of the queue -------------------------------------------

  /** Serials popped by the first n observations. */
  function PoppedSerials(log: Log, n: nat): set<int>
    requires n <= |log.observations| && forall o | o in log.observations :: o.Observation?
  {
    if n == 0 then {} else PoppedSerials(log, n - 1) + {log.observations[n - 1].frontierSerial}
  }

  /** The queue holds exactly what was queued and not yet popped, and nothing is
      popped twice. */
  ghost predicate QueueShape(frontier: set<nat>, popped: set<int>, next: nat, i: nat) {
    && (forall k: nat :: k in frontier <==> k < next && k !in popped)
    && (forall k | k in popped :: 0 <= k < next)
    && |popped| == i
    && |frontier| == next - i
  }

  lemma QueueShapeStep(frontier: set<nat>, popped: set<int>, next: nat, i: nat, k: nat, grown: nat)
    requires QueueShape(frontier, popped, next, i) && k in frontier && next <= grown
    ensures QueueShape(frontier - {k} + Serials(next, grown), popped + {k}, grown, i + 1)
  {
    var rest, added := frontier - {k}, Serials(next, grown);
    assert k !in popped;
    assert rest !! added;
    assert |rest + added| == |rest| + |added|;
  }

  ghost predicate QueueExact(log: Log, st: Progress, i: nat)
    requires i <= |log.observations| && forall o | o in log.observations :: o.Observation?
  {
    && QueueShape(st.frontier, PoppedSerials(log, i), st.next, i)
    && InitialCount(log) <= st.next <= |log.enqueues|
    && st.active <= |log.labels|
  }

  /** How an admitted observation changes the queue. */
  lemma AdmittedQueue(log: Log, states: seq<Progress>, n: nat, i: nat) returns (k: nat, grown: nat)
    requires IsReplay(log, states, n) && i < n && log.observations[i].admitted
    ensures k in states[i].frontier && log.observations[i].Observation? && log.observations[i].frontierSerial == k
    ensures states[i].next <= grown <= |log.enqueues|
    ensures states[i + 1].frontier == states[i].frontier - {k} + Serials(states[i].next, grown)
    ensures states[i + 1].next == grown && states[i + 1].active == states[i].active + 1 <= |log.labels|
  {
    k := PopFacts(log, states, n, i);
    var popped, expanded := AdmitFacts(log, states, n, i);
    grown := states[i].next + |expanded|;
  }

  lemma QueueStepAdmitted(log: Log, states: seq<Progress>, n: nat, i: nat)
    requires IsReplay(log, states, n) && i < n && log.observations[i].admitted
    requires QueueExact(log, states[i], i)
    ensures QueueExact(log, states[i + 1], i + 1)
  {
    var k, grown := AdmittedQueue(log, states, n, i);
    QueueShapeStep(states[i].frontier, PoppedSerials(log, i), states[i].next, i, k, grown);
  }

  lemma QueueStepRejected(log: Log, states: seq<Progress>, n: nat, i: nat)
    requires IsReplay(log, states, n) && i < n && !log.observations[i].admitted
    requires QueueExact(log, states[i], i)
    ensures QueueExact(log, states[i + 1], i + 1)
  {
    var k := PopFacts(log, states, n, i);
    var st := states[i];
    QueueShapeStep(st.frontier, PoppedSerials(log, i), st.next, i, k, st.next);
    assert st.frontier - {k} + Serials(st.next, st.next) == st.frontier - {k};
  }

  lemma QueueStep(log: Log, states: seq<Progress>, n: nat, i: nat)
    requires IsReplay(log, states, n) && i < n
    requires QueueExact(log, states[i], i)
    ensures QueueExact(log, states[i + 1], i + 1)
  {
    if log.observations[i].admitted {
      QueueStepAdmitted(log, states, n, i);
    } else {
      QueueStepRejected(log, states, n, i);
    }
  }

  lemma {:induction false} QueueIsExact(log: Log, states: seq<Progress>, n: nat, i: nat)
    requires IsReplay(log, states, n) && i <= n
    ensures QueueExact(log, states[i], i)
  {
    if i > 0 {
      QueueIsExact(log, states, n, i - 1);
      QueueStep(log, states, n, i - 1);
    }
  }
}
