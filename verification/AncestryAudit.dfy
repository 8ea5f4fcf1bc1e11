/** Auditing a nested snapshot: every origin is audited below its quoter, except that
    origins reached by expansion rows share one verdict per package id. */
module AncestryAudit {
  import opened Ancestry

  predicate Resolves(s: Snapshot, n: nat, id: string)
    requires n < |s.expansions|
  {
    s.expansions[n] in s.origins && s.origins[s.expansions[n]].id == id
  }

  /** The first of the expansion rows from m on that quotes an origin with this id. */
  function FirstWithId(s: Snapshot, id: string, m: nat, n: nat): (first: nat)
    requires m <= n < |s.expansions| && Resolves(s, n, id)
    ensures m <= first <= n && Resolves(s, first, id)
    ensures forall j | m <= j < first :: !Resolves(s, j, id)
    decreases n - m
  {
    if Resolves(s, m, id) then m else FirstWithId(s, id, m + 1, n)
  }

  /** The origin whose verdict the n-th expansion row is given. */
  function JudgedOrigin(s: Snapshot, n: nat): Snapshot
    requires n < |s.expansions| && s.expansions[n] in s.origins
  {
    var id := s.origins[s.expansions[n]].id;
    s.origins[s.expansions[FirstWithId(s, id, 0, n)]]
  }

  /** Whether the audit passes; `local` stands for all checks of one package that do
      not follow its origins. */
  predicate AuditPasses(local: Snapshot -> bool, s: Snapshot, ancestors: seq<string>)
    decreases ANCESTRY_BOUND - |ancestors|, 0, 0
  {
    && s.id !in ancestors && |ancestors| < ANCESTRY_BOUND
    && local(s)
    && ExpansionsPass(local, s, ancestors + [s.id], |s.expansions|)
    && RetentionsPass(local, s, ancestors + [s.id], |s.retentions|)
  }

  /** The first n expansion rows. */
  predicate ExpansionsPass(local: Snapshot -> bool, s: Snapshot, deeper: seq<string>, n: nat)
    requires n <= |s.expansions| && |deeper| <= ANCESTRY_BOUND
    decreases ANCESTRY_BOUND - |deeper|, 1, n
  {
    n == 0 ||
    (&& ExpansionsPass(local, s, deeper, n - 1)
     && s.expansions[n - 1] in s.origins
     && s.origins[s.expansions[n - 1]].id != s.id
     && AuditPasses(local, JudgedOrigin(s, n - 1), deeper))
  }

  /** The first n retention rows. */
  predicate RetentionsPass(local: Snapshot -> bool, s: Snapshot, deeper: seq<string>, n: nat)
    requires n <= |s.retentions| && |deeper| <= ANCESTRY_BOUND
    decreases ANCESTRY_BOUND - |deeper|, 1, n
  {
    n == 0 ||
    (&& RetentionsPass(local, s, deeper, n - 1)
     && s.retentions[n - 1] in s.origins
     && s.retentions[n - 1] != s.id
     && AuditPasses(local, s.origins[s.retentions[n - 1]], deeper))
  }

  lemma {:induction false} EachExpansionPasses(local: Snapshot -> bool, s: Snapshot, deeper: seq<string>, n: nat, i: nat)
    requires i < n <= |s.expansions| && |deeper| <= ANCESTRY_BOUND && ExpansionsPass(local, s, deeper, n)
    ensures s.expansions[i] in s.origins && s.origins[s.expansions[i]].id != s.id
    ensures AuditPasses(local, JudgedOrigin(s, i), deeper)
  {
    if i < n - 1 {
      EachExpansionPasses(local, s, deeper, n - 1, i);
    }
  }

  lemma {:induction false} EachRetentionPasses(local: Snapshot -> bool, s: Snapshot, deeper: seq<string>, n: nat, i: nat)
    requires i < n <= |s.retentions| && |deeper| <= ANCESTRY_BOUND && RetentionsPass(local, s, deeper, n)
    ensures s.retentions[i] in s.origins && s.retentions[i] != s.id
    ensures AuditPasses(local, s.origins[s.retentions[i]], deeper)
  {
    if i < n - 1 {
      EachRetentionPasses(local, s, deeper, n - 1, i);
    }
  }

  // ---- the loops -----------------------------------------------------------

  /** The verdicts reached for the first n expansion rows, by package id. */
  ghost predicate Verdicts(local: Snapshot -> bool, s: Snapshot, deeper: seq<string>, checked: map<string, bool>, n: nat)
    requires n <= |s.expansions|
  {
    forall id :: if id in checked then exists j | 0 <= j < n :: Judged(local, s, deeper, j, id, checked[id])
                 else forall j | 0 <= j < n :: !Resolves(s, j, id)
  }

  ghost predicate Judged(local: Snapshot -> bool, s: Snapshot, deeper: seq<string>, j: nat, id: string, verdict: bool)
    requires j < |s.expansions|
  {
    Resolves(s, j, id) && verdict == AuditPasses(local, JudgedOrigin(s, j), deeper)
  }

  lemma RecalledVerdict(local: Snapshot -> bool, s: Snapshot, deeper: seq<string>, checked: map<string, bool>,
                        n: nat, id: string)
    requires n < |s.expansions| && Verdicts(local, s, deeper, checked, n) && Resolves(s, n, id) && id in checked
    ensures checked[id] == AuditPasses(local, JudgedOrigin(s, n), deeper)
  {
    var j :| 0 <= j < n && Judged(local, s, deeper, j, id, checked[id]);
    assert FirstWithId(s, id, 0, j) == FirstWithId(s, id, 0, n);
  }

  lemma FirstVerdict(local: Snapshot -> bool, s: Snapshot, deeper: seq<string>, checked: map<string, bool>,
                     n: nat, id: string)
    requires n < |s.expansions| && Verdicts(local, s, deeper, checked, n) && Resolves(s, n, id) && id !in checked
    ensures JudgedOrigin(s, n) == s.origins[s.expansions[n]]
  {
    assert FirstWithId(s, id, 0, n) == n;
  }

  lemma VerdictsStand(local: Snapshot -> bool, s: Snapshot, deeper: seq<string>, checked: map<string, bool>, n: nat)
    requires n < |s.expansions| && Verdicts(local, s, deeper, checked, n)
    requires s.expansions[n] in s.origins ==> s.origins[s.expansions[n]].id in checked
    ensures Verdicts(local, s, deeper, checked, n + 1)
  {
    var more := n + 1;
    forall id ensures if id in checked then exists j | 0 <= j < more :: Judged(local, s, deeper, j, id, checked[id])
                      else forall j | 0 <= j < more :: !Resolves(s, j, id)
    {
      if id in checked {
        var j :| 0 <= j < n && Judged(local, s, deeper, j, id, checked[id]);
      }
    }
  }

  lemma VerdictAdded(local: Snapshot -> bool, s: Snapshot, deeper: seq<string>, checked: map<string, bool>, n: nat,
                     id: string, verdict: bool)
    requires n < |s.expansions| && Verdicts(local, s, deeper, checked, n)
    requires id !in checked && Judged(local, s, deeper, n, id, verdict)
    ensures Verdicts(local, s, deeper, checked[id := verdict], n + 1)
  {
    var after, more := checked[id := verdict], n + 1;
    forall key ensures if key in after then exists j | 0 <= j < more :: Judged(local, s, deeper, j, key, after[key])
                       else forall j | 0 <= j < more :: !Resolves(s, j, key)
    {
      if key in checked {
        var j :| 0 <= j < n && Judged(local, s, deeper, j, key, checked[key]);
        assert Judged(local, s, deeper, j, key, after[key]);
      }
    }
  }

  method AuditSnapshot(local: Snapshot -> bool, s: Snapshot, ancestors: seq<string>) returns (pass: bool)
    ensures pass <==> AuditPasses(local, s, ancestors)
    decreases ANCESTRY_BOUND - |ancestors|, 0
  {
    if s.id in ancestors || |ancestors| >= ANCESTRY_BOUND {
      return false;
    }
    var deeper := ancestors + [s.id];
    var expansionsPass := AuditExpansions(local, s, deeper);
    var retentionsPass := AuditRetentions(local, s, deeper);
    pass := local(s) && expansionsPass && retentionsPass;
  }

  method AuditExpansions(local: Snapshot -> bool, s: Snapshot, deeper: seq<string>) returns (pass: bool)
    requires |deeper| <= ANCESTRY_BOUND
    ensures pass <==> ExpansionsPass(local, s, deeper, |s.expansions|)
    decreases ANCESTRY_BOUND - |deeper|, 1
  {
    pass := true;
    var checked: map<string, bool> := map[];
    for n := 0 to |s.expansions|
      invariant Verdicts(local, s, deeper, checked, n)
      invariant pass <==> ExpansionsPass(local, s, deeper, n)
    {
      if s.expansions[n] !in s.origins {
        pass := false;
        VerdictsStand(local, s, deeper, checked, n);
      } else {
        var origin := s.origins[s.expansions[n]];
        if origin.id !in checked {
          FirstVerdict(local, s, deeper, checked, n, origin.id);
          var verdict := AuditSnapshot(local, origin, deeper);
          VerdictAdded(local, s, deeper, checked, n, origin.id, verdict);
          checked := checked[origin.id := verdict];
        } else {
          RecalledVerdict(local, s, deeper, checked, n, origin.id);
          VerdictsStand(local, s, deeper, checked, n);
        }
        pass := pass && checked[origin.id] && origin.id != s.id;
      }
    }
  }

  method AuditRetentions(local: Snapshot -> bool, s: Snapshot, deeper: seq<string>) returns (pass: bool)
    requires |deeper| <= ANCESTRY_BOUND
    ensures pass <==> RetentionsPass(local, s, deeper, |s.retentions|)
    decreases ANCESTRY_BOUND - |deeper|, 1
  {
    pass := true;
    var checked: map<string, bool> := map[];
    for n := 0 to |s.retentions|
      invariant forall key | key in checked ::
                  key in s.origins && checked[key] == AuditPasses(local, s.origins[key], deeper)
      invariant pass <==> RetentionsPass(local, s, deeper, n)
    {
      var key := s.retentions[n];
      var valid := false;
      if key in s.origins {
        if key !in checked {
          var verdict := AuditSnapshot(local, s.origins[key], deeper);
          checked := checked[key := verdict];
        }
        valid := checked[key] && key != s.id;
      }
      pass := pass && valid;
    }
  }

  // ---- trails of origins ---------------------------------------------------

  /** The second snapshot is an origin some row of the first quotes. */
  predicate Origin(s: Snapshot, t: Snapshot) {
    || (exists n | 0 <= n < |s.expansions| :: s.expansions[n] in s.origins && s.origins[s.expansions[n]] == t)
    || (exists n | 0 <= n < |s.retentions| :: s.retentions[n] in s.origins && s.origins[s.retentions[n]] == t)
  }

  /** Each element leads on to the next by a step. */
  predicate Connected<T>(step: (T, T) -> bool, trail: seq<T>) {
    trail != [] && forall i | 0 <= i < |trail| - 1 :: LeadsOn(step, trail, i)
  }

  predicate LeadsOn<T>(step: (T, T) -> bool, trail: seq<T>, i: nat)
    requires i + 1 < |trail|
  {
    step(trail[i], trail[i + 1])
  }

  lemma ConnectedTail<T>(step: (T, T) -> bool, trail: seq<T>) returns (rest: seq<T>)
    requires Connected(step, trail) && |trail| > 1
    ensures trail == [trail[0]] + rest && |rest| == |trail| - 1
    ensures Connected(step, rest) && step(trail[0], rest[0])
  {
    assert LeadsOn(step, trail, 0);
    rest := trail[1..];
    forall i | 0 <= i < |rest| - 1 ensures LeadsOn(step, rest, i) {
      assert LeadsOn(step, trail, i + 1);
    }
  }

  lemma ConnectedCons<T>(step: (T, T) -> bool, first: T, trail: seq<T>)
    requires Connected(step, trail) && step(first, trail[0])
    ensures Connected(step, [first] + trail)
  {
    var longer := [first] + trail;
    forall i | 0 <= i < |longer| - 1 ensures LeadsOn(step, longer, i) {
      if i > 0 {
        assert LeadsOn(step, trail, i - 1);
      }
    }
  }

  /** Row m is the first to quote an origin with this id, and that origin is t. */
  predicate FirstQuotes(s: Snapshot, m: nat, id: string, t: Snapshot)
    requires m < |s.expansions|
  {
    && s.expansions[m] in s.origins && s.origins[s.expansions[m]] == t && t.id == id
    && forall j | 0 <= j < m && s.expansions[j] in s.origins :: s.origins[s.expansions[j]].id != id
  }

  /** The judged origin is that of the first row whose origin has the same id. */
  lemma JudgedExactly(s: Snapshot, n: nat, t: Snapshot)
    requires n < |s.expansions| && s.expansions[n] in s.origins
    ensures JudgedOrigin(s, n) == t <==>
            exists m | 0 <= m <= n :: FirstQuotes(s, m, s.origins[s.expansions[n]].id, t)
  {
    var id := s.origins[s.expansions[n]].id;
    var first := FirstWithId(s, id, 0, n);
    forall j | 0 <= j < first && s.expansions[j] in s.origins ensures s.origins[s.expansions[j]].id != id {
      assert !Resolves(s, j, id);
    }
    assert FirstQuotes(s, first, id, JudgedOrigin(s, n));
    forall m | 0 <= m <= n && FirstQuotes(s, m, id, t) ensures JudgedOrigin(s, n) == t {
      assert Resolves(s, m, id) && Resolves(s, first, id);
      assert m == first;
    }
  }

  /** Each snapshot is an origin of the one before. */
  predicate IsTrail(trail: seq<Snapshot>) {
    Connected(Origin, trail)
  }

  /** Expansion rows that quote the same package id quote the same snapshot. */
  predicate Unaliased(s: Snapshot) {
    forall i, j | 0 <= i < |s.expansions| && 0 <= j < |s.expansions|
                  && s.expansions[i] in s.origins && s.expansions[j] in s.origins
                  && s.origins[s.expansions[i]].id == s.origins[s.expansions[j]].id ::
      s.origins[s.expansions[i]] == s.origins[s.expansions[j]]
  }

  ghost predicate TrailSound(trail: seq<Snapshot>, ancestors: seq<string>) {
    && (forall i | 0 <= i < |trail| :: trail[i].id !in ancestors)
    && (forall i, j | 0 <= i < j < |trail| :: trail[i].id != trail[j].id)
    && |ancestors| + |trail| <= 32
  }

  // ---- exactly what a pass vouches for -------------------------------------

  /** The second snapshot is the one whose verdict some row of the first is given. */
  predicate JudgedStep(s: Snapshot, t: Snapshot) {
    || (exists n | 0 <= n < |s.expansions| :: s.expansions[n] in s.origins && JudgedOrigin(s, n) == t)
    || (exists n | 0 <= n < |s.retentions| :: s.retentions[n] in s.origins && s.origins[s.retentions[n]] == t)
  }

  predicate IsJudgedTrail(trail: seq<Snapshot>) {
    Connected(JudgedStep, trail)
  }

  /** Every row names an origin, and not the package itself. */
  predicate RowsResolve(s: Snapshot) {
    && (forall n | 0 <= n < |s.expansions| ::
          s.expansions[n] in s.origins && s.origins[s.expansions[n]].id != s.id)
    && (forall n | 0 <= n < |s.retentions| :: s.retentions[n] in s.origins && s.retentions[n] != s.id)
  }

  /** The trail is sound, and its end is in order apart from its origins. */
  ghost predicate Vouched(local: Snapshot -> bool, trail: seq<Snapshot>, ancestors: seq<string>)
    requires trail != []
  {
    TrailSound(trail, ancestors) && local(trail[|trail| - 1]) && RowsResolve(trail[|trail| - 1])
  }

  ghost predicate AllVouched(local: Snapshot -> bool, s: Snapshot, ancestors: seq<string>) {
    forall trail: seq<Snapshot> {:trigger IsJudgedTrail(trail)} | IsJudgedTrail(trail) && trail[0] == s ::
      Vouched(local, trail, ancestors)
  }

  lemma JudgedPasses(local: Snapshot -> bool, s: Snapshot, t: Snapshot, ancestors: seq<string>)
    requires AuditPasses(local, s, ancestors) && JudgedStep(s, t)
    ensures AuditPasses(local, t, ancestors + [s.id])
  {
    if n :| 0 <= n < |s.expansions| && s.expansions[n] in s.origins && JudgedOrigin(s, n) == t {
      EachExpansionPasses(local, s, ancestors + [s.id], |s.expansions|, n);
    } else {
      var n :| 0 <= n < |s.retentions| && s.retentions[n] in s.origins && s.origins[s.retentions[n]] == t;
      EachRetentionPasses(local, s, ancestors + [s.id], |s.retentions|, n);
    }
  }

  lemma PassingRowsResolve(local: Snapshot -> bool, s: Snapshot, ancestors: seq<string>)
    requires AuditPasses(local, s, ancestors)
    ensures RowsResolve(s)
  {
    forall n | 0 <= n < |s.expansions| ensures s.expansions[n] in s.origins && s.origins[s.expansions[n]].id != s.id {
      EachExpansionPasses(local, s, ancestors + [s.id], |s.expansions|, n);
    }
    forall n | 0 <= n < |s.retentions| ensures s.retentions[n] in s.origins && s.retentions[n] != s.id {
      EachRetentionPasses(local, s, ancestors + [s.id], |s.retentions|, n);
    }
  }

  lemma SoundCons(s: Snapshot, trail: seq<Snapshot>, ancestors: seq<string>)
    requires s.id !in ancestors
    ensures TrailSound([s] + trail, ancestors) <==>
            TrailSound(trail, ancestors + [s.id]) && |ancestors| + 1 + |trail| <= 32
  {
    var longer := [s] + trail;
    assert forall id :: id in ancestors + [s.id] <==> id in ancestors || id == s.id;
    if TrailSound(longer, ancestors) {
      forall i | 0 <= i < |trail| ensures trail[i].id !in ancestors + [s.id] {
        assert longer[i + 1].id != longer[0].id;
      }
      forall i, j | 0 <= i < j < |trail| ensures trail[i].id != trail[j].id {
        assert longer[i + 1].id != longer[j + 1].id;
      }
    }
  }

  lemma VouchedCons(local: Snapshot -> bool, s: Snapshot, trail: seq<Snapshot>, ancestors: seq<string>)
    requires trail != [] && s.id !in ancestors
    ensures Vouched(local, [s] + trail, ancestors) <==> Vouched(local, trail, ancestors + [s.id])
  {
    var longer := [s] + trail;
    SoundCons(s, trail, ancestors);
    assert longer[|longer| - 1] == trail[|trail| - 1];
    assert |ancestors + [s.id]| + |trail| == |ancestors| + |longer|;
  }

  lemma {:induction false} PassingVouches(local: Snapshot -> bool, trail: seq<Snapshot>, ancestors: seq<string>)
    requires IsJudgedTrail(trail) && AuditPasses(local, trail[0], ancestors)
    ensures Vouched(local, trail, ancestors)
    decreases |trail|
  {
    var s := trail[0];
    if |trail| == 1 {
      PassingRowsResolve(local, s, ancestors);
    } else {
      var rest := ConnectedTail(JudgedStep, trail);
      JudgedPasses(local, s, rest[0], ancestors);
      PassingVouches(local, rest, ancestors + [s.id]);
      VouchedCons(local, s, rest, ancestors);
    }
  }

  lemma VouchedLonger(local: Snapshot -> bool, s: Snapshot, longer: seq<Snapshot>, ancestors: seq<string>)
    requires AllVouched(local, s, ancestors) && IsJudgedTrail(longer) && longer[0] == s
    ensures Vouched(local, longer, ancestors)
  {
  }

  lemma VouchedRest(local: Snapshot -> bool, s: Snapshot, trail: seq<Snapshot>, ancestors: seq<string>)
    requires AllVouched(local, s, ancestors) && s.id !in ancestors
    requires IsJudgedTrail(trail) && JudgedStep(s, trail[0])
    ensures Vouched(local, trail, ancestors + [s.id])
  {
    ConnectedCons(JudgedStep, s, trail);
    VouchedLonger(local, s, [s] + trail, ancestors);
    VouchedCons(local, s, trail, ancestors);
  }

  lemma VouchedOrigin(local: Snapshot -> bool, s: Snapshot, t: Snapshot, ancestors: seq<string>)
    requires AllVouched(local, s, ancestors) && JudgedStep(s, t) && s.id !in ancestors
    ensures AllVouched(local, t, ancestors + [s.id])
  {
    forall trail: seq<Snapshot> {:trigger IsJudgedTrail(trail)} | IsJudgedTrail(trail) && trail[0] == t
      ensures Vouched(local, trail, ancestors + [s.id])
    {
      VouchedRest(local, s, trail, ancestors);
    }
  }

  lemma {:induction false} JudgedRowsPass(local: Snapshot -> bool, s: Snapshot, deeper: seq<string>, m: nat, n: nat)
    requires m <= |s.expansions| && n <= |s.retentions| && |deeper| <= ANCESTRY_BOUND && RowsResolve(s)
    requires forall i | 0 <= i < |s.expansions| :: AuditPasses(local, JudgedOrigin(s, i), deeper)
    requires forall i | 0 <= i < |s.retentions| :: AuditPasses(local, s.origins[s.retentions[i]], deeper)
    ensures ExpansionsPass(local, s, deeper, m) && RetentionsPass(local, s, deeper, n)
    decreases m + n
  {
    if m > 0 { JudgedRowsPass(local, s, deeper, m - 1, n); }
    if n > 0 { JudgedRowsPass(local, s, deeper, m, n - 1); }
  }

  lemma {:induction false} VouchedPasses(local: Snapshot -> bool, s: Snapshot, ancestors: seq<string>)
    requires AllVouched(local, s, ancestors)
    ensures AuditPasses(local, s, ancestors)
    decreases ANCESTRY_BOUND - |ancestors|
  {
    assert IsJudgedTrail([s]) && Vouched(local, [s], ancestors);
    assert [s][0].id !in ancestors;
    var deeper := ancestors + [s.id];
    forall i | 0 <= i < |s.expansions| ensures AuditPasses(local, JudgedOrigin(s, i), deeper) {
      assert JudgedStep(s, JudgedOrigin(s, i));
      VouchedOrigin(local, s, JudgedOrigin(s, i), ancestors);
      VouchedPasses(local, JudgedOrigin(s, i), deeper);
    }
    forall i | 0 <= i < |s.retentions| ensures AuditPasses(local, s.origins[s.retentions[i]], deeper) {
      assert JudgedStep(s, s.origins[s.retentions[i]]);
      VouchedOrigin(local, s, s.origins[s.retentions[i]], ancestors);
      VouchedPasses(local, s.origins[s.retentions[i]], deeper);
    }
    JudgedRowsPass(local, s, deeper, |s.expansions|, |s.retentions|);
  }

  /** The audit passes if and only if every trail of judged origins from the package
      repeats no id, meets no ancestor and keeps to the bound, and ends in a package
      whose rows resolve and whose local checks pass. */
  lemma AuditPassesExactly(local: Snapshot -> bool, s: Snapshot, ancestors: seq<string>)
    ensures AuditPasses(local, s, ancestors) <==> AllVouched(local, s, ancestors)
  {
    if AuditPasses(local, s, ancestors) {
      forall trail: seq<Snapshot> {:trigger IsJudgedTrail(trail)} | IsJudgedTrail(trail) && trail[0] == s
        ensures Vouched(local, trail, ancestors)
      {
        PassingVouches(local, trail, ancestors);
      }
    }
    if AllVouched(local, s, ancestors) {
      VouchedPasses(local, s, ancestors);
    }
  }

  lemma UnaliasedIsJudged(s: Snapshot, t: Snapshot)
    requires Unaliased(s) && Origin(s, t)
    ensures JudgedStep(s, t)
  {
    if n :| 0 <= n < |s.expansions| && s.expansions[n] in s.origins && s.origins[s.expansions[n]] == t {
      assert JudgedOrigin(s, n) == t;
    }
  }

  /** Where no two expansion rows quote different snapshots of one id, every trail of
      origins is judged, so a pass vouches for them all. */
  lemma PassingMeansSoundTrails(local: Snapshot -> bool, trail: seq<Snapshot>, ancestors: seq<string>)
    requires IsTrail(trail) && AuditPasses(local, trail[0], ancestors)
    requires forall i | 0 <= i < |trail| - 1 :: Unaliased(trail[i])
    ensures TrailSound(trail, ancestors)
  {
    forall i | 0 <= i < |trail| - 1 ensures LeadsOn(JudgedStep, trail, i) {
      assert LeadsOn(Origin, trail, i);
      UnaliasedIsJudged(trail[i], trail[i + 1]);
    }
    AuditPassesExactly(local, trail[0], ancestors);
    assert IsJudgedTrail(trail);
  }

  /** Trails that leave the judged origins are not vouched for: here a second origin
      with the id of the first goes unaudited, and closes a cycle. */
  lemma SharedVerdictCanHideACycle() returns (trail: seq<Snapshot>, all: Snapshot -> bool)
    ensures forall s :: all(s)
    ensures IsTrail(trail) && AuditPasses(all, trail[0], []) && !TrailSound(trail, [])
  {
    var harmless := Snapshot("x", [], [], map[]);
    var back := Snapshot("p", [], [], map[]);
    var hidden := Snapshot("x", [], ["c"], map["c" := back]);
    var top := Snapshot("p", [], ["a", "b"], map["a" := harmless, "b" := hidden]);
    trail := [top, hidden, back];
    assert top.expansions[1] == "b" && top.origins["b"] == hidden;
    assert hidden.expansions[0] == "c" && hidden.origins["c"] == back;
    assert LeadsOn(Origin, trail, 0) && LeadsOn(Origin, trail, 1);
    assert top.expansions[0] == "a" && Resolves(top, 0, "x");
    assert JudgedOrigin(top, 0) == harmless && JudgedOrigin(top, 1) == harmless;
    all := (s: Snapshot) => true;
    assert "x"[0] != "p"[0];
    assert "x" !in ["p"] && ExpansionsPass(all, harmless, ["p", "x"], 0) && RetentionsPass(all, harmless, ["p", "x"], 0);
    assert ["p"] + ["x"] == ["p", "x"] && [] + ["p"] == ["p"];
    assert AuditPasses(all, harmless, ["p"]);
    assert ExpansionsPass(all, top, ["p"], 1) && ExpansionsPass(all, top, ["p"], 2);
    assert trail[0].id == trail[2].id;
  }

  // ---- snapshots that were read from the database --------------------------

  /** What a snapshot read from the database holds: its rows, and for every package they
      quote the snapshot read for it below. */
  lemma BuiltShape(db: Database, id: string, ancestors: seq<string>)
    requires Build(db, id, ancestors).Ok?
    ensures var s := Build(db, id, ancestors).value;
            && s.id == id && id !in ancestors && |ancestors| < 32 && id in db
            && s.retentions == db[id].retentions && s.expansions == db[id].expansions
            && (forall k :: k in s.origins <==> k in Rows(db[id]))
            && (forall k | k in s.origins :: Build(db, k, ancestors + [id]) == Ok(s.origins[k]))
  {
    var rows := Rows(db[id]);
    BuiltRows(db, rows, ancestors + [id], |rows|);
    forall k | k in rows ensures k in Build(db, id, ancestors).value.origins {
      var i :| 0 <= i < |rows| && rows[i] == k;
    }
  }

  function AlwaysInOrder(): Snapshot -> bool {
    (s: Snapshot) => true
  }

  /** A snapshot read from the database never fails the ancestry checks. */
  lemma {:induction false} BuiltAncestryPasses(db: Database, id: string, ancestors: seq<string>)
    requires Build(db, id, ancestors).Ok?
    ensures AuditPasses(AlwaysInOrder(), Build(db, id, ancestors).value, ancestors)
    ensures Unaliased(Build(db, id, ancestors).value)
    decreases ANCESTRY_BOUND - |ancestors|
  {
    var s := Build(db, id, ancestors).value;
    BuiltShape(db, id, ancestors);
    forall k | k in s.origins
      ensures s.origins[k].id == k && k != id && AuditPasses(AlwaysInOrder(), s.origins[k], ancestors + [id])
    {
      BuiltShape(db, k, ancestors + [id]);
      BuiltAncestryPasses(db, k, ancestors + [id]);
    }
    forall n | 0 <= n < |s.expansions|
      ensures s.expansions[n] in s.origins && JudgedOrigin(s, n) == s.origins[s.expansions[n]]
    {
      assert s.expansions[n] in Rows(db[id]);
      var judged := JudgedOrigin(s, n);
      assert judged == s.origins[judged.id];
    }
    forall n | 0 <= n < |s.retentions| ensures s.retentions[n] in s.origins {
      assert s.retentions[n] in Rows(db[id]);
    }
    JudgedRowsPass(AlwaysInOrder(), s, ancestors + [id], |s.expansions|, |s.retentions|);
  }

  /** So its audit passes if and only if the local checks pass for the package and
      every package reached from it. */
  lemma BuiltPasses(local: Snapshot -> bool, db: Database, id: string, ancestors: seq<string>)
    requires Build(db, id, ancestors).Ok?
    ensures var s := Build(db, id, ancestors).value;
            AuditPasses(local, s, ancestors) <==>
            forall trail: seq<Snapshot> {:trigger IsJudgedTrail(trail)} | IsJudgedTrail(trail) && trail[0] == s ::
              local(trail[|trail| - 1])
  {
    var s := Build(db, id, ancestors).value;
    BuiltAncestryPasses(db, id, ancestors);
    AuditPassesExactly(AlwaysInOrder(), s, ancestors);
    AuditPassesExactly(local, s, ancestors);
  }
}
