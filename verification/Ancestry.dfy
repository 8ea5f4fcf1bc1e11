/** Packages that quote other packages: reading a package follows its origins
    through the database, auditing it follows them through the nested snapshot. Both
    recursions carry their ancestors and are cut off at the same bound. */
module Ancestry {
  import opened Basics

  const ANCESTRY_BOUND: nat := 32

  /** What the database holds about a package: the source packages of its retention
      rows and of its expansion rows. The reference graph may be cyclic. */
  datatype Package = Package(retentions: seq<string>, expansions: seq<string>)

  type Database = map<string, Package>

  datatype Snapshot = Snapshot(id: string, retentions: seq<string>, expansions: seq<string>, origins: map<string, Snapshot>)

  datatype Failure = AncestryInvalid | PackageMissing | OriginMissing

  datatype Result<+T> = Ok(value: T) | Err(error: Failure)

  function Rows(p: Package): seq<string> {
    p.retentions + p.expansions
  }

  // ---- reading a package ---------------------------------------------------

  function Build(db: Database, id: string, ancestors: seq<string>): Result<Snapshot>
    decreases ANCESTRY_BOUND - |ancestors|, 1, 0
  {
    if id in ancestors || |ancestors| >= ANCESTRY_BOUND then Err(AncestryInvalid)
    else if id !in db then Err(PackageMissing)
    else
      var p := db[id];
      match BuildOrigins(db, Rows(p), ancestors + [id], |Rows(p)|)
      case Ok(origins) => Ok(Snapshot(id, p.retentions, p.expansions, origins))
      case Err(e) => Err(e)
  }

  /** The origins read for the first n rows; an origin already read is not read again. */
  function BuildOrigins(db: Database, rows: seq<string>, ancestors: seq<string>, n: nat): Result<map<string, Snapshot>>
    requires n <= |rows| && |ancestors| <= ANCESTRY_BOUND
    decreases ANCESTRY_BOUND - |ancestors|, 2, n
  {
    if n == 0 then Ok(map[]) else
      match BuildOrigins(db, rows, ancestors, n - 1)
      case Err(e) => Err(e)
      case Ok(origins) =>
        var source := rows[n - 1];
        if source !in db then Err(OriginMissing)
        else if source in origins then Ok(origins)
        else
          match Build(db, source, ancestors)
          case Err(e) => Err(e)
          case Ok(s) => Ok(origins[source := s])
  }

  method PersistedSnapshot(db: Database, id: string, ancestors: seq<string>) returns (r: Result<Snapshot>)
    ensures r == Build(db, id, ancestors)
    decreases ANCESTRY_BOUND - |ancestors|
  {
    if id in ancestors || |ancestors| >= ANCESTRY_BOUND {
      return Err(AncestryInvalid);
    }
    if id !in db {
      return Err(PackageMissing);
    }
    var p := db[id];
    var origins: map<string, Snapshot> := map[];
    for n := 0 to |Rows(p)|
      invariant BuildOrigins(db, Rows(p), ancestors + [id], n) == Ok(origins)
    {
      var source := Rows(p)[n];
      if source !in db {
        BuildFailsEarly(db, Rows(p), ancestors + [id], n + 1, |Rows(p)|);
        return Err(OriginMissing);
      }
      if source !in origins {
        var s := PersistedSnapshot(db, source, ancestors + [id]);
        if s.Err? {
          BuildFailsEarly(db, Rows(p), ancestors + [id], n + 1, |Rows(p)|);
          return Err(s.error);
        }
        origins := origins[source := s.value];
      }
    }
    r := Ok(Snapshot(id, p.retentions, p.expansions, origins));
  }

  lemma {:induction false} BuildFailsEarly(db: Database, rows: seq<string>, ancestors: seq<string>, m: nat, n: nat)
    requires m <= n <= |rows| && |ancestors| <= ANCESTRY_BOUND && BuildOrigins(db, rows, ancestors, m).Err?
    ensures BuildOrigins(db, rows, ancestors, n) == BuildOrigins(db, rows, ancestors, m)
  {
    if m < n {
      BuildFailsEarly(db, rows, ancestors, m, n - 1);
    }
  }

  // ---- when reading succeeds -----------------------------------------------

  /** Each package of the chain after the first is an origin of the one before. */
  predicate IsChain(db: Database, chain: seq<string>) {
    && chain != []
    && forall i | 0 <= i < |chain| - 1 :: Quotes(db, chain, i)
  }

  predicate Quotes(db: Database, chain: seq<string>, i: nat)
    requires i + 1 < |chain|
  {
    chain[i] in db && chain[i + 1] in Rows(db[chain[i]])
  }

  /** The chain can be followed below the given ancestors: every package exists, none
      repeats or is an ancestor, and the bound is respected. */
  predicate Followable(db: Database, ancestors: seq<string>, chain: seq<string>) {
    && (forall x | x in chain :: x in db && x !in ancestors)
    && Distinct(chain)
    && |ancestors| + |chain| <= 32
  }

  ghost predicate AllFollowable(db: Database, id: string, ancestors: seq<string>) {
    forall chain: seq<string> {:trigger IsChain(db, chain)} | IsChain(db, chain) && chain[0] == id ::
      Followable(db, ancestors, chain)
  }

  lemma {:induction false} BuiltExactly(db: Database, rows: seq<string>, ancestors: seq<string>, n: nat)
    requires n <= |rows| && |ancestors| <= ANCESTRY_BOUND
    ensures BuildOrigins(db, rows, ancestors, n).Ok? <==>
            forall i | 0 <= i < n :: rows[i] in db && Build(db, rows[i], ancestors).Ok?
  {
    if n > 0 {
      BuiltExactly(db, rows, ancestors, n - 1);
      if BuildOrigins(db, rows, ancestors, n - 1).Ok? {
        BuiltRows(db, rows, ancestors, n - 1);
      }
    }
  }

  lemma {:induction false} BuiltRows(db: Database, rows: seq<string>, ancestors: seq<string>, n: nat)
    requires n <= |rows| && |ancestors| <= ANCESTRY_BOUND && BuildOrigins(db, rows, ancestors, n).Ok?
    ensures var origins := BuildOrigins(db, rows, ancestors, n).value;
            && (forall i | 0 <= i < n :: rows[i] in origins)
            && (forall k | k in origins :: Build(db, k, ancestors) == Ok(origins[k]) && k in rows)
  {
    if n > 0 {
      BuiltRows(db, rows, ancestors, n - 1);
    }
  }

  lemma ChainCons(db: Database, id: string, chain: seq<string>)
    requires IsChain(db, chain) && id in db && chain[0] in Rows(db[id])
    ensures IsChain(db, [id] + chain)
  {
    var longer := [id] + chain;
    forall i | 0 <= i < |longer| - 1 ensures Quotes(db, longer, i) {
      if i > 0 {
        assert Quotes(db, chain, i - 1);
      }
    }
  }

  lemma ChainTail(db: Database, chain: seq<string>)
    requires IsChain(db, chain) && |chain| > 1
    ensures chain[0] in db && chain[1] in Rows(db[chain[0]]) && IsChain(db, chain[1..])
  {
    assert Quotes(db, chain, 0);
    var tail := chain[1..];
    forall i | 0 <= i < |tail| - 1 ensures Quotes(db, tail, i) {
      assert Quotes(db, chain, i + 1);
    }
  }

  lemma FollowableCons(db: Database, id: string, ancestors: seq<string>, chain: seq<string>)
    requires id in db && id !in ancestors
    ensures Followable(db, ancestors, [id] + chain) <==>
            Followable(db, ancestors + [id], chain) && |ancestors| + 1 + |chain| <= 32
  {
    var longer := [id] + chain;
    assert forall x :: x in longer <==> x == id || x in chain;
    assert forall x :: x in ancestors + [id] <==> x == id || x in ancestors;
    if Followable(db, ancestors, longer) {
      assert forall j | 0 <= j < |chain| :: longer[j + 1] == chain[j];
      assert forall j | 0 <= j < |chain| :: chain[j] != longer[0];
      forall i, j | 0 <= i < j < |chain| ensures chain[i] != chain[j] {
        assert longer[i + 1] != longer[j + 1];
      }
    }
  }

  lemma {:induction false} BuiltIsFollowable(db: Database, id: string, ancestors: seq<string>, chain: seq<string>)
    requires Build(db, id, ancestors).Ok? && IsChain(db, chain) && chain[0] == id
    ensures Followable(db, ancestors, chain)
    decreases |chain|
  {
    if |chain| > 1 {
      ChainTail(db, chain);
      var rows := Rows(db[id]);
      BuiltExactly(db, rows, ancestors + [id], |rows|);
      var i :| 0 <= i < |rows| && rows[i] == chain[1];
      assert Build(db, rows[i], ancestors + [id]).Ok?;
      BuiltIsFollowable(db, chain[1], ancestors + [id], chain[1..]);
      FollowableCons(db, id, ancestors, chain[1..]);
      assert chain == [id] + chain[1..];
    }
  }

  lemma {:induction false} FollowableIsBuilt(db: Database, id: string, ancestors: seq<string>)
    requires AllFollowable(db, id, ancestors)
    ensures Build(db, id, ancestors).Ok?
    decreases ANCESTRY_BOUND - |ancestors|
  {
    assert IsChain(db, [id]);
    assert id in [id];
    var rows := Rows(db[id]);
    forall i | 0 <= i < |rows| ensures rows[i] in db && Build(db, rows[i], ancestors + [id]).Ok? {
      forall chain: seq<string> {:trigger IsChain(db, chain)} | IsChain(db, chain) && chain[0] == rows[i]
        ensures Followable(db, ancestors + [id], chain)
      {
        ChainCons(db, id, chain);
        FollowableCons(db, id, ancestors, chain);
      }
      assert IsChain(db, [rows[i]]);
      assert rows[i] in [rows[i]];
      assert Followable(db, ancestors + [id], [rows[i]]);
      FollowableIsBuilt(db, rows[i], ancestors + [id]);
    }
    BuiltExactly(db, rows, ancestors + [id], |rows|);
  }

  /** Reading terminates on every database, cyclic or not, and succeeds exactly when
      every chain of origins from the package is free of repetition, within the
      bound, and leads to existing packages only. */
  lemma BuildSucceedsExactly(db: Database, id: string, ancestors: seq<string>)
    ensures Build(db, id, ancestors).Ok? <==> AllFollowable(db, id, ancestors)
  {
    if Build(db, id, ancestors).Ok? {
      forall chain: seq<string> {:trigger IsChain(db, chain)} | IsChain(db, chain) && chain[0] == id
        ensures Followable(db, ancestors, chain)
      {
        BuiltIsFollowable(db, id, ancestors, chain);
      }
    }
    if AllFollowable(db, id, ancestors) {
      FollowableIsBuilt(db, id, ancestors);
    }
  }

  // ---- why reading fails ---------------------------------------------------

  /** Reading the rows in order fails at row i with this error. */
  predicate FailsAt(db: Database, rows: seq<string>, ancestors: seq<string>, i: nat, e: Failure)
    requires i < |rows| && |ancestors| <= ANCESTRY_BOUND
  {
    && (forall j | 0 <= j < i :: rows[j] in db && Build(db, rows[j], ancestors).Ok?)
    && if rows[i] in db then Build(db, rows[i], ancestors) == Err(e) else e == OriginMissing
  }

  lemma LastRowFails(db: Database, rows: seq<string>, ancestors: seq<string>, i: nat)
    requires i < |rows| && |ancestors| <= ANCESTRY_BOUND
    requires BuildOrigins(db, rows, ancestors, i).Ok? && BuildOrigins(db, rows, ancestors, i + 1).Err?
    ensures if rows[i] in db then Build(db, rows[i], ancestors) == Err(BuildOrigins(db, rows, ancestors, i + 1).error)
            else BuildOrigins(db, rows, ancestors, i + 1).error == OriginMissing
  {
  }

  lemma {:induction false} FirstFailingRow(db: Database, rows: seq<string>, ancestors: seq<string>, n: nat) returns (i: nat)
    requires n <= |rows| && |ancestors| <= ANCESTRY_BOUND && BuildOrigins(db, rows, ancestors, n).Err?
    ensures i < n && FailsAt(db, rows, ancestors, i, BuildOrigins(db, rows, ancestors, n).error)
  {
    i := n - 1;
    if BuildOrigins(db, rows, ancestors, i).Err? {
      BuildFailsEarly(db, rows, ancestors, i, n);
      i := FirstFailingRow(db, rows, ancestors, i);
    } else {
      BuiltExactly(db, rows, ancestors, i);
      LastRowFails(db, rows, ancestors, i);
    }
  }

  /** The chain leads on to a package that cannot be read, and fails there with this error:
      the package is an ancestor, is one too many, or does not exist. */
  predicate EndsIn(db: Database, ancestors: seq<string>, chain: seq<string>, e: Failure)
    requires chain != []
  {
    var before, last := chain[..|chain| - 1], chain[|chain| - 1];
    && (before == [] || Followable(db, ancestors, before))
    && if |chain| > 1 && last !in db then e == OriginMissing
       else if last in ancestors || last in before || |ancestors| + |before| >= 32 then e == AncestryInvalid
       else last !in db && e == PackageMissing
  }

  lemma EndsInCons(db: Database, id: string, ancestors: seq<string>, chain: seq<string>, e: Failure)
    requires chain != [] && id in db && id !in ancestors && |ancestors| < ANCESTRY_BOUND
    requires EndsIn(db, ancestors + [id], chain, e) && (|chain| == 1 && chain[0] !in db ==> e == OriginMissing)
    ensures EndsIn(db, ancestors, [id] + chain, e)
  {
    var longer, before := [id] + chain, chain[..|chain| - 1];
    assert longer[..|longer| - 1] == [id] + before;
    assert [id] + [] == [id] && Followable(db, ancestors, [id]);
    FollowableCons(db, id, ancestors, before);
    assert forall x :: x in [id] + before <==> x == id || x in before;
  }

  /** A failure is explained by a chain of origins: everything on it before the last
      package can be read, and the last one cannot, for the reason given. */
  lemma {:induction false} FailureIsExplained(db: Database, id: string, ancestors: seq<string>) returns (chain: seq<string>)
    requires Build(db, id, ancestors).Err?
    ensures IsChain(db, chain) && chain[0] == id && EndsIn(db, ancestors, chain, Build(db, id, ancestors).error)
    decreases ANCESTRY_BOUND - |ancestors|
  {
    chain := [id];
    assert chain[..0] == [];
    if id !in ancestors && |ancestors| < ANCESTRY_BOUND && id in db {
      var rows, deeper := Rows(db[id]), ancestors + [id];
      var i := FirstFailingRow(db, rows, deeper, |rows|);
      if rows[i] in db {
        var rest := FailureIsExplained(db, rows[i], deeper);
        ChainCons(db, id, rest);
        EndsInCons(db, id, ancestors, rest, Build(db, id, ancestors).error);
        chain := [id] + rest;
      } else {
        chain := [id, rows[i]];
        ChainCons(db, id, [rows[i]]);
        assert [id] + [rows[i]] == chain && chain[..1] == [id];
      }
    }
  }
}
