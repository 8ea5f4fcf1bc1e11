/** Training and encoding told as traces: which vectors a centre serves, where it moves,
    when the passes stop, and which centres an encoding names. */
module TrainingTraces {
  import opened Basics
  import opened Codebooks
  import opened ResidualLevels

  // ---- distances and service -----------------------------------------------

  function Differences(a: Vector, b: Vector): seq<real>
    requires |a| == |b|
  {
    seq(|a|, x requires 0 <= x < |a| => Square(a[x] - b[x]))
  }

  lemma SumCons(x: real, xs: seq<real>)
    ensures Sum([x] + xs) == x + Sum(xs)
  {
    SumAdds([x], xs);
    SumAdds([x], []);
  }

  lemma {:induction false} DistanceIsSum(a: Vector, b: Vector)
    requires |a| == |b|
    ensures SquaredDistance(a, b) == Sum(Differences(a, b))
  {
    if a != [] {
      DistanceIsSum(a[1..], b[1..]);
      SumCons(Square(a[0] - b[0]), Differences(a[1..], b[1..]));
      assert Differences(a, b) == [Square(a[0] - b[0])] + Differences(a[1..], b[1..]);
    }
  }

  /** g is the first of the centres at the least distance from v. */
  predicate ServedBy(v: Vector, centers: seq<Vector>, g: nat)
    requires g < |centers|
  {
    forall j | 0 <= j < |centers| ::
      && SquaredDistance(v, centers[g]) <= SquaredDistance(v, centers[j])
      && (j < g ==> SquaredDistance(v, centers[g]) < SquaredDistance(v, centers[j]))
  }

  lemma ServedByNearest(v: Vector, centers: seq<Vector>, g: nat)
    requires g < |centers|
    ensures ServedBy(v, centers, g) <==> g == Nearest(v, centers)
  {
    var best := Nearest(v, centers);
    forall j | 0 <= j < |centers|
      ensures && SquaredDistance(v, centers[best]) <= SquaredDistance(v, centers[j])
              && (j < best ==> SquaredDistance(v, centers[best]) < SquaredDistance(v, centers[j]))
    {
      NearestIsFirstLeast(v, centers, |centers|, j);
    }
  }

  // ---- one pass ------------------------------------------------------------

  /** The positions of the vectors that centre g serves. */
  function Served(vs: seq<Vector>, centers: seq<Vector>, g: nat): set<nat>
    requires g < |centers|
  {
    set i: nat | i < |vs| && ServedBy(vs[i], centers, g)
  }

  /** The x-th coordinates of the vectors that centre g serves, zero for the others. */
  function Column(vs: seq<Vector>, centers: seq<Vector>, g: nat, x: nat): seq<real>
    requires g < |centers| && forall i | 0 <= i < |vs| :: x < |vs[i]|
  {
    seq(|vs|, i requires 0 <= i < |vs| => if ServedBy(vs[i], centers, g) then vs[i][x] else 0.0)
  }

  /** n copies of m add up to the total. */
  predicate IsMean(n: nat, m: real, total: real) {
    n as real * m == total
  }

  /** Centre g moves to the mean of the vectors it serves, or stays if it serves none. */
  predicate MovesTo(vs: seq<Vector>, centers: seq<Vector>, dim: nat, g: nat, c: Vector)
    requires g < |centers| && Uniform(vs, dim)
  {
    var served := Served(vs, centers, g);
    if served == {} then c == centers[g]
    else |c| == dim && forall x | 0 <= x < dim :: IsMean(|served|, c[x], Sum(Column(vs, centers, g, x)))
  }

  predicate Pass(vs: seq<Vector>, centers: seq<Vector>, dim: nat, updated: seq<Vector>)
    requires Uniform(vs, dim)
  {
    |updated| == |centers| && forall g | 0 <= g < |centers| :: MovesTo(vs, centers, dim, g, updated[g])
  }

  lemma {:induction false} ColumnSumSnoc(vs: seq<Vector>, v: Vector, x: nat)
    requires x < |v| && forall i | 0 <= i < |vs| :: x < |vs[i]|
    ensures ColumnSum(vs + [v], x) == ColumnSum(vs, x) + v[x]
  {
    if vs == [] {
      assert vs + [v] == [v];
    } else {
      ColumnSumSnoc(vs[1..], v, x);
      assert (vs + [v])[1..] == vs[1..] + [v];
    }
  }

  lemma SumSnoc(xs: seq<real>, x: real)
    ensures Sum(xs + [x]) == Sum(xs) + x
  {
    assert (xs + [x])[..|xs|] == xs;
  }

  lemma GroupGrows(front: seq<Vector>, v: Vector, centers: seq<Vector>, g: nat) returns (before: seq<Vector>)
    requires g < |centers|
    ensures before == Group(front, Assignment(front, centers), g)
    ensures Group(front + [v], Assignment(front + [v], centers), g)
            == before + if ServedBy(v, centers, g) then [v] else []
  {
    before := Group(front, Assignment(front, centers), g);
    AssignmentSnoc(front, v, centers);
    GroupSnoc(front, Assignment(front, centers), v, Nearest(v, centers), g);
    ServedByNearest(v, centers, g);
  }

  lemma {:induction false} GroupCount(vs: seq<Vector>, centers: seq<Vector>, g: nat)
    requires g < |centers|
    ensures |Group(vs, Assignment(vs, centers), g)| == |Served(vs, centers, g)|
  {
    if vs == [] {
      assert Served(vs, centers, g) == {};
    } else {
      var front, v := vs[..|vs| - 1], vs[|vs| - 1];
      assert vs == front + [v];
      GroupCount(front, centers, g);
      var before := GroupGrows(front, v, centers, g);
      ServedSnoc(front, v, centers, g);
    }
  }

  lemma {:induction false} GroupColumn(vs: seq<Vector>, centers: seq<Vector>, dim: nat, g: nat, x: nat)
    requires g < |centers| && Uniform(vs, dim) && x < dim
    ensures Uniform(Group(vs, Assignment(vs, centers), g), dim)
    ensures ColumnSum(Group(vs, Assignment(vs, centers), g), x) == Sum(Column(vs, centers, g, x))
  {
    GroupUniform(vs, Assignment(vs, centers), g, dim);
    if vs != [] {
      var front, v := vs[..|vs| - 1], vs[|vs| - 1];
      assert vs == front + [v];
      GroupColumn(front, centers, dim, g, x);
      var before := GroupGrows(front, v, centers, g);
      ColumnSnoc(front, v, centers, g, x);
      if ServedBy(v, centers, g) {
        ColumnSumSnoc(before, v, x);
      } else {
        assert before + [] == before;
      }
    }
  }

  lemma ServedSnoc(front: seq<Vector>, v: Vector, centers: seq<Vector>, g: nat)
    requires g < |centers|
    ensures |Served(front + [v], centers, g)| == |Served(front, centers, g)| + if ServedBy(v, centers, g) then 1 else 0
  {
    var last: nat := |front|;
    assert Served(front + [v], centers, g) == Served(front, centers, g) + if ServedBy(v, centers, g) then {last} else {};
  }

  lemma ColumnSnoc(front: seq<Vector>, v: Vector, centers: seq<Vector>, g: nat, x: nat)
    requires g < |centers| && x < |v| && forall i | 0 <= i < |front| :: x < |front[i]|
    ensures Sum(Column(front + [v], centers, g, x))
            == Sum(Column(front, centers, g, x)) + if ServedBy(v, centers, g) then v[x] else 0.0
  {
    var last := if ServedBy(v, centers, g) then v[x] else 0.0;
    assert Column(front + [v], centers, g, x) == Column(front, centers, g, x) + [last];
    SumSnoc(Column(front, centers, g, x), last);
  }

  lemma MeanIsQuotient(n: nat, m: real, total: real)
    requires n > 0
    ensures m == total / n as real <==> IsMean(n, m, total)
  {
  }

  lemma CentroidAt(group: seq<Vector>, dim: nat, m: real, x: nat)
    requires group != [] && Uniform(group, dim) && x < dim
    ensures m == Centroid(group, dim)[x] <==> IsMean(|group|, m, ColumnSum(group, x))
  {
    MeanIsQuotient(|group|, m, ColumnSum(group, x));
  }

  predicate MeansOf(group: seq<Vector>, dim: nat, c: Vector)
    requires Uniform(group, dim)
  {
    |c| == dim && forall x | 0 <= x < dim :: IsMean(|group|, c[x], ColumnSum(group, x))
  }

  lemma MeanVector(group: seq<Vector>, dim: nat, c: Vector)
    requires group != [] && Uniform(group, dim)
    ensures c == Centroid(group, dim) <==> MeansOf(group, dim, c)
  {
    var mean := Centroid(group, dim);
    forall x | 0 <= x < dim && |c| == dim ensures c[x] == mean[x] <==> IsMean(|group|, c[x], ColumnSum(group, x)) {
      CentroidAt(group, dim, c[x], x);
    }
  }

  lemma MovesExactly(vs: seq<Vector>, centers: seq<Vector>, dim: nat, g: nat, c: Vector)
    requires g < |centers| && Uniform(vs, dim)
    ensures c == Updated(vs, centers, dim)[g] <==> MovesTo(vs, centers, dim, g, c)
  {
    var group := Group(vs, Assignment(vs, centers), g);
    GroupUniform(vs, Assignment(vs, centers), g, dim);
    GroupCount(vs, centers, g);
    forall x | 0 <= x < dim ensures ColumnSum(group, x) == Sum(Column(vs, centers, g, x)) {
      GroupColumn(vs, centers, dim, g, x);
    }
    if group != [] {
      MeanVector(group, dim, c);
    }
  }

  /** One pass of training is one move of every centre. */
  lemma PassExactly(vs: seq<Vector>, centers: seq<Vector>, dim: nat, updated: seq<Vector>)
    requires centers != [] && Uniform(vs, dim)
    ensures updated == Updated(vs, centers, dim) <==> Pass(vs, centers, dim, updated)
  {
    forall g | 0 <= g < |centers| && |updated| == |centers|
      ensures updated[g] == Updated(vs, centers, dim)[g] <==> MovesTo(vs, centers, dim, g, updated[g])
    {
      MovesExactly(vs, centers, dim, g, updated[g]);
    }
  }

  // ---- one codebook --------------------------------------------------------

  /** The vectors with this key, in order. */
  function WithKey(vs: seq<Vector>, key: Vector -> int, x: int): seq<Vector> {
    if vs == [] then [] else (if key(vs[0]) == x then [vs[0]] else []) + WithKey(vs[1..], key, x)
  }

  /** By ascending key; vectors with equal keys stay in the order they came in. */
  ghost predicate StablySorted(vs: seq<Vector>, ordered: seq<Vector>, key: Vector -> int) {
    && |ordered| == |vs|
    && ByKey(ordered, key)
    && (forall x :: WithKey(ordered, key, x) == WithKey(vs, key, x))
  }

  lemma {:induction false} InsertKeepsKeys(vs: seq<Vector>, v: Vector, key: Vector -> int, x: int)
    ensures WithKey(InsertByKey(vs, v, key), key, x) == WithKey([v] + vs, key, x)
  {
    assert ([v] + vs)[1..] == vs;
    if vs != [] && key(v) > key(vs[0]) {
      InsertKeepsKeys(vs[1..], v, key, x);
      assert ([v] + vs[1..])[1..] == vs[1..];
      assert InsertByKey(vs, v, key)[1..] == InsertByKey(vs[1..], v, key);
    }
  }

  predicate ByKey(vs: seq<Vector>, key: Vector -> int) {
    forall i, j | 0 <= i < j < |vs| :: key(vs[i]) <= key(vs[j])
  }

  lemma {:induction false} InsertMembers(vs: seq<Vector>, v: Vector, key: Vector -> int)
    ensures forall u | u in InsertByKey(vs, v, key) :: u == v || u in vs
  {
    if vs != [] && key(v) > key(vs[0]) {
      InsertMembers(vs[1..], v, key);
    }
  }

  lemma ByKeyCons(v: Vector, vs: seq<Vector>, key: Vector -> int)
    requires ByKey(vs, key) && forall u | u in vs :: key(v) <= key(u)
    ensures ByKey([v] + vs, key)
  {
  }

  lemma {:induction false} InsertSortsKeys(vs: seq<Vector>, v: Vector, key: Vector -> int)
    requires ByKey(vs, key)
    ensures ByKey(InsertByKey(vs, v, key), key)
  {
    if vs != [] {
      assert forall u | u in vs :: key(vs[0]) <= key(u);
      if key(v) > key(vs[0]) {
        InsertSortsKeys(vs[1..], v, key);
        InsertMembers(vs[1..], v, key);
        ByKeyCons(vs[0], InsertByKey(vs[1..], v, key), key);
      } else {
        ByKeyCons(v, vs, key);
      }
    }
  }

  lemma {:induction false} SortIsStable(vs: seq<Vector>, key: Vector -> int)
    ensures StablySorted(vs, SortByKey(vs, key), key)
  {
    if vs != [] {
      var rest := SortByKey(vs[1..], key);
      SortIsStable(vs[1..], key);
      InsertSortsKeys(rest, vs[0], key);
      forall x ensures WithKey(SortByKey(vs, key), key, x) == WithKey(vs, key, x) {
        InsertKeepsKeys(rest, vs[0], key, x);
        assert ([vs[0]] + rest)[1..] == rest;
      }
    }
  }

  /** The seeds: every step-th of the ordered vectors, the last one repeated if they run out. */
  predicate Spread(ordered: seq<Vector>, k: nat, seeds: seq<Vector>)
    requires ordered != [] && k > 0
  {
    var n := |ordered|;
    |seeds| == k && forall i | 0 <= i < k ::
      var at := if n < k then i else i * (n / k); seeds[i] == if at < n - 1 then ordered[at] else ordered[n - 1]
  }

  lemma SeedsAreSpread(ordered: seq<Vector>, k: nat)
    requires ordered != [] && k > 0
    ensures Spread(ordered, k, Seeds(ordered, k))
  {
    var n := |ordered|;
    if n < k {
      forall i | 0 <= i < k ensures SeedIndex(n, k, i) == if i < n - 1 then i else n - 1 {
        SmallQuotient(n, k);
      }
    } else {
      StepAtLeastOne(n, k);
    }
  }

  lemma SmallQuotient(n: nat, k: nat)
    requires n < k
    ensures n / k == 0
  {
  }

  /** No centre moves by as much as a millionth. */
  predicate Settled(centers: seq<Vector>, updated: seq<Vector>)
    requires |centers| == |updated|
  {
    forall g | 0 <= g < |centers| :: SquaredDistance(centers[g], updated[g]) < 0.000000000001
  }

  ghost predicate MovesOn(vs: seq<Vector>, dim: nat, centers: seq<Vector>, next: seq<Vector>)
    requires Uniform(vs, dim)
  {
    Pass(vs, centers, dim, next) && !Settled(centers, next)
  }

  ghost predicate MovesAt(vs: seq<Vector>, dim: nat, centers: seq<seq<Vector>>, p: nat)
    requires Uniform(vs, dim) && p + 1 < |centers|
  {
    MovesOn(vs, dim, centers[p], centers[p + 1])
  }

  ghost predicate Stops(vs: seq<Vector>, dim: nat, centers: seq<Vector>, next: seq<Vector>)
    requires Uniform(vs, dim)
  {
    Pass(vs, centers, dim, next) && Settled(centers, next)
  }

  /** Successive centres: each pass moves on, until the passes are used up or the next
      one would settle. */
  ghost predicate Trace(vs: seq<Vector>, dim: nat, passes: nat, centers: seq<seq<Vector>>)
    requires Uniform(vs, dim)
  {
    && 1 <= |centers| <= passes + 1
    && (forall p | 0 <= p < |centers| - 1 :: MovesAt(vs, dim, centers, p))
    && (|centers| == passes + 1 || Ends(vs, dim, centers[|centers| - 1]))
  }

  ghost predicate Ends(vs: seq<Vector>, dim: nat, last: seq<Vector>)
    requires Uniform(vs, dim)
  {
    exists next :: Stops(vs, dim, last, next)
  }

  lemma TraceOfOne(vs: seq<Vector>, dim: nat, passes: nat, centers: seq<Vector>)
    requires Uniform(vs, dim) && (passes == 0 || Ends(vs, dim, centers))
    ensures Trace(vs, dim, passes, [centers])
  {
  }

  lemma TraceCons(vs: seq<Vector>, dim: nat, passes: nat, first: seq<Vector>, rest: seq<seq<Vector>>)
    requires Uniform(vs, dim) && passes > 0 && Trace(vs, dim, passes - 1, rest)
    requires MovesOn(vs, dim, first, rest[0])
    ensures Trace(vs, dim, passes, [first] + rest)
    ensures var all := [first] + rest; all[0] == first && all[|all| - 1] == rest[|rest| - 1]
  {
    var all := [first] + rest;
    forall p | 0 <= p < |all| - 1 ensures MovesAt(vs, dim, all, p) {
      if p > 0 {
        assert MovesAt(vs, dim, rest, p - 1);
      }
    }
  }

  /** The next centres, and whether training stops before them. */
  lemma NextPass(vs: seq<Vector>, dim: nat, centers: seq<Vector>) returns (updated: seq<Vector>)
    requires centers != [] && Uniform(vs, dim)
    ensures updated == Updated(vs, centers, dim)
    ensures Converged(centers, updated, WithinTolerance()) ==> Ends(vs, dim, centers)
    ensures !Converged(centers, updated, WithinTolerance()) ==> MovesOn(vs, dim, centers, updated)
  {
    updated := Updated(vs, centers, dim);
    PassExactly(vs, centers, dim, updated);
    assert Converged(centers, updated, WithinTolerance()) ==> Stops(vs, dim, centers, updated);
  }

  /** The trace starts and ends with these centres. */
  ghost predicate Traces(vs: seq<Vector>, dim: nat, passes: nat, trace: seq<seq<Vector>>, first: seq<Vector>, last: seq<Vector>)
    requires Uniform(vs, dim)
  {
    Trace(vs, dim, passes, trace) && trace[0] == first && trace[|trace| - 1] == last
  }

  lemma TracesOne(vs: seq<Vector>, dim: nat, passes: nat, centers: seq<Vector>)
    requires Uniform(vs, dim) && (passes == 0 || Ends(vs, dim, centers))
    ensures Traces(vs, dim, passes, [centers], centers, centers)
  {
    TraceOfOne(vs, dim, passes, centers);
  }

  lemma TracesCons(vs: seq<Vector>, dim: nat, passes: nat, first: seq<Vector>, next: seq<Vector>, last: seq<Vector>,
                   rest: seq<seq<Vector>>)
    requires Uniform(vs, dim) && passes > 0 && Traces(vs, dim, passes - 1, rest, next, last)
    requires MovesOn(vs, dim, first, next)
    ensures Traces(vs, dim, passes, [first] + rest, first, last)
  {
    TraceCons(vs, dim, passes, first, rest);
  }

  lemma LastMoves(vs: seq<Vector>, dim: nat, centers: seq<Vector>, passes: nat) returns (ends: bool, updated: seq<Vector>)
    requires centers != [] && Uniform(vs, dim) && passes > 0
    ensures ends ==> Ends(vs, dim, centers) && Lloyd(vs, centers, dim, passes, WithinTolerance()) == centers
    ensures !ends ==> MovesOn(vs, dim, centers, updated) && updated != []
                      && Lloyd(vs, centers, dim, passes, WithinTolerance())
                         == Lloyd(vs, updated, dim, passes - 1, WithinTolerance())
  {
    updated := NextPass(vs, dim, centers);
    ends := Converged(centers, updated, WithinTolerance());
    if ends {
      LloydStops(vs, centers, dim, passes, WithinTolerance());
    } else {
      LloydContinues(vs, centers, dim, passes, WithinTolerance());
    }
  }

  lemma {:induction false} LloydTraces(vs: seq<Vector>, centers: seq<Vector>, dim: nat, passes: nat, last: seq<Vector>)
    returns (trace: seq<seq<Vector>>)
    requires centers != [] && Uniform(vs, dim) && last == Lloyd(vs, centers, dim, passes, WithinTolerance())
    ensures Traces(vs, dim, passes, trace, centers, last)
    decreases passes
  {
    trace := [centers];
    if passes == 0 {
      TracesOne(vs, dim, passes, centers);
    } else {
      var ends, updated := LastMoves(vs, dim, centers, passes);
      if ends {
        TracesOne(vs, dim, passes, centers);
      } else {
        var rest := LloydTraces(vs, updated, dim, passes - 1, last);
        TracesCons(vs, dim, passes, centers, updated, last, rest);
        trace := [centers] + rest;
      }
    }
  }

  /** Training one codebook of several centres: from seeds spread over the stably sorted
      vectors, by passes of moving centres, at most eight. */
  lemma TrainingTraces(vs: seq<Vector>, k: nat, dim: nat, key: Vector -> int)
    returns (ordered: seq<Vector>, trace: seq<seq<Vector>>)
    requires vs != [] && k >= 2 && Uniform(vs, dim)
    ensures StablySorted(vs, ordered, key) && Uniform(ordered, dim) && ordered != []
    ensures Trace(ordered, dim, 8, trace) && Spread(ordered, k, trace[0])
    ensures TrainCodebook(vs, k, ITERATIONS, dim, key) == trace[|trace| - 1]
  {
    ordered := SortByKey(vs, key);
    SortIsStable(vs, key);
    SortKeepsSums(vs, key, [[]], dim);
    SeedsAreSpread(ordered, k);
    trace := LloydTraces(ordered, Seeds(ordered, k), dim, 8, TrainCodebook(vs, k, ITERATIONS, dim, key));
  }

  /** A codebook of one centre is the mean of all vectors. */
  lemma SingleCentreIsMean(vs: seq<Vector>, k: int, dim: nat, key: Vector -> int) returns (c: Vector)
    requires vs != [] && k <= 1 && Uniform(vs, dim)
    ensures TrainCodebook(vs, k, ITERATIONS, dim, key) == [c] && MeansOf(vs, dim, c)
  {
    var ordered := SortByKey(vs, key);
    SortKeepsSums(vs, key, [[]], dim);
    c := Centroid(ordered, dim);
    MeanVector(ordered, dim, c);
    forall x | 0 <= x < dim ensures IsMean(|vs|, c[x], ColumnSum(vs, x)) {
      SortKeepsColumns(vs, key, dim, x);
    }
  }

  lemma {:induction false} InsertKeepsColumns(vs: seq<Vector>, v: Vector, key: Vector -> int, dim: nat, x: nat)
    requires Uniform(vs, dim) && |v| == dim && x < dim
    ensures Uniform(InsertByKey(vs, v, key), dim)
    ensures ColumnSum(InsertByKey(vs, v, key), x) == v[x] + ColumnSum(vs, x)
  {
    if vs == [] {
    } else if key(v) <= key(vs[0]) {
      assert ([v] + vs)[1..] == vs;
    } else {
      InsertKeepsColumns(vs[1..], v, key, dim, x);
      assert InsertByKey(vs, v, key)[1..] == InsertByKey(vs[1..], v, key);
    }
  }

  lemma {:induction false} SortKeepsColumns(vs: seq<Vector>, key: Vector -> int, dim: nat, x: nat)
    requires Uniform(vs, dim) && x < dim
    ensures Uniform(SortByKey(vs, key), dim)
    ensures ColumnSum(SortByKey(vs, key), x) == ColumnSum(vs, x)
  {
    if vs != [] {
      SortKeepsColumns(vs[1..], key, dim, x);
      InsertKeepsColumns(SortByKey(vs[1..], key), vs[0], key, dim, x);
    }
  }

  // ---- encoding ------------------------------------------------------------

  /** What is left of v after the first n centres on the path. */
  function Rest(v: Vector, books: seq<seq<Vector>>, path: seq<nat>, n: nat): (r: Vector)
    requires AreCodebooks(books, |v|) && OnPath(books, path) && n <= |path|
    ensures |r| == |v|
  {
    if n == 0 then v else
      var before, c := Rest(v, books, path, n - 1), books[n - 1][path[n - 1] - 1];
      assert IsCodebook(books[n - 1], |v|);
      seq(|v|, x requires 0 <= x < |v| => before[x] - c[x])
  }

  predicate OnPath(books: seq<seq<Vector>>, path: seq<nat>) {
    |path| == |books| && forall l | 0 <= l < |path| :: 1 <= path[l] <= |books[l]|
  }

  /** The l-th centre on the path is the nearest to what the levels before left. */
  predicate NearestAt(v: Vector, books: seq<seq<Vector>>, path: seq<nat>, l: nat)
    requires AreCodebooks(books, |v|) && OnPath(books, path) && l < |path|
  {
    ServedBy(Rest(v, books, path, l), books[l], path[l] - 1)
  }

  predicate NearestPath(v: Vector, books: seq<seq<Vector>>, path: seq<nat>)
    requires AreCodebooks(books, |v|)
  {
    OnPath(books, path) && forall l | 0 <= l < |path| :: NearestAt(v, books, path, l)
  }

  lemma {:induction false} RestShifts(v: Vector, books: seq<seq<Vector>>, path: seq<nat>, n: nat)
    requires AreCodebooks(books, |v|) && OnPath(books, path) && 1 <= n <= |path|
    ensures var c := books[0][path[0] - 1];
            |c| == |v| && Rest(v, books, path, n) == Rest(Minus(v, c), books[1..], path[1..], n - 1)
  {
    assert IsCodebook(books[0], |v|);
    if n > 1 {
      RestShifts(v, books, path, n - 1);
    }
  }

  lemma NearestShifts(v: Vector, books: seq<seq<Vector>>, path: seq<nat>, l: nat)
    requires AreCodebooks(books, |v|) && OnPath(books, path) && 1 <= l < |path|
    ensures var c := books[0][path[0] - 1];
            |c| == |v| && (NearestAt(v, books, path, l) <==> NearestAt(Minus(v, c), books[1..], path[1..], l - 1))
  {
    RestShifts(v, books, path, l);
  }

  lemma NearestPathSplits(v: Vector, books: seq<seq<Vector>>, path: seq<nat>)
    requires AreCodebooks(books, |v|) && books != [] && OnPath(books, path)
    ensures IsCodebook(books[0], |v|)
    ensures NearestPath(v, books, path) <==>
            path[0] == Nearest(v, books[0]) + 1 && NearestPath(Minus(v, books[0][path[0] - 1]), books[1..], path[1..])
  {
    assert IsCodebook(books[0], |v|);
    ServedByNearest(v, books[0], path[0] - 1);
    var v', rest := Minus(v, books[0][path[0] - 1]), path[1..];
    forall l | 1 <= l < |path| ensures NearestAt(v, books, path, l) <==> NearestAt(v', books[1..], rest, l - 1) {
      NearestShifts(v, books, path, l);
    }
    if NearestPath(v, books, path) {
      forall l | 0 <= l < |rest| ensures NearestAt(v', books[1..], rest, l) {
        assert NearestAt(v, books, path, l + 1);
      }
    }
    if NearestAt(v, books, path, 0) && NearestPath(v', books[1..], rest) {
      forall l | 0 <= l < |path| ensures NearestAt(v, books, path, l) {
        if l > 0 {
          assert NearestAt(v', books[1..], rest, l - 1);
        }
      }
    }
  }

  lemma PathSplits(v: Vector, books: seq<seq<Vector>>)
    requires AreCodebooks(books, |v|) && books != []
    ensures IsCodebook(books[0], |v|) && OnPath(books, PathOf(v, books))
    ensures PathOf(v, books) == [Nearest(v, books[0]) + 1] + PathOf(Residual(v, books[0]), books[1..])
    ensures LeftOver(v, books) == LeftOver(Residual(v, books[0]), books[1..])
  {
    assert IsCodebook(books[0], |v|);
  }

  /** A nearest path for what the first level leaves, behind the first level's centre. */
  lemma NearestPathCons(v: Vector, books: seq<seq<Vector>>, path: seq<nat>, r: Vector, rest: seq<nat>)
    requires AreCodebooks(books, |v|) && books != [] && IsCodebook(books[0], |v|) && r == Residual(v, books[0])
    requires path == [Nearest(v, books[0]) + 1] + rest && NearestPath(r, books[1..], rest)
    ensures NearestPath(v, books, path)
    ensures Rest(v, books, path, |books|) == Rest(r, books[1..], rest, |books| - 1)
  {
    OnPathCons(books, path, rest);
    NearestPathSplits(v, books, path);
    RestShifts(v, books, path, |books|);
  }

  lemma OnPathCons(books: seq<seq<Vector>>, path: seq<nat>, rest: seq<nat>)
    requires books != [] && path != [] && path[1..] == rest && OnPath(books[1..], rest) && 1 <= path[0] <= |books[0]|
    ensures OnPath(books, path)
  {
    forall l | 0 <= l < |path| ensures 1 <= path[l] <= |books[l]| {
      if l > 0 {
        assert path[l] == rest[l - 1] && books[l] == books[1..][l - 1];
      }
    }
  }

  lemma {:induction false} EncodingIsNearest(v: Vector, books: seq<seq<Vector>>)
    requires AreCodebooks(books, |v|)
    ensures NearestPath(v, books, PathOf(v, books))
    ensures LeftOver(v, books) == Rest(v, books, PathOf(v, books), |books|)
    decreases |books|
  {
    if books != [] {
      PathSplits(v, books);
      var r := Residual(v, books[0]);
      EncodingIsNearest(r, books[1..]);
      NearestPathCons(v, books, PathOf(v, books), r, PathOf(r, books[1..]));
    }
  }

  lemma {:induction false} NearestPathIsUnique(v: Vector, books: seq<seq<Vector>>, path: seq<nat>)
    requires AreCodebooks(books, |v|) && NearestPath(v, books, path)
    ensures path == PathOf(v, books)
    decreases |books|
  {
    if books != [] {
      PathSplits(v, books);
      NearestPathSplits(v, books, path);
      NearestPathIsUnique(Residual(v, books[0]), books[1..], path[1..]);
      assert path == [path[0]] + path[1..];
    }
  }

  /** Encoding finds the one path of nearest centres, and what that path leaves. */
  lemma EncodingExactly(v: Vector, books: seq<seq<Vector>>, path: seq<nat>)
    requires AreCodebooks(books, |v|)
    ensures path == PathOf(v, books) <==> NearestPath(v, books, path)
    ensures path == PathOf(v, books) ==> LeftOver(v, books) == Rest(v, books, path, |books|)
  {
    EncodingIsNearest(v, books);
    if NearestPath(v, books, path) {
      NearestPathIsUnique(v, books, path);
    }
  }
}
