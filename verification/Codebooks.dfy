/** Residual k-means: Lloyd's iteration from spread seeds, one codebook per level
    on the residuals of the level before, and the encoding of a vector as the path
    of its nearest centres. Vectors of one training set share a dimension. */
module Codebooks {

  type Vector = seq<real>

  const CONVERGED: real := 0.000000000001

  // ---- distances -----------------------------------------------------------

  function Square(x: real): real { x * x }

  /** Squared distance over the common coordinates. */
  function SquaredDistance(a: Vector, b: Vector): real {
    if a == [] || b == [] then 0.0 else Square(a[0] - b[0]) + SquaredDistance(a[1..], b[1..])
  }

  function SquaredNorm(a: Vector): real {
    if a == [] then 0.0 else Square(a[0]) + SquaredNorm(a[1..])
  }

  function Zero(dim: nat): Vector {
    seq(dim, _ => 0.0)
  }

  predicate Uniform(vs: seq<Vector>, dim: nat) {
    forall i | 0 <= i < |vs| :: |vs[i]| == dim
  }

  lemma SquareNonNegative(x: real)
    ensures Square(x) >= 0.0
  {
  }

  lemma {:induction false} DistanceNonNegative(a: Vector, b: Vector)
    ensures SquaredDistance(a, b) >= 0.0
  {
    if a != [] && b != [] {
      SquareNonNegative(a[0] - b[0]);
      DistanceNonNegative(a[1..], b[1..]);
    }
  }

  lemma {:induction false} DistanceToZero(a: Vector)
    ensures SquaredDistance(a, Zero(|a|)) == SquaredNorm(a)
  {
    if a != [] {
      assert Zero(|a|)[1..] == Zero(|a[1..]|);
      DistanceToZero(a[1..]);
    }
  }

  /** `min(range(len(centers)), key=...)` over the first n centres: the first index
      at the least distance. */
  function NearestAmong(v: Vector, centers: seq<Vector>, n: nat): (best: nat)
    requires 1 <= n <= |centers|
    ensures best < n
  {
    if n == 1 then 0 else
      var best := NearestAmong(v, centers, n - 1);
      if SquaredDistance(v, centers[n - 1]) < SquaredDistance(v, centers[best]) then n - 1 else best
  }

  function Nearest(v: Vector, centers: seq<Vector>): (best: nat)
    requires centers != []
    ensures best < |centers|
  {
    NearestAmong(v, centers, |centers|)
  }

  /** It is the first centre at the least distance. */
  lemma {:induction false} NearestIsFirstLeast(v: Vector, centers: seq<Vector>, n: nat, i: nat)
    requires 1 <= n <= |centers| && i < n
    ensures var best := NearestAmong(v, centers, n);
            && SquaredDistance(v, centers[best]) <= SquaredDistance(v, centers[i])
            && (i < best ==> SquaredDistance(v, centers[best]) < SquaredDistance(v, centers[i]))
  {
    if n > 1 {
      var best := NearestAmong(v, centers, n - 1);
      NearestIsFirstLeast(v, centers, n - 1, best);
      if i < n - 1 {
        NearestIsFirstLeast(v, centers, n - 1, i);
      }
    }
  }

  // ---- centroids and the parallel-axis identity ----------------------------

  function ColumnSum(vs: seq<Vector>, i: nat): real
    requires forall k | 0 <= k < |vs| :: i < |vs[k]|
  {
    if vs == [] then 0.0 else vs[0][i] + ColumnSum(vs[1..], i)
  }

  function Centroid(vs: seq<Vector>, dim: nat): (c: Vector)
    requires vs != [] && Uniform(vs, dim)
    ensures |c| == dim
  {
    seq(dim, i requires 0 <= i < dim => ColumnSum(vs, i) / |vs| as real)
  }

  /** The squared distances of all vectors to one point. */
  function EnergyTo(vs: seq<Vector>, c: Vector): real {
    if vs == [] then 0.0 else SquaredDistance(vs[0], c) + EnergyTo(vs[1..], c)
  }

  function Norms(vs: seq<Vector>): real {
    if vs == [] then 0.0 else SquaredNorm(vs[0]) + Norms(vs[1..])
  }

  function Tails(vs: seq<Vector>): seq<Vector>
    requires forall k | 0 <= k < |vs| :: vs[k] != []
  {
    seq(|vs|, k requires 0 <= k < |vs| => vs[k][1..])
  }

  function Heads(vs: seq<Vector>): seq<real>
    requires forall k | 0 <= k < |vs| :: vs[k] != []
  {
    seq(|vs|, k requires 0 <= k < |vs| => vs[k][0])
  }

  function SumOver(xs: seq<real>, f: real -> real): real {
    if xs == [] then 0.0 else f(xs[0]) + SumOver(xs[1..], f)
  }

  function SquaredFrom(x: real): real -> real {
    y => Square(y - x)
  }

  /** Squared deviations of the first coordinates from x. */
  function HeadEnergy(vs: seq<Vector>, x: real): real
    requires forall k | 0 <= k < |vs| :: vs[k] != []
  {
    SumOver(Heads(vs), SquaredFrom(x))
  }

  lemma {:induction false} EnergySplitsByCoordinate(vs: seq<Vector>, c: Vector)
    requires c != [] && forall k | 0 <= k < |vs| :: vs[k] != []
    ensures EnergyTo(vs, c) == HeadEnergy(vs, c[0]) + EnergyTo(Tails(vs), c[1..])
  {
    if vs != [] {
      EnergySplitsByCoordinate(vs[1..], c);
      assert Tails(vs)[1..] == Tails(vs[1..]);
      assert Heads(vs)[1..] == Heads(vs[1..]);
    }
  }

  lemma SquareShift(y: real, x: real, m: real)
    ensures Square(y - x) == Square(y - m) + (2.0 * (m - x)) * (y - m) + Square(m - x)
  {
  }

  lemma Distribute(n: real, a: real, b: real)
    ensures n * (a + b) == n * a + n * b
  {
  }

  /** n copies of x. */
  function Times(n: nat, x: real): real {
    if n == 0 then 0.0 else x + Times(n - 1, x)
  }

  lemma {:induction false} SumSplits(xs: seq<real>, f: real -> real, g: real -> real, h: real -> real)
    requires forall y :: f(y) == g(y) + h(y)
    ensures SumOver(xs, f) == SumOver(xs, g) + SumOver(xs, h)
  {
    if xs != [] {
      SumSplits(xs[1..], f, g, h);
    }
  }

  function Affine(slope: real, from: real, offset: real): real -> real {
    y => slope * (y - from) + offset
  }

  lemma {:induction false} SumAffine(xs: seq<real>, slope: real, from: real, offset: real)
    ensures SumOver(xs, Affine(slope, from, offset)) == slope * (Total(xs) - Times(|xs|, from)) + Times(|xs|, offset)
  {
    if xs != [] {
      SumAffine(xs[1..], slope, from, offset);
      Distribute(slope, xs[0] - from, Total(xs[1..]) - Times(|xs[1..]|, from));
    }
  }

  function Total(xs: seq<real>): real {
    if xs == [] then 0.0 else xs[0] + Total(xs[1..])
  }

  lemma {:induction false} HeadsTotal(vs: seq<Vector>)
    requires forall k | 0 <= k < |vs| :: vs[k] != []
    ensures Total(Heads(vs)) == ColumnSum(vs, 0)
  {
    if vs != [] {
      HeadsTotal(vs[1..]);
      assert Heads(vs)[1..] == Heads(vs[1..]);
    }
  }

  lemma DeviationsSplit(x: real, m: real)
    ensures forall y :: SquaredFrom(x)(y) == SquaredFrom(m)(y) + Affine(2.0 * (m - x), m, Square(m - x))(y)
  {
    forall y ensures SquaredFrom(x)(y) == SquaredFrom(m)(y) + Affine(2.0 * (m - x), m, Square(m - x))(y) {
      SquareShift(y, x, m);
    }
  }

  /** Moving the reference point from m to x. */
  lemma HeadEnergyShift(vs: seq<Vector>, x: real, m: real)
    requires forall k | 0 <= k < |vs| :: vs[k] != []
    ensures HeadEnergy(vs, x) == HeadEnergy(vs, m)
              + (2.0 * (m - x)) * (ColumnSum(vs, 0) - Times(|vs|, m)) + Times(|vs|, Square(m - x))
  {
    var rest := Affine(2.0 * (m - x), m, Square(m - x));
    DeviationsSplit(x, m);
    SumSplits(Heads(vs), SquaredFrom(x), SquaredFrom(m), rest);
    SumAffine(Heads(vs), 2.0 * (m - x), m, Square(m - x));
    HeadsTotal(vs);
  }

  lemma {:induction false} ColumnSumOfTails(vs: seq<Vector>, i: nat)
    requires forall k | 0 <= k < |vs| :: i + 1 < |vs[k]|
    ensures ColumnSum(Tails(vs), i) == ColumnSum(vs, i + 1)
  {
    if vs != [] {
      ColumnSumOfTails(vs[1..], i);
      assert Tails(vs)[1..] == Tails(vs[1..]);
    }
  }

  lemma CentroidOfTails(vs: seq<Vector>, dim: nat)
    requires vs != [] && dim > 0 && Uniform(vs, dim)
    ensures Uniform(Tails(vs), dim - 1)
    ensures Centroid(Tails(vs), dim - 1) == Centroid(vs, dim)[1..]
  {
    forall i | 0 <= i < dim - 1 ensures Centroid(Tails(vs), dim - 1)[i] == Centroid(vs, dim)[1..][i] {
      ColumnSumOfTails(vs, i);
    }
  }

  lemma MeanCancels(s: real, n: real)
    requires n > 0.0
    ensures s - n * (s / n) == 0.0
  {
  }

  lemma {:induction false} TimesIsProduct(n: nat, x: real)
    ensures Times(n, x) == n as real * x
  {
    if n > 0 {
      TimesIsProduct(n - 1, x);
      Distribute(x, (n - 1) as real, 1.0);
    }
  }

  lemma {:induction false} TimesDistributes(n: nat, x: real, y: real)
    ensures Times(n, x + y) == Times(n, x) + Times(n, y)
  {
    if n > 0 {
      TimesDistributes(n - 1, x, y);
    }
  }

  lemma {:induction false} TimesMonotone(n: nat, x: real, y: real)
    requires x <= y
    ensures Times(n, x) <= Times(n, y)
  {
    if n > 0 {
      TimesMonotone(n - 1, x, y);
    }
  }

  lemma {:induction false} TimesZero(n: nat)
    ensures Times(n, 0.0) == 0.0
  {
    if n > 0 {
      TimesZero(n - 1);
    }
  }

  lemma TimesNonNegative(n: nat, x: real)
    requires x >= 0.0
    ensures Times(n, x) >= 0.0
  {
    TimesMonotone(n, 0.0, x);
    TimesZero(n);
  }

  lemma {:induction false} TimesCountMonotone(m: nat, n: nat, x: real)
    requires m <= n && x >= 0.0
    ensures Times(m, x) <= Times(n, x)
  {
    if m < n {
      TimesCountMonotone(m, n - 1, x);
    }
  }

  lemma {:induction false} TimesAdds(m: nat, n: nat, x: real)
    ensures Times(m + n, x) == Times(m, x) + Times(n, x)
  {
    if m > 0 {
      TimesAdds(m - 1, n, x);
      assert Times(m, x) == x + Times(m - 1, x);
      assert Times(m + n, x) == x + Times((m - 1) + n, x);
    } else {
      assert m + n == n;
    }
  }

  lemma CentroidHead(vs: seq<Vector>, dim: nat)
    requires vs != [] && Uniform(vs, dim) && dim > 0
    ensures Times(|vs|, Centroid(vs, dim)[0]) == ColumnSum(vs, 0)
  {
    TimesIsProduct(|vs|, ColumnSum(vs, 0) / |vs| as real);
    MeanCancels(ColumnSum(vs, 0), |vs| as real);
  }

  lemma CrossVanishes(slope: real, deviation: real)
    requires deviation == 0.0
    ensures slope * deviation == 0.0
  {
  }

  /** Around the mean the deviations cancel. */
  lemma HeadEnergyAtMean(vs: seq<Vector>, x: real, m: real)
    requires vs != [] && forall k | 0 <= k < |vs| :: vs[k] != []
    requires Times(|vs|, m) == ColumnSum(vs, 0)
    ensures HeadEnergy(vs, x) == HeadEnergy(vs, m) + Times(|vs|, Square(m - x))
  {
    HeadEnergyShift(vs, x, m);
    CrossVanishes(2.0 * (m - x), ColumnSum(vs, 0) - Times(|vs|, m));
  }

  lemma DistanceUnfolds(a: Vector, b: Vector)
    requires |a| == |b| && a != []
    ensures SquaredDistance(a, b) == Square(a[0] - b[0]) + SquaredDistance(a[1..], b[1..])
  {
  }

  /** The parallel-axis identity: the energy to any point is the energy to the
      centroid plus the number of vectors times the distance between the two. */
  lemma {:induction false} ParallelAxis(vs: seq<Vector>, dim: nat, c: Vector)
    requires vs != [] && Uniform(vs, dim) && |c| == dim
    ensures EnergyTo(vs, c) == EnergyTo(vs, Centroid(vs, dim)) + Times(|vs|, SquaredDistance(Centroid(vs, dim), c))
    decreases dim
  {
    var m := Centroid(vs, dim);
    if dim == 0 {
      EmptyCoordinates(vs, c);
      EmptyCoordinates(vs, m);
      TimesZero(|vs|);
    } else {
      EnergySplitsByCoordinate(vs, c);
      EnergySplitsByCoordinate(vs, m);
      CentroidOfTails(vs, dim);
      ParallelAxis(Tails(vs), dim - 1, c[1..]);
      CentroidHead(vs, dim);
      HeadEnergyAtMean(vs, c[0], m[0]);
      DistanceUnfolds(m, c);
      TimesDistributes(|vs|, Square(m[0] - c[0]), SquaredDistance(m[1..], c[1..]));
    }
  }

  lemma {:induction false} EmptyCoordinates(vs: seq<Vector>, c: Vector)
    requires c == []
    ensures EnergyTo(vs, c) == 0.0
  {
    if vs != [] {
      EmptyCoordinates(vs[1..], c);
    }
  }

  lemma CentroidIsBest(vs: seq<Vector>, dim: nat, c: Vector)
    requires vs != [] && Uniform(vs, dim) && |c| == dim
    ensures EnergyTo(vs, Centroid(vs, dim)) <= EnergyTo(vs, c)
  {
    ParallelAxis(vs, dim, c);
    var d := SquaredDistance(Centroid(vs, dim), c);
    DistanceNonNegative(Centroid(vs, dim), c);
    TimesNonNegative(|vs|, d);
  }

  lemma {:induction false} EnergyToZero(vs: seq<Vector>, dim: nat)
    requires Uniform(vs, dim)
    ensures EnergyTo(vs, Zero(dim)) == Norms(vs)
  {
    if vs != [] {
      assert |vs[0]| == dim;
      DistanceToZero(vs[0]);
      EnergyToZero(vs[1..], dim);
    }
  }

  // ---- assignments ---------------------------------------------------------

  /** Energy when the k-th vector is served by centre a[k]. */
  function Assigned(vs: seq<Vector>, a: seq<nat>, centers: seq<Vector>): real
    requires |a| == |vs| && forall k | 0 <= k < |a| :: a[k] < |centers|
  {
    if vs == [] then 0.0 else SquaredDistance(vs[0], centers[a[0]]) + Assigned(vs[1..], a[1..], centers)
  }

  /** The vectors served by centre g. */
  function Group(vs: seq<Vector>, a: seq<nat>, g: nat): seq<Vector>
    requires |a| == |vs|
  {
    if vs == [] then [] else (if a[0] == g then [vs[0]] else []) + Group(vs[1..], a[1..], g)
  }

  /** How many vectors are served by one of the first m centres. */
  function ServedBelow(a: seq<nat>, m: nat): nat {
    if a == [] then 0 else (if a[0] < m then 1 else 0) + ServedBelow(a[1..], m)
  }

  lemma {:induction false} GroupUniform(vs: seq<Vector>, a: seq<nat>, g: nat, dim: nat)
    requires |a| == |vs| && Uniform(vs, dim)
    ensures Uniform(Group(vs, a, g), dim)
  {
    if vs != [] {
      GroupUniform(vs[1..], a[1..], g, dim);
    }
  }

  lemma {:induction false} ServedGrows(vs: seq<Vector>, a: seq<nat>, m: nat)
    requires |a| == |vs|
    ensures ServedBelow(a, m + 1) == ServedBelow(a, m) + |Group(vs, a, m)|
    ensures ServedBelow(a, m) <= |vs| && ServedBelow(a, 0) == 0
  {
    if vs != [] {
      ServedGrows(vs[1..], a[1..], m);
    }
  }

  lemma EnergyAppend(x: Vector, vs: seq<Vector>, c: Vector)
    ensures EnergyTo([x] + vs, c) == SquaredDistance(x, c) + EnergyTo(vs, c)
  {
    assert ([x] + vs)[1..] == vs;
  }

  /** Exchanging one centre changes the energy of its own group only. */
  lemma {:induction false} ExchangeOne(vs: seq<Vector>, a: seq<nat>, old_: seq<Vector>, new_: seq<Vector>, g: nat)
    requires |a| == |vs| && |old_| == |new_| && g < |old_|
    requires forall k | 0 <= k < |a| :: a[k] < |old_|
    requires forall j | 0 <= j < |old_| && j != g :: old_[j] == new_[j]
    ensures Assigned(vs, a, new_) - EnergyTo(Group(vs, a, g), new_[g])
            == Assigned(vs, a, old_) - EnergyTo(Group(vs, a, g), old_[g])
  {
    if vs != [] {
      ExchangeOne(vs[1..], a[1..], old_, new_, g);
      if a[0] == g {
        EnergyAppend(vs[0], Group(vs[1..], a[1..], g), old_[g]);
        EnergyAppend(vs[0], Group(vs[1..], a[1..], g), new_[g]);
        assert Group(vs, a, g) == [vs[0]] + Group(vs[1..], a[1..], g);
      } else {
        assert Group(vs, a, g) == Group(vs[1..], a[1..], g);
      }
    }
  }

  ghost predicate GroupWithin(vs: seq<Vector>, a: seq<nat>, from: seq<Vector>, to: seq<Vector>, eps: real, g: nat)
    requires |a| == |vs| && |from| == |to| && g < |from|
  {
    EnergyTo(Group(vs, a, g), to[g]) <= EnergyTo(Group(vs, a, g), from[g]) + Times(|Group(vs, a, g)|, eps)
  }

  /** Group by group at most eps worse per vector. */
  ghost predicate GroupwiseWithin(vs: seq<Vector>, a: seq<nat>, from: seq<Vector>, to: seq<Vector>, eps: real)
    requires |a| == |vs| && |from| == |to|
  {
    forall g | 0 <= g < |from| :: GroupWithin(vs, a, from, to, eps, g)
  }

  /** The first m centres taken from `to`, the others from `from`. */
  function Mix(from: seq<Vector>, to: seq<Vector>, m: nat): seq<Vector>
    requires |from| == |to|
  {
    seq(|from|, j requires 0 <= j < |from| => if j < m then to[j] else from[j])
  }

  lemma ExchangeNext(vs: seq<Vector>, a: seq<nat>, from: seq<Vector>, to: seq<Vector>, g: nat)
    requires |a| == |vs| && |from| == |to| && g < |from|
    requires forall k | 0 <= k < |a| :: a[k] < |from|
    ensures Assigned(vs, a, Mix(from, to, g + 1)) - Assigned(vs, a, Mix(from, to, g))
            == EnergyTo(Group(vs, a, g), to[g]) - EnergyTo(Group(vs, a, g), from[g])
  {
    var before, after := Mix(from, to, g), Mix(from, to, g + 1);
    assert before[g] == from[g] && after[g] == to[g];
    ExchangeOne(vs, a, before, after, g);
  }

  lemma {:induction false} ExchangeMany(vs: seq<Vector>, a: seq<nat>, from: seq<Vector>, to: seq<Vector>, eps: real, m: nat)
    requires |a| == |vs| && |from| == |to| && m <= |from|
    requires forall k | 0 <= k < |a| :: a[k] < |from|
    requires GroupwiseWithin(vs, a, from, to, eps)
    ensures Assigned(vs, a, Mix(from, to, m)) <= Assigned(vs, a, from) + Times(ServedBelow(a, m), eps)
  {
    if m == 0 {
      assert Mix(from, to, 0) == from;
      ServedGrows(vs, a, 0);
    } else {
      var g := m - 1;
      ExchangeMany(vs, a, from, to, eps, g);
      ExchangeNext(vs, a, from, to, g);
      assert GroupWithin(vs, a, from, to, eps, g);
      ServedGrows(vs, a, g);
      TimesAdds(ServedBelow(a, g), |Group(vs, a, g)|, eps);
    }
  }

  lemma ExchangeAll(vs: seq<Vector>, a: seq<nat>, from: seq<Vector>, to: seq<Vector>, eps: real)
    requires |a| == |vs| && |from| == |to| && eps >= 0.0
    requires forall k | 0 <= k < |a| :: a[k] < |from|
    requires GroupwiseWithin(vs, a, from, to, eps)
    ensures Assigned(vs, a, to) <= Assigned(vs, a, from) + Times(|vs|, eps)
  {
    ExchangeMany(vs, a, from, to, eps, |from|);
    assert Mix(from, to, |from|) == to;
    ServedGrows(vs, a, |from|);
    TimesCountMonotone(ServedBelow(a, |from|), |vs|, eps);
  }

  // ---- Lloyd's iteration ---------------------------------------------------

  /** The nearest-centre sum of squared distances. */
  function Energy(vs: seq<Vector>, centers: seq<Vector>): real
    requires centers != []
  {
    if vs == [] then 0.0
    else SquaredDistance(vs[0], centers[Nearest(vs[0], centers)]) + Energy(vs[1..], centers)
  }

  function Assignment(vs: seq<Vector>, centers: seq<Vector>): (a: seq<nat>)
    requires centers != []
    ensures |a| == |vs| && forall k | 0 <= k < |a| :: a[k] < |centers|
  {
    if vs == [] then [] else [Nearest(vs[0], centers)] + Assignment(vs[1..], centers)
  }

  lemma {:induction false} EnergyIsAssigned(vs: seq<Vector>, centers: seq<Vector>)
    requires centers != []
    ensures Energy(vs, centers) == Assigned(vs, Assignment(vs, centers), centers)
  {
    if vs != [] {
      EnergyIsAssigned(vs[1..], centers);
    }
  }

  lemma {:induction false} EnergyIsLeast(vs: seq<Vector>, a: seq<nat>, centers: seq<Vector>)
    requires centers != [] && |a| == |vs| && forall k | 0 <= k < |a| :: a[k] < |centers|
    ensures Energy(vs, centers) <= Assigned(vs, a, centers)
  {
    if vs != [] {
      NearestIsFirstLeast(vs[0], centers, |centers|, a[0]);
      EnergyIsLeast(vs[1..], a[1..], centers);
    }
  }

  /** Each centre moves to the centroid of its group; an unused one stays. */
  function Updated(vs: seq<Vector>, centers: seq<Vector>, dim: nat): (updated: seq<Vector>)
    requires centers != [] && Uniform(vs, dim)
    ensures |updated| == |centers|
  {
    var a := Assignment(vs, centers);
    seq(|centers|, g requires 0 <= g < |centers| =>
      GroupUniform(vs, a, g, dim);
      if Group(vs, a, g) == [] then centers[g] else Centroid(Group(vs, a, g), dim))
  }

  /** The stop test on one centre, and on all of them. */
  type Closeness = (Vector, Vector) -> bool

  function WithinTolerance(): Closeness {
    (a: Vector, b: Vector) => SquaredDistance(a, b) < CONVERGED
  }

  ghost predicate ImpliesTolerance(close: Closeness) {
    forall a, b | close(a, b) :: SquaredDistance(a, b) < CONVERGED
  }

  predicate Converged(centers: seq<Vector>, updated: seq<Vector>, close: Closeness)
    requires |centers| == |updated|
  {
    forall g | 0 <= g < |centers| :: close(centers[g], updated[g])
  }

  lemma UpdatedUniform(vs: seq<Vector>, centers: seq<Vector>, dim: nat)
    requires centers != [] && Uniform(vs, dim) && Uniform(centers, dim)
    ensures Uniform(Updated(vs, centers, dim), dim)
  {
    var a := Assignment(vs, centers);
    forall g | 0 <= g < |centers| ensures |Updated(vs, centers, dim)[g]| == dim {
      GroupUniform(vs, a, g, dim);
    }
  }

  /** One pass never increases the energy. */
  lemma LloydDescends(vs: seq<Vector>, centers: seq<Vector>, dim: nat)
    requires centers != [] && Uniform(vs, dim) && Uniform(centers, dim)
    ensures Energy(vs, Updated(vs, centers, dim)) <= Energy(vs, centers)
  {
    var a, updated := Assignment(vs, centers), Updated(vs, centers, dim);
    forall g | 0 <= g < |centers|
      ensures GroupWithin(vs, a, centers, updated, 0.0, g)
    {
      GroupUniform(vs, a, g, dim);
      TimesZero(|Group(vs, a, g)|);
      if Group(vs, a, g) != [] {
        CentroidIsBest(Group(vs, a, g), dim, centers[g]);
      }
    }
    ExchangeAll(vs, a, centers, updated, 0.0);
    TimesZero(|vs|);
    EnergyIsAssigned(vs, centers);
    EnergyIsLeast(vs, a, updated);
  }

  function Zeros(k: nat, dim: nat): seq<Vector> {
    seq(k, _ => Zero(dim))
  }

  lemma {:induction false} AssignedToZeros(vs: seq<Vector>, a: seq<nat>, k: nat, dim: nat)
    requires |a| == |vs| && (forall i | 0 <= i < |a| :: a[i] < k) && Uniform(vs, dim)
    ensures Assigned(vs, a, Zeros(k, dim)) == Norms(vs)
  {
    if vs != [] {
      assert |vs[0]| == dim;
      DistanceToZero(vs[0]);
      AssignedToZeros(vs[1..], a[1..], k, dim);
    }
  }

  /** A pass leaves at most the energy the vectors had to begin with. */
  lemma UpdateBeatsZero(vs: seq<Vector>, centers: seq<Vector>, dim: nat)
    requires centers != [] && Uniform(vs, dim) && Uniform(centers, dim)
    ensures Energy(vs, Updated(vs, centers, dim)) <= Norms(vs)
  {
    var a, updated, zeros := Assignment(vs, centers), Updated(vs, centers, dim), Zeros(|centers|, dim);
    forall g | 0 <= g < |centers|
      ensures GroupWithin(vs, a, zeros, updated, 0.0, g)
    {
      GroupUniform(vs, a, g, dim);
      TimesZero(|Group(vs, a, g)|);
      if Group(vs, a, g) != [] {
        CentroidIsBest(Group(vs, a, g), dim, zeros[g]);
      }
    }
    ExchangeAll(vs, a, zeros, updated, 0.0);
    TimesZero(|vs|);
    AssignedToZeros(vs, a, |centers|, dim);
    EnergyIsLeast(vs, a, updated);
  }

  lemma {:induction false} DistanceSymmetric(a: Vector, b: Vector)
    ensures SquaredDistance(a, b) == SquaredDistance(b, a)
  {
    if a != [] && b != [] {
      DistanceSymmetric(a[1..], b[1..]);
      assert Square(a[0] - b[0]) == Square(b[0] - a[0]);
    }
  }

  /** Centres that pass the stop test leave at most that energy plus the squared
      tolerance per vector. */
  lemma ConvergedNearlyBeatsZero(vs: seq<Vector>, centers: seq<Vector>, dim: nat, close: Closeness)
    requires ImpliesTolerance(close)
    requires centers != [] && Uniform(vs, dim) && Uniform(centers, dim)
    requires Converged(centers, Updated(vs, centers, dim), close)
    ensures Energy(vs, centers) <= Norms(vs) + Times(|vs|, CONVERGED)
  {
    var a, updated, zeros := Assignment(vs, centers), Updated(vs, centers, dim), Zeros(|centers|, dim);
    forall g | 0 <= g < |centers|
      ensures GroupWithin(vs, a, zeros, centers, CONVERGED, g)
    {
      var group := Group(vs, a, g);
      GroupUniform(vs, a, g, dim);
      TimesNonNegative(|group|, CONVERGED);
      if group != [] {
        CentroidIsBest(group, dim, zeros[g]);
        ParallelAxis(group, dim, centers[g]);
        assert updated[g] == Centroid(group, dim);
        assert close(centers[g], updated[g]);
        DistanceSymmetric(centers[g], updated[g]);
        TimesMonotone(|group|, SquaredDistance(updated[g], centers[g]), CONVERGED);
      }
    }
    ExchangeAll(vs, a, zeros, centers, CONVERGED);
    AssignedToZeros(vs, a, |centers|, dim);
    EnergyIsAssigned(vs, centers);
  }

  /** The training loop: at most `iterations` passes, stopping before a pass that
      would move every centre by less than the tolerance. */
  function Lloyd(vs: seq<Vector>, centers: seq<Vector>, dim: nat, iterations: nat, close: Closeness): (trained: seq<Vector>)
    requires centers != [] && Uniform(vs, dim)
    ensures |trained| == |centers|
    decreases iterations
  {
    if iterations == 0 then centers else
      var updated := Updated(vs, centers, dim);
      if Converged(centers, updated, close) then centers else Lloyd(vs, updated, dim, iterations - 1, close)
  }

  lemma {:induction false} LloydNeverAscends(vs: seq<Vector>, centers: seq<Vector>, dim: nat, iterations: nat, close: Closeness)
    requires centers != [] && Uniform(vs, dim) && Uniform(centers, dim)
    ensures Uniform(Lloyd(vs, centers, dim, iterations, close), dim)
    ensures Energy(vs, Lloyd(vs, centers, dim, iterations, close)) <= Energy(vs, centers)
    decreases iterations
  {
    if iterations > 0 {
      var updated := Updated(vs, centers, dim);
      if !Converged(centers, updated, close) {
        UpdatedUniform(vs, centers, dim);
        LloydDescends(vs, centers, dim);
        LloydNeverAscends(vs, updated, dim, iterations - 1, close);
      }
    }
  }

  lemma LloydStops(vs: seq<Vector>, centers: seq<Vector>, dim: nat, iterations: nat, close: Closeness)
    requires centers != [] && Uniform(vs, dim) && iterations >= 1
    requires Converged(centers, Updated(vs, centers, dim), close)
    ensures Lloyd(vs, centers, dim, iterations, close) == centers
  {
  }

  lemma LloydContinues(vs: seq<Vector>, centers: seq<Vector>, dim: nat, iterations: nat, close: Closeness)
    requires centers != [] && Uniform(vs, dim) && iterations >= 1
    requires !Converged(centers, Updated(vs, centers, dim), close)
    ensures Lloyd(vs, centers, dim, iterations, close) == Lloyd(vs, Updated(vs, centers, dim), dim, iterations - 1, close)
  {
  }

  /** After one update the centres beat zero, and further passes keep that. */
  lemma UpdatedBeatZero(vs: seq<Vector>, centers: seq<Vector>, dim: nat, iterations: nat, close: Closeness,
                        trained: seq<Vector>)
    requires centers != [] && Uniform(vs, dim) && Uniform(centers, dim)
    requires trained == Lloyd(vs, Updated(vs, centers, dim), dim, iterations, close)
    ensures Energy(vs, trained) <= Norms(vs)
  {
    UpdatedUniform(vs, centers, dim);
    UpdateBeatsZero(vs, centers, dim);
    LloydNeverAscends(vs, Updated(vs, centers, dim), dim, iterations, close);
  }

  lemma FurtherPassesBeatZero(vs: seq<Vector>, centers: seq<Vector>, dim: nat, iterations: nat, close: Closeness,
                              trained: seq<Vector>)
    requires centers != [] && Uniform(vs, dim) && Uniform(centers, dim) && iterations >= 1
    requires !Converged(centers, Updated(vs, centers, dim), close)
    requires trained == Lloyd(vs, centers, dim, iterations, close)
    ensures Energy(vs, trained) <= Norms(vs)
  {
    LloydContinues(vs, centers, dim, iterations, close);
    UpdatedBeatZero(vs, centers, dim, iterations - 1, close, trained);
  }

  lemma Relaxed(vs: seq<Vector>, trained: seq<Vector>)
    requires trained != [] && Energy(vs, trained) <= Norms(vs)
    ensures Energy(vs, trained) <= Norms(vs) + Times(|vs|, CONVERGED)
  {
    TimesNonNegative(|vs|, CONVERGED);
  }

  /** With at least one pass allowed, the residual energy is at most the input
      energy plus the squared tolerance per vector, whatever the seeds. */
  lemma LloydBound(vs: seq<Vector>, centers: seq<Vector>, dim: nat, iterations: nat, close: Closeness)
    requires ImpliesTolerance(close)
    requires centers != [] && Uniform(vs, dim) && Uniform(centers, dim) && iterations >= 1
    ensures Energy(vs, Lloyd(vs, centers, dim, iterations, close)) <= Norms(vs) + Times(|vs|, CONVERGED)
  {
    if Converged(centers, Updated(vs, centers, dim), close) {
      LloydStops(vs, centers, dim, iterations, close);
      ConvergedNearlyBeatsZero(vs, centers, dim, close);
    } else {
      var trained := Lloyd(vs, centers, dim, iterations, close);
      FurtherPassesBeatZero(vs, centers, dim, iterations, close, trained);
      Relaxed(vs, trained);
    }
  }

  /** Without a pass there is no such bound: the seeds are returned as they are. */
  lemma NoPassNoBound(close: Closeness)
    ensures Energy([[0.0]], Lloyd([[0.0]], [[1.0]], 1, 0, close)) > Norms([[0.0]]) + Times(1, CONVERGED)
  {
    assert SquaredDistance([0.0], [1.0]) == Square(-1.0) + SquaredDistance([], []);
    assert SquaredNorm([0.0]) == Square(0.0);
    assert Energy([[0.0]], [[1.0]]) == SquaredDistance([0.0], [1.0]) + Energy([], [[1.0]]);
    assert Times(1, CONVERGED) == CONVERGED;
  }

  // ---- one codebook --------------------------------------------------------

  /** `sorted(vectors, key=...)`; the key stands for the hash of the rounded
      coordinates, so the order is arbitrary but fixed. */
  function InsertByKey(vs: seq<Vector>, v: Vector, key: Vector -> int): (r: seq<Vector>)
    ensures |r| == |vs| + 1
  {
    if vs == [] then [v]
    else if key(v) <= key(vs[0]) then [v] + vs
    else [vs[0]] + InsertByKey(vs[1..], v, key)
  }

  function SortByKey(vs: seq<Vector>, key: Vector -> int): (r: seq<Vector>)
    ensures |r| == |vs|
  {
    if vs == [] then [] else InsertByKey(SortByKey(vs[1..], key), vs[0], key)
  }

  lemma EnergyCons(v: Vector, vs: seq<Vector>, centers: seq<Vector>)
    requires centers != []
    ensures Energy([v] + vs, centers) == SquaredDistance(v, centers[Nearest(v, centers)]) + Energy(vs, centers)
    ensures Norms([v] + vs) == SquaredNorm(v) + Norms(vs)
  {
    assert ([v] + vs)[1..] == vs;
  }

  lemma {:induction false} InsertKeepsSums(vs: seq<Vector>, v: Vector, key: Vector -> int, centers: seq<Vector>, dim: nat)
    requires centers != [] && Uniform(vs, dim) && |v| == dim
    ensures Uniform(InsertByKey(vs, v, key), dim)
    ensures Energy(InsertByKey(vs, v, key), centers) == Energy([v] + vs, centers)
    ensures Norms(InsertByKey(vs, v, key)) == Norms([v] + vs)
  {
    EnergyCons(v, vs, centers);
    if vs != [] && key(v) > key(vs[0]) {
      InsertKeepsSums(vs[1..], v, key, centers, dim);
      EnergyCons(v, vs[1..], centers);
      EnergyCons(vs[0], InsertByKey(vs[1..], v, key), centers);
    }
  }

  /** The order of the training vectors changes neither energy nor norms. */
  lemma {:induction false} SortKeepsSums(vs: seq<Vector>, key: Vector -> int, centers: seq<Vector>, dim: nat)
    requires centers != [] && Uniform(vs, dim)
    ensures Uniform(SortByKey(vs, key), dim)
    ensures Energy(SortByKey(vs, key), centers) == Energy(vs, centers)
    ensures Norms(SortByKey(vs, key)) == Norms(vs)
  {
    if vs != [] {
      assert |vs[0]| == dim;
      SortKeepsSums(vs[1..], key, centers, dim);
      InsertKeepsSums(SortByKey(vs[1..], key), vs[0], key, centers, dim);
      EnergyCons(vs[0], SortByKey(vs[1..], key), centers);
      EnergyCons(vs[0], vs[1..], centers);
      assert vs == [vs[0]] + vs[1..];
    }
  }

  function SeedIndex(n: nat, k: nat, i: nat): nat
    requires n > 0 && k > 0
  {
    var step := if n / k < 1 then 1 else n / k;
    if i * step < n - 1 then i * step else n - 1
  }

  /** With no more centres than vectors the seeds are distinct vectors. */
  lemma SeedsAreDistinct(n: nat, k: nat, i: nat, j: nat)
    requires 0 < k <= n && i < j < k
    ensures SeedIndex(n, k, i) < SeedIndex(n, k, j) <= n - 1
  {
    var step := n / k;
    StepAtLeastOne(n, k);
    StepsFit(n, k, j, step);
    IncreasingMultiples(i, j, step);
  }

  lemma StepAtLeastOne(n: nat, k: nat)
    requires 0 < k <= n
    ensures n / k >= 1 && k * (n / k) <= n
  {
  }

  lemma StepsFit(n: nat, k: nat, j: nat, step: nat)
    requires 0 < k && j < k && step >= 1 && k * step <= n
    ensures j * step <= n - 1
  {
    IncreasingOrEqual(j, k - 1, step);
    assert (k - 1) * step == k * step - step;
  }

  lemma IncreasingOrEqual(i: nat, j: nat, step: nat)
    requires i <= j
    ensures i * step <= j * step
  {
  }

  lemma IncreasingMultiples(i: nat, j: nat, step: nat)
    requires i < j && step >= 1
    ensures i * step < j * step
  {
    assert (j - i) * step >= 1;
    assert (j - i) * step == j * step - i * step;
  }

  function Seeds(ordered: seq<Vector>, k: nat): (seeds: seq<Vector>)
    requires ordered != [] && k > 0
    ensures |seeds| == k
  {
    seq(k, i requires 0 <= i < k => ordered[SeedIndex(|ordered|, k, i)])
  }

  function TrainCodebook(vs: seq<Vector>, k: int, iterations: nat, dim: nat, key: Vector -> int): seq<Vector>
    requires Uniform(vs, dim)
  {
    if vs == [] then [] else
      var ordered := SortByKey(vs, key);
      SortKeepsSums(vs, key, [[]], dim);
      if k <= 1 then [Centroid(ordered, dim)] else Lloyd(ordered, Seeds(ordered, k), dim, iterations, WithinTolerance())
  }

  lemma SeedsUniform(ordered: seq<Vector>, k: nat, dim: nat)
    requires ordered != [] && k > 0 && Uniform(ordered, dim)
    ensures Uniform(Seeds(ordered, k), dim)
  {
  }

  lemma {:induction false} OneCentreServesAll(vs: seq<Vector>, c: Vector)
    ensures Energy(vs, [c]) == EnergyTo(vs, c)
  {
    if vs != [] {
      OneCentreServesAll(vs[1..], c);
    }
  }

  /** A trained codebook leaves at most the input energy plus the squared tolerance
      per vector, for any seeds and any order of the vectors. */
  lemma CodebookBound(vs: seq<Vector>, k: int, iterations: nat, dim: nat, key: Vector -> int)
    requires vs != [] && Uniform(vs, dim) && iterations >= 1
    ensures var centers := TrainCodebook(vs, k, iterations, dim, key);
            && centers != [] && Uniform(centers, dim)
            && Energy(vs, centers) <= Norms(vs) + Times(|vs|, CONVERGED)
  {
    var ordered, centers := SortByKey(vs, key), TrainCodebook(vs, k, iterations, dim, key);
    SortKeepsSums(vs, key, [[]], dim);
    if k <= 1 {
      var c := Centroid(ordered, dim);
      OneCentreServesAll(ordered, c);
      CentroidIsBest(ordered, dim, Zero(dim));
      EnergyToZero(ordered, dim);
      TimesNonNegative(|vs|, CONVERGED);
    } else {
      SeedsUniform(ordered, k, dim);
      LloydBound(ordered, Seeds(ordered, k), dim, iterations, WithinTolerance());
      LloydNeverAscends(ordered, Seeds(ordered, k), dim, iterations, WithinTolerance());
    }
    SortKeepsSums(vs, key, centers, dim);
  }
}
