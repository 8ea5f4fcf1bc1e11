/** Residual quantisation level by level: training on residuals, encoding along
    nearest centres, and what the two have to do with each other. */
module ResidualLevels {
  import opened Codebooks

  const ITERATIONS: nat := 8

  function Minus(a: Vector, b: Vector): (r: Vector)
    requires |a| == |b|
    ensures |r| == |a|
  {
    seq(|a|, i requires 0 <= i < |a| => a[i] - b[i])
  }

  function Plus(a: Vector, b: Vector): (r: Vector)
    requires |a| == |b|
    ensures |r| == |a|
  {
    seq(|a|, i requires 0 <= i < |a| => a[i] + b[i])
  }

  /** A non-empty list of centres of one dimension. */
  predicate IsCodebook(centers: seq<Vector>, dim: nat) {
    centers != [] && Uniform(centers, dim)
  }

  predicate AreCodebooks(books: seq<seq<Vector>>, dim: nat) {
    forall l | 0 <= l < |books| :: IsCodebook(books[l], dim)
  }

  function Residual(v: Vector, centers: seq<Vector>): (r: Vector)
    requires IsCodebook(centers, |v|)
    ensures |r| == |v|
  {
    Minus(v, centers[Nearest(v, centers)])
  }

  function Residuals(vs: seq<Vector>, centers: seq<Vector>, dim: nat): (rs: seq<Vector>)
    requires Uniform(vs, dim) && IsCodebook(centers, dim)
    ensures |rs| == |vs| && Uniform(rs, dim)
  {
    seq(|vs|, i requires 0 <= i < |vs| => Residual(vs[i], centers))
  }

  // ---- training ------------------------------------------------------------

  /** How one level is trained, as a function of its training vectors. */
  type Trainer = seq<Vector> -> seq<Vector>

  /** What one level promises: a codebook whose residual energy is within the
      tolerance of the input energy. */
  ghost predicate TrainsWithin(train: Trainer, dim: nat) {
    forall vs: seq<Vector> {:trigger TrainedWithin(vs, train(vs), dim)} | vs != [] && Uniform(vs, dim) ::
      TrainedWithin(vs, train(vs), dim)
  }

  ghost predicate TrainedWithin(vs: seq<Vector>, centers: seq<Vector>, dim: nat) {
    IsCodebook(centers, dim) && Energy(vs, centers) <= Norms(vs) + Times(|vs|, CONVERGED)
  }

  function TrainLevels(vs: seq<Vector>, levels: nat, dim: nat, train: Trainer): (books: seq<seq<Vector>>)
    requires Uniform(vs, dim) && TrainsWithin(train, dim)
    decreases levels
  {
    if levels == 0 || vs == [] then [] else
      assert TrainedWithin(vs, train(vs), dim);
      [train(vs)] + TrainLevels(Residuals(vs, train(vs), dim), levels - 1, dim, train)
  }

  lemma {:induction false} LevelsAreCodebooks(vs: seq<Vector>, levels: nat, dim: nat, train: Trainer)
    requires Uniform(vs, dim) && TrainsWithin(train, dim)
    ensures AreCodebooks(TrainLevels(vs, levels, dim, train), dim)
    ensures |TrainLevels(vs, levels, dim, train)| == if vs == [] then 0 else levels
    decreases levels
  {
    if levels > 0 && vs != [] {
      assert TrainedWithin(vs, train(vs), dim);
      LevelsAreCodebooks(Residuals(vs, train(vs), dim), levels - 1, dim, train);
    }
  }

  // ---- encoding ------------------------------------------------------------

  /** What is left of a vector after the given codebooks. */
  function LeftOver(v: Vector, books: seq<seq<Vector>>): (r: Vector)
    requires AreCodebooks(books, |v|)
    ensures |r| == |v|
    decreases |books|
  {
    if books == [] then v else
      assert IsCodebook(books[0], |v|);
      LeftOver(Residual(v, books[0]), books[1..])
  }

  /** One-based indices of the nearest centres, level by level. */
  function PathOf(v: Vector, books: seq<seq<Vector>>): (path: seq<nat>)
    requires AreCodebooks(books, |v|)
    ensures |path| == |books| && forall l | 0 <= l < |path| :: 1 <= path[l] <= |books[l]|
    decreases |books|
  {
    if books == [] then [] else
      assert IsCodebook(books[0], |v|);
      [Nearest(v, books[0]) + 1] + PathOf(Residual(v, books[0]), books[1..])
  }

  /** The sum of the centres a path names. */
  function CentresOn(path: seq<nat>, books: seq<seq<Vector>>, dim: nat): (sum: Vector)
    requires AreCodebooks(books, dim) && |path| == |books|
    requires forall l | 0 <= l < |path| :: 1 <= path[l] <= |books[l]|
    ensures |sum| == dim
  {
    if books == [] then Zero(dim) else
      assert IsCodebook(books[0], dim);
      Plus(books[0][path[0] - 1], CentresOn(path[1..], books[1..], dim))
  }

  /** Decoding: a vector is the sum of the centres on its path plus what is left. */
  lemma {:induction false} Reconstruction(v: Vector, books: seq<seq<Vector>>)
    requires AreCodebooks(books, |v|)
    ensures Plus(CentresOn(PathOf(v, books), books, |v|), LeftOver(v, books)) == v
    decreases |books|
  {
    if books == [] {
      assert Plus(Zero(|v|), v) == v;
    } else {
      assert IsCodebook(books[0], |v|);
      var r, c := Residual(v, books[0]), books[0][Nearest(v, books[0])];
      Reconstruction(r, books[1..]);
      var rest := CentresOn(PathOf(r, books[1..]), books[1..], |v|);
      assert PathOf(v, books)[1..] == PathOf(r, books[1..]);
      assert CentresOn(PathOf(v, books), books, |v|) == Plus(c, rest);
      forall i | 0 <= i < |v| ensures Plus(Plus(c, rest), LeftOver(v, books))[i] == v[i] {
        assert Plus(rest, LeftOver(r, books[1..]))[i] == r[i];
      }
    }
  }

  /** What the given codebooks leave of each vector. */
  function LeftOvers(vs: seq<Vector>, books: seq<seq<Vector>>, dim: nat): (rs: seq<Vector>)
    requires Uniform(vs, dim) && AreCodebooks(books, dim)
    ensures |rs| == |vs| && Uniform(rs, dim)
  {
    seq(|vs|, i requires 0 <= i < |vs| => LeftOver(vs[i], books))
  }

  lemma LeftOversStep(vs: seq<Vector>, books: seq<seq<Vector>>, dim: nat)
    requires Uniform(vs, dim) && AreCodebooks(books, dim) && books != []
    ensures IsCodebook(books[0], dim) && AreCodebooks(books[1..], dim)
    ensures LeftOvers(vs, books, dim) == LeftOvers(Residuals(vs, books[0], dim), books[1..], dim)
  {
    assert IsCodebook(books[0], dim);
  }

  lemma LevelsSplit(vs: seq<Vector>, levels: nat, dim: nat, train: Trainer)
    requires Uniform(vs, dim) && TrainsWithin(train, dim) && levels > 0 && vs != []
    ensures var books := TrainLevels(vs, levels, dim, train);
            && books != [] && books[0] == train(vs) && TrainedWithin(vs, books[0], dim)
            && books[1..] == TrainLevels(Residuals(vs, books[0], dim), levels - 1, dim, train)
  {
    assert TrainedWithin(vs, train(vs), dim);
  }

  /** Training and encoding agree: level l is trained on exactly what encoding
      with the first l codebooks leaves of the vectors. */
  lemma {:induction false} TrainedOnWhatEncodingLeaves(vs: seq<Vector>, levels: nat, dim: nat, train: Trainer, l: nat)
    requires Uniform(vs, dim) && TrainsWithin(train, dim) && l < |TrainLevels(vs, levels, dim, train)|
    ensures AreCodebooks(TrainLevels(vs, levels, dim, train)[..l], dim)
    ensures var books := TrainLevels(vs, levels, dim, train);
            books[l] == train(LeftOvers(vs, books[..l], dim))
    decreases levels
  {
    var books := TrainLevels(vs, levels, dim, train);
    LevelsAreCodebooks(vs, levels, dim, train);
    LevelsSplit(vs, levels, dim, train);
    if l == 0 {
      assert LeftOvers(vs, books[..0], dim) == vs;
    } else {
      var rs := Residuals(vs, books[0], dim);
      TrainedOnWhatEncodingLeaves(rs, levels - 1, dim, train, l - 1);
      assert books[..l][1..] == books[1..][..l - 1];
      LeftOversStep(vs, books[..l], dim);
    }
  }

  // ---- energy over all levels ----------------------------------------------

  lemma {:induction false} NormOfDifference(a: Vector, b: Vector)
    requires |a| == |b|
    ensures SquaredNorm(Minus(a, b)) == SquaredDistance(a, b)
  {
    if a != [] {
      NormOfDifference(a[1..], b[1..]);
      assert Minus(a, b)[1..] == Minus(a[1..], b[1..]);
    }
  }

  lemma {:induction false} ResidualNormsAreEnergy(vs: seq<Vector>, centers: seq<Vector>, dim: nat)
    requires Uniform(vs, dim) && IsCodebook(centers, dim)
    ensures Norms(Residuals(vs, centers, dim)) == Energy(vs, centers)
  {
    if vs != [] {
      assert |vs[0]| == dim;
      NormOfDifference(vs[0], centers[Nearest(vs[0], centers)]);
      ResidualNormsAreEnergy(vs[1..], centers, dim);
      assert Residuals(vs, centers, dim)[1..] == Residuals(vs[1..], centers, dim);
    }
  }

  lemma {:induction false} LevelsBound(vs: seq<Vector>, levels: nat, dim: nat, train: Trainer)
    requires Uniform(vs, dim) && TrainsWithin(train, dim)
    ensures AreCodebooks(TrainLevels(vs, levels, dim, train), dim)
    ensures Norms(LeftOvers(vs, TrainLevels(vs, levels, dim, train), dim)) <= Norms(vs) + Times(levels * |vs|, CONVERGED)
    decreases levels
  {
    var books := TrainLevels(vs, levels, dim, train);
    LevelsAreCodebooks(vs, levels, dim, train);
    TimesNonNegative(levels * |vs|, CONVERGED);
    if levels == 0 || vs == [] {
      assert LeftOvers(vs, books, dim) == vs;
    } else {
      LevelsSplit(vs, levels, dim, train);
      LeftOversStep(vs, books, dim);
      LevelsBound(Residuals(vs, books[0], dim), levels - 1, dim, train);
      ResidualNormsAreEnergy(vs, books[0], dim);
      OneMoreLevel(levels, |vs|);
      TimesAdds((levels - 1) * |vs|, |vs|, CONVERGED);
    }
  }

  lemma OneMoreLevel(levels: nat, n: nat)
    requires levels > 0
    ensures levels * n == (levels - 1) * n + n
  {
  }

  /** L levels leave at most the initial energy plus L times n times the squared
      tolerance of the stop test. */
  lemma TotalBound(vs: seq<Vector>, levels: nat, dim: nat, train: Trainer)
    requires Uniform(vs, dim) && TrainsWithin(train, dim)
    ensures AreCodebooks(TrainLevels(vs, levels, dim, train), dim)
    ensures Norms(LeftOvers(vs, TrainLevels(vs, levels, dim, train), dim))
            <= Norms(vs) + (levels * |vs|) as real * CONVERGED
  {
    LevelsBound(vs, levels, dim, train);
    TimesIsProduct(levels * |vs|, CONVERGED);
  }

  // ---- the k-means trainer -------------------------------------------------

  function IntegerSqrt(n: nat): (r: nat)
    ensures r * r <= n < (r + 1) * (r + 1)
  {
    if n == 0 then 0 else
      var r := IntegerSqrt(n - 1);
      if (r + 1) * (r + 1) <= n then r + 1 else r
  }

  function Least(x: int, y: int): int { if x < y then x else y }

  /** Centres per level: never more than vectors. */
  function LevelSize(n: nat, maxK: int): int {
    Least(Least(maxK, IntegerSqrt(n) + 1), n)
  }

  /** Every level trains from distinct seeds, having no more centres than vectors. */
  lemma LevelSeedsAreDistinct(n: nat, maxK: int, i: nat, j: nat)
    requires n > 0 && i < j && j < LevelSize(n, maxK)
    ensures SeedIndex(n, LevelSize(n, maxK), i) < SeedIndex(n, LevelSize(n, maxK), j) <= n - 1
  {
    SeedsAreDistinct(n, LevelSize(n, maxK), i, j);
  }

  function KMeans(dim: nat, maxK: int, key: Vector -> int): Trainer {
    (vs: seq<Vector>) =>
      if Uniform(vs, dim) then TrainCodebook(vs, LevelSize(|vs|, maxK), ITERATIONS, dim, key) else []
  }

  lemma KMeansTrainsWithin(dim: nat, maxK: int, key: Vector -> int)
    ensures TrainsWithin(KMeans(dim, maxK, key), dim)
  {
    forall vs: seq<Vector> | vs != [] && Uniform(vs, dim) ensures TrainedWithin(vs, KMeans(dim, maxK, key)(vs), dim) {
      CodebookBound(vs, LevelSize(|vs|, maxK), ITERATIONS, dim, key);
    }
  }

  // ---- the size of a level -------------------------------------------------

  lemma SquareRootIsUnique(n: nat, r: nat)
    requires r * r <= n < (r + 1) * (r + 1)
    ensures r == IntegerSqrt(n)
  {
    var s := IntegerSqrt(n);
    if r < s {
      SquaresGrow(r + 1, s);
    } else if s < r {
      SquaresGrow(s + 1, r);
    }
  }

  lemma SquaresGrow(a: nat, b: nat)
    requires a <= b
    ensures a * a <= b * b
  {
    assert a * a <= a * b <= b * b;
  }

  /** One centre more than the root r of the number n of vectors, but no more than allowed
      or than there are vectors, and at least one. */
  predicate RightSize(size: nat, n: nat, maxK: int, r: nat) {
    && 1 <= size <= r + 1 && size <= n && (size <= maxK || size == 1)
    && (size == r + 1 || size == n || size == maxK || maxK < 1)
  }

  lemma TrainedSize(vs: seq<Vector>, maxK: int, dim: nat, key: Vector -> int, r: nat)
    requires vs != [] && Uniform(vs, dim) && r * r <= |vs| < (r + 1) * (r + 1)
    ensures RightSize(|KMeans(dim, maxK, key)(vs)|, |vs|, maxK, r)
  {
    SquareRootIsUnique(|vs|, r);
    CodebookSize(vs, LevelSize(|vs|, maxK), dim, key);
  }

  /** The trainer finds the right number of centres for every n vectors. */
  ghost predicate SizesRightly(train: Trainer, dim: nat, n: nat, maxK: int, r: nat) {
    forall vs: seq<Vector> {:trigger train(vs)} | vs != [] && |vs| == n && Uniform(vs, dim) ::
      RightSize(|train(vs)|, n, maxK, r)
  }

  /** A level below the first is one of those trained on what the first leaves. */
  lemma LevelBelow(vs: seq<Vector>, levels: nat, dim: nat, train: Trainer, l: nat)
    requires Uniform(vs, dim) && TrainsWithin(train, dim)
    requires 0 < l < |TrainLevels(vs, levels, dim, train)|
    ensures levels > 0 && vs != [] && IsCodebook(train(vs), dim)
    ensures var rest := Residuals(vs, train(vs), dim);
            && |rest| == |vs| && Uniform(rest, dim)
            && l - 1 < |TrainLevels(rest, levels - 1, dim, train)|
            && TrainLevels(vs, levels, dim, train)[l] == TrainLevels(rest, levels - 1, dim, train)[l - 1]
  {
    LevelsSplit(vs, levels, dim, train);
  }

  lemma {:induction false} SizesOfLevels(vs: seq<Vector>, levels: nat, dim: nat, train: Trainer, maxK: int, l: nat, r: nat)
    requires Uniform(vs, dim) && TrainsWithin(train, dim) && SizesRightly(train, dim, |vs|, maxK, r)
    requires l < |TrainLevels(vs, levels, dim, train)|
    ensures RightSize(|TrainLevels(vs, levels, dim, train)[l]|, |vs|, maxK, r)
    decreases levels
  {
    if l == 0 {
      LevelsSplit(vs, levels, dim, train);
    } else {
      LevelBelow(vs, levels, dim, train, l);
      SizesOfLevels(Residuals(vs, train(vs), dim), levels - 1, dim, train, maxK, l - 1, r);
    }
  }

  /** Every level has the right number of centres. */
  lemma LevelSizes(vs: seq<Vector>, levels: nat, maxK: int, dim: nat, key: Vector -> int, l: nat, r: nat)
    requires Uniform(vs, dim) && TrainsWithin(KMeans(dim, maxK, key), dim)
    requires l < |TrainLevels(vs, levels, dim, KMeans(dim, maxK, key))|
    requires r * r <= |vs| < (r + 1) * (r + 1)
    ensures RightSize(|TrainLevels(vs, levels, dim, KMeans(dim, maxK, key))[l]|, |vs|, maxK, r)
  {
    var train := KMeans(dim, maxK, key);
    forall us: seq<Vector> | us != [] && |us| == |vs| && Uniform(us, dim) ensures RightSize(|train(us)|, |vs|, maxK, r) {
      TrainedSize(us, maxK, dim, key, r);
    }
    SizesOfLevels(vs, levels, dim, train, maxK, l, r);
  }

  lemma CodebookSize(vs: seq<Vector>, k: int, dim: nat, key: Vector -> int)
    requires vs != [] && Uniform(vs, dim)
    ensures |TrainCodebook(vs, k, ITERATIONS, dim, key)| == if k <= 1 then 1 else k
  {
  }

  // ---- one more vector ----------------------------------------------------

  lemma {:induction false} GroupSnoc(vs: seq<Vector>, a: seq<nat>, v: Vector, at: nat, g: nat)
    requires |a| == |vs|
    ensures Group(vs + [v], a + [at], g) == Group(vs, a, g) + if at == g then [v] else []
  {
    if vs == [] {
      assert vs + [v] == [v] && a + [at] == [at];
    } else {
      GroupSnoc(vs[1..], a[1..], v, at, g);
      assert (vs + [v])[1..] == vs[1..] + [v] && (a + [at])[1..] == a[1..] + [at];
    }
  }

  lemma {:induction false} AssignmentSnoc(vs: seq<Vector>, v: Vector, centers: seq<Vector>)
    requires centers != []
    ensures Assignment(vs + [v], centers) == Assignment(vs, centers) + [Nearest(v, centers)]
  {
    if vs == [] {
      assert vs + [v] == [v];
    } else {
      AssignmentSnoc(vs[1..], v, centers);
      assert (vs + [v])[1..] == vs[1..] + [v];
    }
  }
}
