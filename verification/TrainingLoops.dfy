/** The loops of training and encoding. */
module TrainingLoops {
  import opened Codebooks
  import opened ResidualLevels
  import opened TrainingTraces

  /** Distribute the vectors over the centres, each to its nearest. */
  method FillGroups(vs: seq<Vector>, centers: seq<Vector>) returns (groups: seq<seq<Vector>>)
    requires centers != []
    ensures |groups| == |centers|
    ensures forall g | 0 <= g < |groups| :: groups[g] == Group(vs, Assignment(vs, centers), g)
  {
    groups := seq(|centers|, _ => []);
    for i := 0 to |vs|
      invariant |groups| == |centers|
      invariant forall g | 0 <= g < |groups| :: groups[g] == Group(vs[..i], Assignment(vs[..i], centers), g)
    {
      var at := Nearest(vs[i], centers);
      AssignmentSnoc(vs[..i], vs[i], centers);
      forall g | 0 <= g < |groups|
        ensures Group(vs[..i + 1], Assignment(vs[..i + 1], centers), g)
                == groups[g] + if at == g then [vs[i]] else []
      {
        GroupSnoc(vs[..i], Assignment(vs[..i], centers), vs[i], at, g);
        assert vs[..i + 1] == vs[..i] + [vs[i]];
      }
      groups := groups[at := groups[at] + [vs[i]]];
    }
    assert vs[..|vs|] == vs;
  }

  method MoveCenters(vs: seq<Vector>, centers: seq<Vector>, dim: nat) returns (updated: seq<Vector>)
    requires centers != [] && Uniform(vs, dim)
    ensures updated == Updated(vs, centers, dim)
  {
    var groups := FillGroups(vs, centers);
    updated := [];
    for g := 0 to |centers|
      invariant |updated| == g && forall j | 0 <= j < g :: updated[j] == Updated(vs, centers, dim)[j]
    {
      GroupUniform(vs, Assignment(vs, centers), g, dim);
      updated := updated + [if groups[g] != [] then Centroid(groups[g], dim) else centers[g]];
    }
  }

  /** What is still to be computed: nothing if the pass settles, else the rest from its centres. */
  lemma LloydGoesOn(vs: seq<Vector>, centers: seq<Vector>, updated: seq<Vector>, dim: nat, left: nat, close: Closeness,
                    trained: seq<Vector>)
    requires centers != [] && Uniform(vs, dim) && left > 0 && updated == Updated(vs, centers, dim)
    requires Lloyd(vs, centers, dim, left, close) == trained
    ensures Converged(centers, updated, close) ==> trained == centers
    ensures !Converged(centers, updated, close) ==> Lloyd(vs, updated, dim, left - 1, close) == trained
  {
    if Converged(centers, updated, close) {
      LloydStops(vs, centers, dim, left, close);
    } else {
      LloydContinues(vs, centers, dim, left, close);
    }
  }

  /** The training loop: at most `iterations` passes, stopping before a pass that
      would barely move any centre. */
  method TrainLloyd(vs: seq<Vector>, seeds: seq<Vector>, iterations: nat, dim: nat, close: Closeness)
    returns (centers: seq<Vector>)
    requires seeds != [] && Uniform(vs, dim)
    ensures centers == Lloyd(vs, seeds, dim, iterations, close)
  {
    centers := seeds;
    ghost var trained := Lloyd(vs, seeds, dim, iterations, close);
    for pass := 0 to iterations
      invariant centers != [] && Lloyd(vs, centers, dim, iterations - pass, close) == trained
    {
      var updated := MoveCenters(vs, centers, dim);
      LloydGoesOn(vs, centers, updated, dim, iterations - pass, close, trained);
      if Converged(centers, updated, close) {
        return;
      }
      centers := updated;
    }
  }

  method TrainOneCodebook(vs: seq<Vector>, k: int, iterations: nat, dim: nat, key: Vector -> int)
    returns (centers: seq<Vector>)
    requires Uniform(vs, dim)
    ensures centers == TrainCodebook(vs, k, iterations, dim, key)
  {
    if vs == [] {
      return [];
    }
    var ordered := SortByKey(vs, key);
    SortKeepsSums(vs, key, [[]], dim);
    if k <= 1 {
      return [Centroid(ordered, dim)];
    }
    centers := TrainLloyd(ordered, Seeds(ordered, k), iterations, dim, WithinTolerance());
  }

  lemma LevelDone(done: seq<seq<Vector>>, vs: seq<Vector>, levels: nat, dim: nat, train: Trainer)
    requires Uniform(vs, dim) && TrainsWithin(train, dim) && levels > 0 && vs != []
    ensures IsCodebook(train(vs), dim)
    ensures done + TrainLevels(vs, levels, dim, train)
            == (done + [train(vs)]) + TrainLevels(Residuals(vs, train(vs), dim), levels - 1, dim, train)
  {
    LevelsSplit(vs, levels, dim, train);
  }

  /** Train level by level, each on what the levels before left. */
  method TrainCodebooksWith(vs: seq<Vector>, levels: nat, dim: nat, train: Trainer) returns (codebooks: seq<seq<Vector>>)
    requires Uniform(vs, dim) && TrainsWithin(train, dim)
    ensures codebooks == TrainLevels(vs, levels, dim, train)
  {
    var residuals := vs;
    codebooks := [];
    var level := 0;
    while level < levels && residuals != []
      invariant 0 <= level <= levels && Uniform(residuals, dim)
      invariant codebooks + TrainLevels(residuals, levels - level, dim, train) == TrainLevels(vs, levels, dim, train)
    {
      LevelDone(codebooks, residuals, levels - level, dim, train);
      var centers := train(residuals);
      codebooks := codebooks + [centers];
      residuals := Residuals(residuals, centers, dim);
      level := level + 1;
    }
  }

  method TrainCodebooks(vs: seq<Vector>, levels: nat, maxK: int, dim: nat, key: Vector -> int)
    returns (codebooks: seq<seq<Vector>>)
    requires Uniform(vs, dim)
    ensures TrainsWithin(KMeans(dim, maxK, key), dim) && codebooks == TrainLevels(vs, levels, dim, KMeans(dim, maxK, key))
    ensures AreCodebooks(codebooks, dim)
    ensures forall l, r: nat | 0 <= l < |codebooks| && r * r <= |vs| < (r + 1) * (r + 1) ::
              RightSize(|codebooks[l]|, |vs|, maxK, r)
    ensures Norms(LeftOvers(vs, codebooks, dim)) <= Norms(vs) + (levels * |vs|) as real * CONVERGED
  {
    KMeansTrainsWithin(dim, maxK, key);
    codebooks := TrainCodebooksWith(vs, levels, dim, KMeans(dim, maxK, key));
    TotalBound(vs, levels, dim, KMeans(dim, maxK, key));
    forall l, r: nat | 0 <= l < |codebooks| && r * r <= |vs| < (r + 1) * (r + 1)
      ensures RightSize(|codebooks[l]|, |vs|, maxK, r)
    {
      LevelSizes(vs, levels, maxK, dim, key, l, r);
    }
  }

  lemma EncodingStep(v: Vector, path: seq<nat>, books: seq<seq<Vector>>)
    requires AreCodebooks(books, |v|) && books != []
    ensures IsCodebook(books[0], |v|) && AreCodebooks(books[1..], |v|)
    ensures path + PathOf(v, books) == (path + [Nearest(v, books[0]) + 1]) + PathOf(Residual(v, books[0]), books[1..])
    ensures LeftOver(v, books) == LeftOver(Residual(v, books[0]), books[1..])
  {
    assert IsCodebook(books[0], |v|);
  }

  lemma Encoded(v: Vector, codebooks: seq<seq<Vector>>, path: seq<nat>, residual: Vector)
    requires AreCodebooks(codebooks, |v|) && path == PathOf(v, codebooks) && residual == LeftOver(v, codebooks)
    ensures Plus(CentresOn(path, codebooks, |v|), residual) == v
    ensures NearestPath(v, codebooks, path) && residual == Rest(v, codebooks, path, |codebooks|)
  {
    Reconstruction(v, codebooks);
    EncodingIsNearest(v, codebooks);
  }

  method PrimaryPath(v: Vector, codebooks: seq<seq<Vector>>) returns (path: seq<nat>, residual: Vector)
    requires AreCodebooks(codebooks, |v|)
    ensures path == PathOf(v, codebooks) && residual == LeftOver(v, codebooks)
    ensures Plus(CentresOn(path, codebooks, |v|), residual) == v
    ensures NearestPath(v, codebooks, path) && residual == Rest(v, codebooks, path, |codebooks|)
  {
    residual, path := v, [];
    ghost var rest := codebooks;
    for l := 0 to |codebooks|
      invariant rest == codebooks[l..]
      invariant |residual| == |v| && AreCodebooks(rest, |v|)
      invariant path + PathOf(residual, rest) == PathOf(v, codebooks)
      invariant LeftOver(residual, rest) == LeftOver(v, codebooks)
    {
      assert codebooks[l] == rest[0];
      EncodingStep(residual, path, rest);
      var centers := codebooks[l];
      var index := Nearest(residual, centers);
      path := path + [index + 1];
      residual := Minus(residual, centers[index]);
      rest := rest[1..];
    }
    Encoded(v, codebooks, path, residual);
  }
}
