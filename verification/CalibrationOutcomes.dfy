/** The calibration in closed form: quantiles between neighbouring order statistics, and
    strengths and distances by formula. */
module CalibrationOutcomes {
  import opened Basics
  import opened Calibration
  import opened Options
  import opened Rounding

  // ---- quantiles -----------------------------------------------------------

  lemma AscendingIsSorted(xs: seq<real>, ordered: seq<real>)
    requires Ascending(ordered) && multiset(ordered) == multiset(xs)
    ensures ordered == Sort(xs)
  {
    SortSorts(xs);
    SameAscending(ordered, Sort(xs));
  }

  lemma SameGreatest(a: seq<real>, b: seq<real>)
    requires Ascending(a) && Ascending(b) && multiset(a) == multiset(b) && a != []
    ensures |a| == |b| && a[|a| - 1] == b[|b| - 1]
  {
    assert |a| == |multiset(a)| && |b| == |multiset(b)|;
    LastIsGreatest(a);
    LastIsGreatest(b);
    assert a[|a| - 1] in multiset(b) && b[|b| - 1] in multiset(a);
  }

  lemma {:induction false} SameAscending(a: seq<real>, b: seq<real>)
    requires Ascending(a) && Ascending(b) && multiset(a) == multiset(b)
    ensures a == b
    decreases |a|
  {
    if a == [] {
      assert |b| == |multiset(b)|;
    } else {
      var m := |a| - 1;
      SameGreatest(a, b);
      assert a == a[..m] + [a[m]] && b == b[..m] + [b[m]];
      FrontsAlike(a[..m], b[..m], a[m]);
      SameAscending(a[..m], b[..m]);
    }
  }

  lemma FrontsAlike(a: seq<real>, b: seq<real>, x: real)
    requires multiset(a + [x]) == multiset(b + [x])
    ensures multiset(a) == multiset(b)
  {
    assert multiset(a) == multiset(a + [x]) - multiset{x};
    assert multiset(b) == multiset(b + [x]) - multiset{x};
  }

  /** The fraction q of the way through n values is at position x. */
  predicate PositionAt(n: nat, q: real, x: real) {
    (n - 1) as real * q == x
  }

  lemma FloorAt(x: real, k: nat, t: real)
    requires x == k as real + t && 0.0 <= t < 1.0
    ensures x.Floor == k && Ceiling(x) == if t == 0.0 then k else k + 1
  {
  }

  /** The point that divides the way from a to b in the ratio of t to the rest. */
  function Blend(a: real, b: real, t: real): real {
    (1.0 - t) * a + t * b
  }

  lemma Between(a: real, b: real, t: real)
    ensures Along(a, b - a, t) == Blend(a, b, t)
  {
    assert (b - a) * t == b * t - a * t;
    assert (1.0 - t) * a == a - t * a;
  }

  lemma ValueAtFraction(ordered: seq<real>, position: real, k: nat, t: real)
    requires ordered != [] && 0.0 <= position <= |ordered| as real - 1.0
    requires position == k as real + t && 0.0 <= t < 1.0
    ensures k < |ordered| && (t > 0.0 ==> k + 1 < |ordered|)
    ensures ValueAt(ordered, position)
            == if t == 0.0 then ordered[k] else Blend(ordered[k], ordered[k + 1], t)
  {
    FloorAt(position, k, t);
    if t == 0.0 {
      ValueAtInteger(ordered, k);
    } else {
      Between(ordered[k], ordered[k + 1], t);
    }
  }

  /** With n values and (n - 1) * q = k + t, the quantile lies the fraction t of the way
      from the k-th smallest value to the next. */
  lemma QuantileExactly(values: seq<real>, ordered: seq<real>, q: real, k: nat, t: real)
    requires values != [] && 0.0 <= q <= 1.0
    requires Ascending(ordered) && multiset(ordered) == multiset(values)
    requires PositionAt(|values|, q, k as real + t) && 0.0 <= t < 1.0
    ensures k < |ordered| && (t > 0.0 ==> k + 1 < |ordered|)
    ensures LinearQuantile(values, q)
            == Some(if t == 0.0 then ordered[k] else Blend(ordered[k], ordered[k + 1], t))
  {
    AscendingIsSorted(values, ordered);
    PositionBounds(|values|, q);
    PositionIs(|values|, q, k as real + t);
    ValueAtFraction(ordered, Position(|values|, q), k, t);
  }

  lemma PositionIs(n: nat, q: real, x: real)
    requires n > 0 && PositionAt(n, q, x)
    ensures Position(n, q) == x
  {
    assert (n - 1) as real == n as real - 1.0;
  }

  // ---- bounds and strengths ------------------------------------------------

  /** When the raw strengths stand, and otherwise between which bounds they are stretched. */
  lemma BoundsExactly(p: Params, raws: seq<real>)
    requires ParamsSound(p)
    ensures |raws| == 0 <==> BoundsOf(p, raws) == Raw(NoEdges)
    ensures |raws| == 1 <==> BoundsOf(p, raws) == Raw(InsufficientTypeSample)
    ensures |raws| >= 2 ==>
            && LinearQuantile(raws, p.lowerQuantile).Some? && LinearQuantile(raws, p.upperQuantile).Some?
            && var low, high := Round6(LinearQuantile(raws, p.lowerQuantile).value),
                                Round6(LinearQuantile(raws, p.upperQuantile).value);
            && (high - low < p.minSpan <==> BoundsOf(p, raws) == Raw(DegenerateQuantileSpan))
            && (high - low >= p.minSpan <==> BoundsOf(p, raws) == Calibrated(low, high))
  {
    if |raws| >= 2 {
      var low, high := Round6(LinearQuantile(raws, p.lowerQuantile).value), Round6(LinearQuantile(raws, p.upperQuantile).value);
      Round6OnGrid(LinearQuantile(raws, p.lowerQuantile).value);
      Round6OnGrid(LinearQuantile(raws, p.upperQuantile).value);
      OnGridSum(high, low);
      Round6Fixes(high - low);
    }
  }

  /** Strengths are rounded, and kept between 0.000001 and 1. */
  lemma NormalizedExactly(x: real)
    ensures NormalizedStrength(x) == if x <= 0.000001 then 0.000001 else if x >= 1.0 then 1.0 else Round6(x)
  {
    UnitsAreOnGrid();
    Round6Fixes(STRENGTH_MIN);
    Round6Fixes(1.0);
  }

  predicate IsShare(share: real, whole: real, part: real) {
    share * whole == part
  }

  lemma QuotientExactly(part: real, whole: real, x: real)
    requires whole > 0.0
    ensures x == part / whole <==> IsShare(x, whole, part)
  {
  }

  lemma StretchedBetween(floor: real, lower: real, span: real, raw: real, share: real)
    requires 0.0 <= floor <= 1.0 && span > 0.0 && IsShare(share, span, raw - lower) && 0.0 <= raw - lower <= span
    ensures Affine(floor, lower, span, raw) == Blend(floor, 1.0, share)
    ensures floor <= Affine(floor, lower, span, raw) <= 1.0
  {
    QuotientExactly(raw - lower, span, share);
    Between(floor, 1.0, share);
    ShareWithin(share, span, raw - lower);
    UnitIsClamped(lower, span, raw, share);
    AlongMonotone(floor, 1.0 - floor, share, share);
  }

  lemma AboveFloor(p: Params, x: real)
    requires ParamsSound(p) && p.strengthFloor <= x <= 1.0
    ensures NormalizedStrength(x) == Round6(x)
  {
    NormalizedExactly(x);
    UnitsAreOnGrid();
    Round6Fixes(0.000001);
    Round6Fixes(1.0);
  }

  /** Outside fallback a strength below the lower bound becomes the floor, one above the
      upper bound becomes 1, and one between divides the range above the floor as it
      divides the range between the bounds. */
  lemma StrengthExactly(p: Params, raws: seq<real>, raw: real, share: real)
    requires ParamsSound(p) && BoundsOf(p, raws).Calibrated?
    requires var b := BoundsOf(p, raws); IsShare(share, b.upper - b.lower, raw - b.lower)
    ensures var b, s := BoundsOf(p, raws), CalibratedStrength(p, BoundsOf(p, raws), raw);
            && (raw <= b.lower ==> s == p.strengthFloor)
            && (raw >= b.upper ==> s == 1.0)
            && (b.lower <= raw <= b.upper ==> s == Round6(Blend(p.strengthFloor, 1.0, share)))
  {
    var b := BoundsOf(p, raws);
    GuardIsIdle(p, raws);
    CalibrationMonotone(p, raws, raw, raw);
    if b.lower <= raw <= b.upper {
      StretchedBetween(p.strengthFloor, b.lower, b.upper - b.lower, raw, share);
      AboveFloor(p, Affine(p.strengthFloor, b.lower, b.upper - b.lower, raw));
    }
  }

  lemma ShareWithin(share: real, span: real, part: real)
    requires span > 0.0 && IsShare(share, span, part) && 0.0 <= part <= span
    ensures 0.0 <= share <= 1.0 && Clamp(share, 0.0, 1.0) == share
  {
    QuotientExactly(part, span, share);
    RatioMonotone(0.0, part, span);
    RatioMonotone(part, span, span);
    RatioEnds(span);
  }

  /** In fallback the raw strength stands. */
  lemma FallbackKeepsRaw(p: Params, raws: seq<real>, raw: real)
    requires ParamsSound(p) && BoundsOf(p, raws).Raw?
    ensures CalibratedStrength(p, BoundsOf(p, raws), raw) == raw
  {
  }

  /** The distance is the rounded negative logarithm of the strength as kept, or zero within
      a billionth of it. */
  lemma DistanceExactly(negLog: real -> real, strength: real)
    ensures var kept := if strength <= 0.000001 then 0.000001 else if strength >= 1.0 then 1.0 else Round6(strength);
            DistanceFromStrength(negLog, strength)
            == if -0.000000001 < negLog(kept) < 0.000000001 then 0.0 else Round6(negLog(kept))
  {
    NormalizedExactly(strength);
  }

  /** A row that is weaker or farther than the one before. */
  predicate Disordered(strengths: seq<real>, distances: seq<real>, i: int)
    requires |strengths| == |distances|
  {
    0 < i < |strengths| && (strengths[i] < strengths[i - 1] || distances[i] > distances[i - 1])
  }

  function OutOfOrder(strengths: seq<real>, distances: seq<real>): set<int>
    requires |strengths| == |distances|
  {
    set i | 0 < i < |strengths| && Disordered(strengths, distances, i)
  }

  lemma {:induction false} ViolationsExactly(strengths: seq<real>, distances: seq<real>)
    requires |strengths| == |distances|
    ensures ViolationCount(strengths, distances) == |OutOfOrder(strengths, distances)|
  {
    if |strengths| < 2 {
      assert OutOfOrder(strengths, distances) == {};
    } else {
      var n := |strengths| - 1;
      ViolationsExactly(strengths[..n], distances[..n]);
      assert OutOfOrder(strengths, distances) == OutOfOrder(strengths[..n], distances[..n])
        + if Disordered(strengths, distances, n) then {n} else {};
    }
  }
}
