/** Type-local calibration of relation strengths: winsorised min-max between two
    interpolated quantiles, then a distance. `negLog` stands for x -> -ln x and is
    only assumed to be non-negative and antitone where it is applied. */
module Calibration {
  import opened Basics
  import opened Options
  import opened Rounding

  const STRENGTH_MIN: real := 0.000001
  const DIVISOR_GUARD: real := 0.000000000001
  const DISTANCE_SNAP: real := 0.000000001

  function Clamp(x: real, low: real, high: real): real
    requires low <= high
  {
    if x < low then low else if x > high then high else x
  }

  function NormalizedStrength(x: real): real {
    Round6(Clamp(x, STRENGTH_MIN, 1.0))
  }

  // ---- sorting -------------------------------------------------------------

  function Insert(xs: seq<real>, x: real): (r: seq<real>)
    ensures |r| == |xs| + 1
  {
    if xs == [] || xs[|xs| - 1] <= x then xs + [x]
    else Insert(xs[..|xs| - 1], x) + [xs[|xs| - 1]]
  }

  function Sort(xs: seq<real>): (r: seq<real>)
    ensures |r| == |xs|
  {
    if xs == [] then [] else Insert(Sort(xs[..|xs| - 1]), xs[|xs| - 1])
  }

  lemma AppendKeepsAscending(xs: seq<real>, x: real)
    requires Ascending(xs) && forall y | y in xs :: y <= x
    ensures Ascending(xs + [x])
  {
    assert forall i | 0 <= i < |xs| :: xs[i] in xs;
  }

  lemma LastIsGreatest(xs: seq<real>)
    requires xs != [] && Ascending(xs)
    ensures forall y | y in xs :: y <= xs[|xs| - 1]
  {
    forall y | y in xs ensures y <= xs[|xs| - 1] {
      var i :| 0 <= i < |xs| && xs[i] == y;
      if i < |xs| - 1 { assert xs[i] <= xs[|xs| - 1]; }
    }
  }

  lemma {:induction false} InsertPermutes(xs: seq<real>, x: real)
    ensures multiset(Insert(xs, x)) == multiset(xs) + multiset{x}
    ensures forall y | y in Insert(xs, x) :: y in xs || y == x
  {
    if xs != [] && x < xs[|xs| - 1] {
      InsertPermutes(xs[..|xs| - 1], x);
      assert xs == xs[..|xs| - 1] + [xs[|xs| - 1]];
    }
  }

  lemma {:induction false} InsertSorts(xs: seq<real>, x: real)
    requires Ascending(xs)
    ensures Ascending(Insert(xs, x))
  {
    if xs != [] {
      LastIsGreatest(xs);
      var front, last := xs[..|xs| - 1], xs[|xs| - 1];
      if x < last {
        InsertSorts(front, x);
        InsertPermutes(front, x);
        assert forall y | y in front :: y in xs;
        AppendKeepsAscending(Insert(front, x), last);
      } else {
        AppendKeepsAscending(xs, x);
      }
    }
  }

  lemma {:induction false} SortSorts(xs: seq<real>)
    ensures Ascending(Sort(xs)) && multiset(Sort(xs)) == multiset(xs)
  {
    if xs != [] {
      var front, last := xs[..|xs| - 1], xs[|xs| - 1];
      assert xs == front + [last];
      SortSorts(front);
      InsertSorts(Sort(front), last);
      InsertPermutes(Sort(front), last);
      assert multiset(xs) == multiset(front) + multiset{last};
    }
  }

  // ---- quantiles -----------------------------------------------------------

  function Ceiling(x: real): int {
    if x == x.Floor as real then x.Floor else x.Floor + 1
  }

  function Share(whole: real, q: real): real {
    whole * q
  }

  /** The point a fraction t of the way along the gap that starts at a. */
  function Along(a: real, gap: real, t: real): real {
    a + Share(gap, t)
  }

  /** Linear interpolation at a fractional position of an ordered list. */
  function ValueAt(ordered: seq<real>, position: real): real
    requires ordered != [] && 0.0 <= position <= |ordered| as real - 1.0
  {
    var low, high := position.Floor, Ceiling(position);
    assert high < |ordered|;
    Along(ordered[low], ordered[high] - ordered[low], position - low as real)
  }

  function Position(n: nat, q: real): real {
    Share(n as real - 1.0, q)
  }

  lemma ProductOfDifference(whole: real, p: real, q: real)
    ensures whole * (q - p) == whole * q - whole * p
  {
  }

  lemma ShareMonotone(whole: real, p: real, q: real)
    requires whole >= 0.0 && p <= q
    ensures Share(whole, p) <= Share(whole, q)
  {
    ProductNonNegative(whole, q - p);
    ProductOfDifference(whole, p, q);
  }

  lemma ShareEnds(whole: real)
    ensures Share(whole, 0.0) == 0.0 && Share(whole, 1.0) == whole
  {
  }

  lemma ShareBounds(whole: real, q: real)
    requires whole >= 0.0 && 0.0 <= q <= 1.0
    ensures 0.0 <= Share(whole, q) <= whole
  {
    ShareEnds(whole);
    ShareMonotone(whole, 0.0, q);
    ShareMonotone(whole, q, 1.0);
  }

  lemma PositionBounds(n: nat, q: real)
    requires n > 0 && 0.0 <= q <= 1.0
    ensures 0.0 <= Position(n, q) <= n as real - 1.0
  {
    ShareBounds(n as real - 1.0, q);
  }

  function LinearQuantile(values: seq<real>, q: real): Option<real>
    requires 0.0 <= q <= 1.0
  {
    if values == [] then None else
      PositionBounds(|values|, q);
      Some(ValueAt(Sort(values), Position(|values|, q)))
  }

  lemma AlongIsShare(a: real, gap: real, t: real, share: real)
    requires share == Share(gap, t)
    ensures Along(a, gap, t) == a + share
  {
  }

  lemma AlongMonotone(a: real, gap: real, s: real, t: real)
    requires gap >= 0.0 && 0.0 <= s <= t <= 1.0
    ensures a <= Along(a, gap, s) <= Along(a, gap, t) <= a + gap
  {
    var p, q := Share(gap, s), Share(gap, t);
    ShareBounds(gap, s);
    ShareBounds(gap, t);
    ShareMonotone(gap, s, t);
    AlongIsShare(a, gap, s, p);
    AlongIsShare(a, gap, t, q);
  }

  lemma AlongEnds(a: real, gap: real)
    ensures Along(a, gap, 0.0) == a && Along(a, gap, 1.0) == a + gap
  {
    ShareEnds(gap);
  }

  lemma ValueAtInteger(ordered: seq<real>, k: nat)
    requires k < |ordered|
    ensures ValueAt(ordered, k as real) == ordered[k]
  {
    assert (k as real).Floor == k;
  }

  lemma ValueAtBetween(ordered: seq<real>, p: real)
    requires ordered != [] && Ascending(ordered) && 0.0 <= p <= |ordered| as real - 1.0
    ensures 0 <= p.Floor <= Ceiling(p) < |ordered|
    ensures ordered[0] <= ordered[p.Floor] <= ValueAt(ordered, p) <= ordered[Ceiling(p)] <= ordered[|ordered| - 1]
  {
    var low, high := p.Floor, Ceiling(p);
    assert low <= high < |ordered|;
    assert ordered[low] <= ordered[high] && ordered[0] <= ordered[low] && ordered[high] <= ordered[|ordered| - 1];
    AlongMonotone(ordered[low], ordered[high] - ordered[low], p - low as real, p - low as real);
  }

  lemma SameCell(ordered: seq<real>, p: real, q: real)
    requires ordered != [] && Ascending(ordered) && 0.0 <= p <= q <= |ordered| as real - 1.0
    requires p.Floor == q.Floor
    ensures ValueAt(ordered, p) <= ValueAt(ordered, q)
  {
    var low := p.Floor;
    ValueAtBetween(ordered, q);
    if p == low as real {
      ValueAtInteger(ordered, low);
    } else {
      var high := low + 1;
      assert Ceiling(p) == high && Ceiling(q) == high;
      AlongMonotone(ordered[low], ordered[high] - ordered[low], p - low as real, q - low as real);
    }
  }

  /** Interpolation stays between the extremes and rises with the position. */
  lemma ValueAtMonotone(ordered: seq<real>, p: real, q: real)
    requires ordered != [] && Ascending(ordered)
    requires 0.0 <= p <= q <= |ordered| as real - 1.0
    ensures ordered[0] <= ValueAt(ordered, p) <= ValueAt(ordered, q) <= ordered[|ordered| - 1]
  {
    ValueAtBetween(ordered, p);
    ValueAtBetween(ordered, q);
    if p.Floor == q.Floor {
      SameCell(ordered, p, q);
    } else {
      assert Ceiling(p) <= q.Floor;
      assert ordered[Ceiling(p)] <= ordered[q.Floor];
    }
  }

  /** At q = k / (n - 1) the quantile is the k-th smallest value itself. */
  lemma QuantileHitsOrderStatistics(values: seq<real>, k: nat, q: real)
    requires k < |values| && 0.0 <= q <= 1.0 && Position(|values|, q) == k as real
    ensures LinearQuantile(values, q) == Some(Sort(values)[k])
  {
    ValueAtInteger(Sort(values), k);
  }

  lemma PositionsOrdered(n: nat, p: real, q: real)
    requires n > 0 && 0.0 <= p <= q <= 1.0
    ensures 0.0 <= Position(n, p) <= Position(n, q) <= n as real - 1.0
  {
    PositionBounds(n, p);
    PositionBounds(n, q);
    ShareMonotone(n as real - 1.0, p, q);
  }

  lemma ValuesOrdered(ordered: seq<real>, a: real, b: real, x: Option<real>, y: Option<real>)
    requires ordered != [] && Ascending(ordered) && 0.0 <= a <= b <= |ordered| as real - 1.0
    requires x == Some(ValueAt(ordered, a)) && y == Some(ValueAt(ordered, b))
    ensures x.Some? && y.Some? && ordered[0] <= x.value <= y.value <= ordered[|ordered| - 1]
  {
    ValueAtMonotone(ordered, a, b);
  }

  /** Quantiles lie between the extremes and are monotone in q. */
  lemma QuantileMonotone(values: seq<real>, p: real, q: real)
    requires values != [] && 0.0 <= p <= q <= 1.0
    ensures LinearQuantile(values, p).Some? && LinearQuantile(values, q).Some?
    ensures Sort(values)[0] <= LinearQuantile(values, p).value
                            <= LinearQuantile(values, q).value <= Sort(values)[|values| - 1]
  {
    SortSorts(values);
    PositionsOrdered(|values|, p, q);
    ValuesOrdered(Sort(values), Position(|values|, p), Position(|values|, q),
                  LinearQuantile(values, p), LinearQuantile(values, q));
  }

  // ---- calibration ---------------------------------------------------------

  datatype Params = Params(lowerQuantile: real, upperQuantile: real, minSpan: real, strengthFloor: real)

  /** What the replay demands of the calibration parameters. */
  predicate ParamsSound(p: Params) {
    && 0.0 <= p.lowerQuantile <= 0.25
    && 0.75 <= p.upperQuantile <= 1.0
    && 0.01 <= p.minSpan <= 0.5
    && STRENGTH_MIN <= p.strengthFloor <= 0.25
    && OnGrid(p.lowerQuantile) && OnGrid(p.upperQuantile) && OnGrid(p.minSpan) && OnGrid(p.strengthFloor)
  }

  datatype Fallback = NoEdges | InsufficientTypeSample | DegenerateQuantileSpan

  /** The winsorising bounds, or why they are not used. */
  datatype Bounds = Raw(reason: Fallback) | Calibrated(lower: real, upper: real)

  function BoundsOf(p: Params, raws: seq<real>): Bounds
    requires ParamsSound(p)
  {
    if raws == [] then Raw(NoEdges) else
      var lower := Round6(LinearQuantile(raws, p.lowerQuantile).value);
      var upper := Round6(LinearQuantile(raws, p.upperQuantile).value);
      if |raws| < 2 then Raw(InsufficientTypeSample)
      else if Round6(upper - lower) < p.minSpan then Raw(DegenerateQuantileSpan)
      else Calibrated(lower, upper)
  }

  function Ratio(part: real, whole: real): real
    requires whole > 0.0
  {
    part / whole
  }

  /** A raw strength's place between the bounds, winsorised to [0, 1]. */
  function Unit(lower: real, span: real, raw: real): real
    requires span > 0.0
  {
    Clamp(Ratio(raw - lower, span), 0.0, 1.0)
  }

  /** The unrounded affine image of a raw strength. */
  function Affine(floor: real, lower: real, span: real, raw: real): real
    requires span > 0.0
  {
    Along(floor, 1.0 - floor, Unit(lower, span, raw))
  }

  function CalibratedStrength(p: Params, b: Bounds, raw: real): real {
    if b.Raw? then raw else
      var span := b.upper - b.lower;
      NormalizedStrength(Affine(p.strengthFloor, b.lower, if span < DIVISOR_GUARD then DIVISOR_GUARD else span, raw))
  }

  function DistanceFromStrength(negLog: real -> real, strength: real): real {
    var normalized := NormalizedStrength(strength);
    var distance := negLog(if normalized < STRENGTH_MIN then STRENGTH_MIN else normalized);
    if -DISTANCE_SNAP < distance < DISTANCE_SNAP then 0.0 else Round6(distance)
  }

  ghost predicate IsNegLog(negLog: real -> real) {
    && (forall x: real | STRENGTH_MIN <= x <= 1.0 :: negLog(x) >= 0.0)
    && (forall x: real, y: real | STRENGTH_MIN <= x <= y <= 1.0 :: negLog(y) <= negLog(x))
  }

  lemma UnitsAreOnGrid()
    ensures OnGrid(STRENGTH_MIN) && OnGrid(1.0) && OnGrid(0.0)
  {
    UnitsOnGrid(STRENGTH_MIN, 1);
    UnitsOnGrid(1.0, 1000000);
    UnitsOnGrid(0.0, 0);
  }

  lemma NormalizedMonotone(x: real, y: real)
    requires x <= y
    ensures STRENGTH_MIN <= NormalizedStrength(x) <= NormalizedStrength(y) <= 1.0
  {
    UnitsAreOnGrid();
    Round6Fixes(STRENGTH_MIN);
    Round6Fixes(1.0);
    Round6Monotone(STRENGTH_MIN, Clamp(x, STRENGTH_MIN, 1.0));
    Round6Monotone(Clamp(x, STRENGTH_MIN, 1.0), Clamp(y, STRENGTH_MIN, 1.0));
    Round6Monotone(Clamp(y, STRENGTH_MIN, 1.0), 1.0);
  }

  /** Outside fallback the span is real: the divisor guard never acts. */
  lemma GuardIsIdle(p: Params, raws: seq<real>)
    requires ParamsSound(p) && BoundsOf(p, raws).Calibrated?
    ensures var b := BoundsOf(p, raws); b.upper - b.lower > 0.009 > DIVISOR_GUARD
  {
    var b := BoundsOf(p, raws);
    Round6Error(b.upper - b.lower);
  }

  lemma QuotientNonNegative(part: real, whole: real)
    requires part >= 0.0 && whole > 0.0
    ensures part / whole >= 0.0
  {
  }

  lemma QuotientOfDifference(x: real, y: real, whole: real)
    requires whole > 0.0
    ensures (y - x) / whole == y / whole - x / whole
  {
  }

  lemma RatioMonotone(x: real, y: real, whole: real)
    requires x <= y && whole > 0.0
    ensures Ratio(x, whole) <= Ratio(y, whole)
  {
    QuotientNonNegative(y - x, whole);
    QuotientOfDifference(x, y, whole);
  }

  lemma RatioEnds(whole: real)
    requires whole > 0.0
    ensures Ratio(0.0, whole) == 0.0 && Ratio(whole, whole) == 1.0
  {
  }

  lemma UnitIsClamped(lower: real, span: real, raw: real, ratio: real)
    requires span > 0.0 && ratio == Ratio(raw - lower, span)
    ensures Unit(lower, span, raw) == Clamp(ratio, 0.0, 1.0)
  {
  }

  lemma UnitMonotone(lower: real, span: real, x: real, y: real)
    requires span > 0.0 && x <= y
    ensures 0.0 <= Unit(lower, span, x) <= Unit(lower, span, y) <= 1.0
  {
    RatioMonotone(x - lower, y - lower, span);
    UnitIsClamped(lower, span, x, Ratio(x - lower, span));
    UnitIsClamped(lower, span, y, Ratio(y - lower, span));
  }

  lemma UnitEnds(lower: real, span: real, raw: real)
    requires span > 0.0
    ensures raw <= lower ==> Unit(lower, span, raw) == 0.0
    ensures raw >= lower + span ==> Unit(lower, span, raw) == 1.0
  {
    RatioEnds(span);
    if raw <= lower {
      RatioMonotone(raw - lower, 0.0, span);
    }
    if raw >= lower + span {
      RatioMonotone(span, raw - lower, span);
    }
  }

  lemma AffineMonotone(floor: real, lower: real, span: real, x: real, y: real)
    requires 0.0 <= floor <= 1.0 && span > 0.0 && x <= y
    ensures floor <= Affine(floor, lower, span, x) <= Affine(floor, lower, span, y) <= 1.0
  {
    UnitMonotone(lower, span, x, y);
    AlongMonotone(floor, 1.0 - floor, Unit(lower, span, x), Unit(lower, span, y));
  }

  lemma AffineEnds(floor: real, lower: real, span: real, raw: real)
    requires span > 0.0
    ensures raw <= lower ==> Affine(floor, lower, span, raw) == floor
    ensures raw >= lower + span ==> Affine(floor, lower, span, raw) == 1.0
  {
    UnitEnds(lower, span, raw);
    AlongEnds(floor, 1.0 - floor);
  }

  /** Outside fallback, calibration is monotone, lands in [floor, 1], and sends
      everything at or beyond a bound exactly to the corresponding end. */
  lemma CalibrationMonotone(p: Params, raws: seq<real>, x: real, y: real)
    requires ParamsSound(p) && BoundsOf(p, raws).Calibrated? && x <= y
    ensures var b := BoundsOf(p, raws);
            && p.strengthFloor <= CalibratedStrength(p, b, x) <= CalibratedStrength(p, b, y) <= 1.0
            && (x <= b.lower ==> CalibratedStrength(p, b, x) == p.strengthFloor)
            && (y >= b.upper ==> CalibratedStrength(p, b, y) == 1.0)
  {
    var b := BoundsOf(p, raws);
    var span := b.upper - b.lower;
    GuardIsIdle(p, raws);
    AffineMonotone(p.strengthFloor, b.lower, span, x, y);
    AffineEnds(p.strengthFloor, b.lower, span, x);
    AffineEnds(p.strengthFloor, b.lower, span, y);
    var fx, fy := Affine(p.strengthFloor, b.lower, span, x), Affine(p.strengthFloor, b.lower, span, y);
    assert CalibratedStrength(p, b, x) == NormalizedStrength(fx);
    assert CalibratedStrength(p, b, y) == NormalizedStrength(fy);
    NormalizedMonotone(fx, fy);
    FloorIsFixed(p, fx, fy);
  }

  lemma FloorIsFixed(p: Params, x: real, y: real)
    requires ParamsSound(p) && p.strengthFloor <= x <= 1.0 && y <= 1.0
    ensures p.strengthFloor <= NormalizedStrength(x)
    ensures x == p.strengthFloor ==> NormalizedStrength(x) == p.strengthFloor
    ensures y == 1.0 ==> NormalizedStrength(y) == 1.0
  {
    UnitsAreOnGrid();
    Round6Fixes(p.strengthFloor);
    Round6Fixes(1.0);
    Round6Monotone(p.strengthFloor, x);
  }

  /** A stronger relation is never farther. */
  lemma DistanceAntitone(negLog: real -> real, x: real, y: real)
    requires IsNegLog(negLog) && x <= y
    ensures 0.0 <= DistanceFromStrength(negLog, y) <= DistanceFromStrength(negLog, x)
  {
    NormalizedMonotone(x, y);
    var nx, ny := NormalizedStrength(x), NormalizedStrength(y);
    assert negLog(ny) <= negLog(nx);
    UnitsAreOnGrid();
    Round6Fixes(0.0);
    Round6Monotone(0.0, negLog(ny));
    Round6Monotone(negLog(ny), negLog(nx));
  }

  function ViolationCount(strengths: seq<real>, distances: seq<real>): nat
    requires |strengths| == |distances|
  {
    if |strengths| < 2 then 0 else
      var n := |strengths| - 1;
      ViolationCount(strengths[..n], distances[..n])
      + if strengths[n - 1] > strengths[n] || distances[n - 1] < distances[n] then 1 else 0
  }

  lemma {:induction false} OrderedHasNoViolations(strengths: seq<real>, distances: seq<real>)
    requires |strengths| == |distances| && Ascending(strengths)
    requires forall i, j | 0 <= i < j < |distances| :: distances[j] <= distances[i]
    ensures ViolationCount(strengths, distances) == 0
  {
    if |strengths| >= 2 {
      OrderedHasNoViolations(strengths[..|strengths| - 1], distances[..|strengths| - 1]);
    }
  }

  lemma OrderKept(p: Params, raws: seq<real>, negLog: real -> real, x: real, y: real)
    requires ParamsSound(p) && IsNegLog(negLog) && x <= y
    ensures var b := BoundsOf(p, raws);
            var s, t := CalibratedStrength(p, b, NormalizedStrength(x)), CalibratedStrength(p, b, NormalizedStrength(y));
            s <= t && DistanceFromStrength(negLog, t) <= DistanceFromStrength(negLog, s)
  {
    var b := BoundsOf(p, raws);
    NormalizedMonotone(x, y);
    if b.Calibrated? {
      CalibrationMonotone(p, raws, NormalizedStrength(x), NormalizedStrength(y));
    }
    DistanceAntitone(negLog, CalibratedStrength(p, b, NormalizedStrength(x)), CalibratedStrength(p, b, NormalizedStrength(y)));
  }

  /** The rows of one edge type, calibrated: in ascending raw order the strengths
      rise, the distances fall, and outside fallback they lie in [floor, 1]. */
  lemma RowsAreOrdered(p: Params, raws: seq<real>, negLog: real -> real, rawStrengths: seq<real>,
                       calibrated: seq<real>, distances: seq<real>)
    requires ParamsSound(p) && IsNegLog(negLog) && Ascending(rawStrengths)
    requires |calibrated| == |distances| == |rawStrengths|
    requires forall i | 0 <= i < |calibrated| ::
               && calibrated[i] == CalibratedStrength(p, BoundsOf(p, raws), NormalizedStrength(rawStrengths[i]))
               && distances[i] == DistanceFromStrength(negLog, calibrated[i])
    ensures Ascending(calibrated) && ViolationCount(calibrated, distances) == 0
    ensures BoundsOf(p, raws).Calibrated? ==> forall s | s in calibrated :: p.strengthFloor <= s <= 1.0
  {
    forall i, j | 0 <= i < j < |calibrated|
      ensures calibrated[i] <= calibrated[j] && distances[j] <= distances[i]
    {
      OrderKept(p, raws, negLog, rawStrengths[i], rawStrengths[j]);
    }
    OrderedHasNoViolations(calibrated, distances);
    if BoundsOf(p, raws).Calibrated? {
      forall s | s in calibrated ensures p.strengthFloor <= s <= 1.0 {
        var i :| 0 <= i < |calibrated| && calibrated[i] == s;
        CalibrationMonotone(p, raws, NormalizedStrength(rawStrengths[i]), NormalizedStrength(rawStrengths[i]));
      }
    }
  }

  /** Calibrate one edge type's raw strengths, given in ascending order as the
      replay sorts its rows: the expected strengths rise, the expected distances
      fall, and the declared violation count of zero is right. */
  method CalibrateEdgeType(p: Params, rawStrengths: seq<real>, negLog: real -> real)
    returns (bounds: Bounds, calibrated: seq<real>, distances: seq<real>)
    requires ParamsSound(p) && Ascending(rawStrengths) && IsNegLog(negLog)
    ensures |calibrated| == |distances| == |rawStrengths|
    ensures bounds == BoundsOf(p, seq(|rawStrengths|, i requires 0 <= i < |rawStrengths| => NormalizedStrength(rawStrengths[i])))
    ensures forall i | 0 <= i < |calibrated| ::
              && calibrated[i] == CalibratedStrength(p, bounds, NormalizedStrength(rawStrengths[i]))
              && distances[i] == DistanceFromStrength(negLog, calibrated[i])
    ensures Ascending(calibrated)
    ensures bounds.Calibrated? ==> forall s | s in calibrated :: p.strengthFloor <= s <= 1.0
    ensures ViolationCount(calibrated, distances) == 0
  {
    var raws := seq(|rawStrengths|, i requires 0 <= i < |rawStrengths| => NormalizedStrength(rawStrengths[i]));
    bounds := BoundsOf(p, raws);
    calibrated, distances := [], [];
    for k := 0 to |raws|
      invariant |calibrated| == |distances| == k
      invariant forall i | 0 <= i < k ::
                  && calibrated[i] == CalibratedStrength(p, bounds, raws[i])
                  && distances[i] == DistanceFromStrength(negLog, calibrated[i])
    {
      var strength := CalibratedStrength(p, bounds, raws[k]);
      calibrated := calibrated + [strength];
      distances := distances + [DistanceFromStrength(negLog, strength)];
    }
    RowsAreOrdered(p, raws, negLog, rawStrengths, calibrated, distances);
  }
}
