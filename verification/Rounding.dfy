/** Rounding to six decimals. Replayed distances, rewards and strengths are all
    passed through Python's `round(x, 6)` before they are compared, so the grid
    of micro-units and the half-even rule are part of what the replay decides. */
module Rounding {

  const SCALE: real := 1000000.0

  /** The absolute tolerance of every replayed comparison. */
  const DISTANCE_REPLAY_ABS_TOLERANCE: real := 0.000000001

  /** The nearest integer; a tie goes to the even neighbour. */
  function NearestInt(x: real): (n: int)
    ensures -0.5 <= x - n as real <= 0.5
    ensures x == x.Floor as real ==> n == x.Floor
  {
    var low := x.Floor;
    var fraction := x - low as real;
    if fraction < 0.5 || (fraction == 0.5 && low % 2 == 0) then low else low + 1
  }

  function Round6(x: real): real {
    NearestInt(x * SCALE) as real / SCALE
  }

  /** x is a whole number of micro-units. */
  predicate OnGrid(x: real) {
    x * SCALE == (x * SCALE).Floor as real
  }

  predicate StrictNumericMatch(observed: real, expected: real) {
    -DISTANCE_REPLAY_ABS_TOLERANCE <= observed - expected <= DISTANCE_REPLAY_ABS_TOLERANCE
  }

  lemma NearestIntMonotone(x: real, y: real)
    requires x <= y
    ensures NearestInt(x) <= NearestInt(y)
  {
    assert x.Floor <= y.Floor;
  }

  /** Python's tie rule. */
  lemma TiesGoToEven(n: int)
    ensures NearestInt(n as real + 0.5) % 2 == 0
    ensures NearestInt(n as real + 0.5) in {n, n + 1}
  {
    assert (n as real + 0.5).Floor == n;
  }

  lemma NearestIntOfInt(n: int)
    ensures NearestInt(n as real) == n
  {
    assert (n as real).Floor == n;
  }

  lemma Round6Error(x: real)
    ensures -0.0000005 <= Round6(x) - x <= 0.0000005
  {
    var n := NearestInt(x * SCALE);
    assert -0.5 <= x * SCALE - n as real <= 0.5;
    assert Round6(x) * SCALE == n as real;
  }

  lemma Round6Monotone(x: real, y: real)
    requires x <= y
    ensures Round6(x) <= Round6(y)
  {
    NearestIntMonotone(x * SCALE, y * SCALE);
  }

  lemma Round6OnGrid(x: real)
    ensures OnGrid(Round6(x))
  {
    assert Round6(x) * SCALE == NearestInt(x * SCALE) as real;
  }

  lemma Round6Fixes(x: real)
    requires OnGrid(x)
    ensures Round6(x) == x
  {
    NearestIntOfInt((x * SCALE).Floor);
  }

  /** A value strictly within half a micro-unit of a grid point rounds to it. */
  lemma Round6Near(x: real, g: real)
    requires OnGrid(g) && -0.0000005 < x - g < 0.0000005
    ensures Round6(x) == g
  {
    var n := (g * SCALE).Floor;
    assert x * SCALE - n as real == (x - g) * SCALE;
    assert -0.5 < x * SCALE - n as real < 0.5;
    assert NearestInt(x * SCALE) == n;
  }

  lemma UnitsOnGrid(x: real, units: int)
    requires x * SCALE == units as real
    ensures OnGrid(x)
  {
    assert (units as real).Floor == units;
  }

  lemma OnGridSum(x: real, y: real)
    requires OnGrid(x) && OnGrid(y)
    ensures OnGrid(x + y) && OnGrid(x - y)
  {
    var m, n := (x * SCALE).Floor, (y * SCALE).Floor;
    assert (x + y) * SCALE == x * SCALE + y * SCALE;
    assert (x - y) * SCALE == x * SCALE - y * SCALE;
    UnitsOnGrid(x + y, m + n);
    UnitsOnGrid(x - y, m - n);
  }

  /** Two grid points closer than half a unit are the same point. */
  lemma GridGap(x: real, y: real)
    requires OnGrid(x) && OnGrid(y) && -0.0000005 < x - y < 0.0000005
    ensures x == y
  {
    Round6Near(x, y);
    Round6Fixes(x);
  }
}
