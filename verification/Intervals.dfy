/** Wall-clock time covered by overlapping spans, computed in one sweep over the
    sorted intervals, against the measure of their union. */
module Intervals {
  import opened Basics

  datatype Interval = Interval(start: real, stop: real)

  // ---- sorting: by start, then by stop -------------------------------------

  predicate Le(a: Interval, b: Interval) {
    a.start < b.start || (a.start == b.start && a.stop <= b.stop)
  }

  predicate Sorted(xs: seq<Interval>) {
    forall i, j | 0 <= i < j < |xs| :: Le(xs[i], xs[j])
  }

  function Insert(xs: seq<Interval>, x: Interval): seq<Interval> {
    if xs == [] || Le(xs[|xs| - 1], x) then xs + [x]
    else Insert(xs[..|xs| - 1], x) + [xs[|xs| - 1]]
  }

  function Sort(xs: seq<Interval>): seq<Interval> {
    if xs == [] then [] else Insert(Sort(xs[..|xs| - 1]), xs[|xs| - 1])
  }

  lemma AppendKeepsSorted(xs: seq<Interval>, x: Interval)
    requires Sorted(xs) && forall y | y in xs :: Le(y, x)
    ensures Sorted(xs + [x])
  {
    assert forall i | 0 <= i < |xs| :: xs[i] in xs;
  }

  lemma {:induction false} InsertSorts(xs: seq<Interval>, x: Interval)
    requires Sorted(xs)
    ensures Sorted(Insert(xs, x))
    ensures forall y :: y in Insert(xs, x) <==> y in xs || y == x
  {
    if xs == [] {
    } else if Le(xs[|xs| - 1], x) {
      forall y | y in xs ensures Le(y, x) {
        var i :| 0 <= i < |xs| && xs[i] == y;
        if i < |xs| - 1 { assert Le(xs[i], xs[|xs| - 1]); }
      }
      AppendKeepsSorted(xs, x);
    } else {
      var front, last := xs[..|xs| - 1], xs[|xs| - 1];
      assert xs == front + [last];
      InsertSorts(front, x);
      forall y | y in Insert(front, x) ensures Le(y, last) {
        if y in front {
          var i :| 0 <= i < |front| && front[i] == y;
          assert Le(xs[i], xs[|xs| - 1]);
        }
      }
      AppendKeepsSorted(Insert(front, x), last);
    }
  }

  lemma {:induction false} SortSorts(xs: seq<Interval>)
    ensures Sorted(Sort(xs))
    ensures forall y :: y in Sort(xs) <==> y in xs
  {
    if xs != [] {
      var front, last := xs[..|xs| - 1], xs[|xs| - 1];
      assert xs == front + [last];
      SortSorts(front);
      InsertSorts(Sort(front), last);
    }
  }

  // ---- the sweep -----------------------------------------------------------

  /** The running total, the end of what has been swept, and by how much the
      total falls short because an interval stopped before it started. */
  datatype Swept = Swept(total: real, end: real, deficit: real)

  function Advance(s: Swept, x: Interval): Swept {
    if x.stop <= s.end then s
    else Swept(s.total + (x.stop - Max(x.start, s.end)), x.stop,
               s.deficit + if x.stop < x.start then x.start - x.stop else 0.0)
  }

  function Sweep(xs: seq<Interval>): Swept {
    if xs == [] then Swept(0.0, 0.0, 0.0) else Advance(Sweep(xs[..|xs| - 1]), xs[|xs| - 1])
  }

  function IntervalUnion(xs: seq<Interval>): real {
    Sweep(Sort(xs)).total
  }

  method IntervalUnionMs(intervals: seq<Interval>) returns (total: real)
    ensures total == IntervalUnion(intervals)
  {
    var sorted := Sort(intervals);
    total := 0.0;
    var end := 0.0;
    for i := 0 to |sorted|
      invariant total == Sweep(sorted[..i]).total && end == Sweep(sorted[..i]).end
    {
      assert sorted[..i + 1][..i] == sorted[..i];
      var start, stop := sorted[i].start, sorted[i].stop;
      if stop <= end {
        continue;
      }
      total := total + (stop - Max(start, end));
      end := stop;
    }
    assert sorted[..|sorted|] == sorted;
  }

  // ---- the measure of the union --------------------------------------------

  /** Breakpoints: ascending, and among them zero and every end of an interval. */
  ghost predicate Breaks(points: seq<real>, xs: seq<Interval>) {
    Ascending(points) && 0.0 in points && forall x | x in xs :: x.start in points && x.stop in points
  }

  /** Some interval contains the cell between two neighbouring breakpoints. */
  predicate CellCovered(points: seq<real>, xs: seq<Interval>, i: nat)
    requires i + 1 < |points|
  {
    exists x | x in xs :: x.start <= points[i] && points[i + 1] <= x.stop
  }

  /** The total length of the covered cells among the first n + 1 points. As no end
      of an interval lies inside a cell, this is the measure of the union. */
  function Covered(points: seq<real>, xs: seq<Interval>, n: nat): real
    requires n < |points|
  {
    if n == 0 then 0.0
    else Covered(points, xs, n - 1) + if CellCovered(points, xs, n - 1) then points[n] - points[n - 1] else 0.0
  }

  function Measure(points: seq<real>, xs: seq<Interval>): real
    requires points != []
  {
    Covered(points, xs, |points| - 1)
  }

  /** The measure depends only on which intervals there are. */
  lemma {:induction false} MeasureIgnoresOrder(points: seq<real>, xs: seq<Interval>, ys: seq<Interval>, n: nat)
    requires n < |points| && forall x :: x in xs <==> x in ys
    ensures Covered(points, xs, n) == Covered(points, ys, n)
  {
    if n > 0 {
      MeasureIgnoresOrder(points, xs, ys, n - 1);
    }
  }

  // ---- telescoping ---------------------------------------------------------

  function Inside(points: seq<real>, low: real, high: real, n: nat): real
    requires n < |points|
  {
    if n == 0 then 0.0
    else Inside(points, low, high, n - 1)
         + if low <= points[n - 1] && points[n] <= high then points[n] - points[n - 1] else 0.0
  }

  function ClampTo(x: real, low: real, high: real): real {
    if x < low then low else if x > high then high else x
  }

  /** No breakpoint lies strictly inside a cell. */
  lemma NoStraddle(points: seq<real>, p: real, n: nat)
    requires Ascending(points) && p in points && 0 < n < |points|
    ensures points[n] <= p || p <= points[n - 1]
  {
    var i :| 0 <= i < |points| && points[i] == p;
  }

  lemma {:induction false} InsideTelescopes(points: seq<real>, low: real, high: real, n: nat)
    requires Ascending(points) && low in points && high in points && low <= high && n < |points|
    ensures Inside(points, low, high, n) == ClampTo(points[n], low, high) - ClampTo(points[0], low, high)
  {
    if n > 0 {
      InsideTelescopes(points, low, high, n - 1);
      NoStraddle(points, low, n);
      NoStraddle(points, high, n);
      assert points[n - 1] <= points[n];
    }
  }

  lemma InsideAll(points: seq<real>, low: real, high: real)
    requires Ascending(points) && low in points && high in points && low <= high
    ensures Inside(points, low, high, |points| - 1) == high - low
  {
    InsideTelescopes(points, low, high, |points| - 1);
    var i :| 0 <= i < |points| && points[i] == low;
    var j :| 0 <= j < |points| && points[j] == high;
    assert points[0] <= low && high <= points[|points| - 1];
  }

  // ---- the sweep against the measure ---------------------------------------

  /** What the sweep has seen: its end bounds every stop, and is zero or the stop of
      an interval that starts no later than anything still to come. */
  ghost predicate EndIsSound(xs: seq<Interval>, end: real) {
    && end >= 0.0
    && (forall y | y in xs :: y.stop <= end)
    && (end == 0.0 || exists y | y in xs :: y.stop == end)
  }

  lemma {:induction false} SweepEnd(xs: seq<Interval>)
    ensures EndIsSound(xs, Sweep(xs).end)
  {
    if xs != [] {
      SweepEnd(xs[..|xs| - 1]);
      assert xs == xs[..|xs| - 1] + [xs[|xs| - 1]];
    }
  }

  /** Whether a cell is covered once x joins the intervals swept before it. */
  lemma CellGains(points: seq<real>, xs: seq<Interval>, x: Interval, end: real, i: nat)
    requires Breaks(points, xs + [x]) && i + 1 < |points| && points[i] < points[i + 1]
    requires EndIsSound(xs, end) && x.start >= 0.0 && forall y | y in xs :: y.start <= x.start
    ensures CellCovered(points, xs, i) ==> points[i] < end
    ensures x.start <= points[i] && points[i + 1] <= end ==> CellCovered(points, xs, i)
    ensures points[i] < end ==> points[i + 1] <= end
    ensures CellCovered(points, xs + [x], i)
            <==> CellCovered(points, xs, i) || (Max(x.start, end) <= points[i] && points[i + 1] <= x.stop)
  {
    assert end in points by {
      if end != 0.0 {
        var y :| y in xs && y.stop == end;
        assert y in xs + [x];
      }
    }
    NoStraddle(points, end, i + 1);
    if x.start <= points[i] && points[i + 1] <= end {
      assert end != 0.0;
      var y :| y in xs && y.stop == end;
      assert y.start <= points[i];
    }
    assert forall y :: y in xs + [x] <==> y in xs || y == x;
  }

  lemma {:induction false} CoverageGrows(points: seq<real>, xs: seq<Interval>, x: Interval, end: real, n: nat)
    requires Breaks(points, xs + [x]) && n < |points|
    requires EndIsSound(xs, end) && x.start >= 0.0 && forall y | y in xs :: y.start <= x.start
    ensures Covered(points, xs + [x], n) == Covered(points, xs, n) + Inside(points, Max(x.start, end), x.stop, n)
  {
    if n > 0 {
      CoverageGrows(points, xs, x, end, n - 1);
      assert points[n - 1] <= points[n];
      if points[n - 1] < points[n] {
        CellGains(points, xs, x, end, n - 1);
      }
    }
  }

  lemma {:induction false} InsideNothing(points: seq<real>, low: real, high: real, n: nat)
    requires Ascending(points) && n < |points| && high <= low
    ensures Inside(points, low, high, n) == 0.0
  {
    if n > 0 {
      InsideNothing(points, low, high, n - 1);
      assert points[n - 1] <= points[n];
    }
  }

  ghost predicate StartsNonNegative(xs: seq<Interval>) {
    forall x | x in xs :: x.start >= 0.0
  }

  lemma StepAccounts(points: seq<real>, xs: seq<Interval>, x: Interval, s: Swept)
    requires Breaks(points, xs + [x]) && EndIsSound(xs, s.end)
    requires x.start >= 0.0 && forall y | y in xs :: y.start <= x.start
    requires s.total + s.deficit == Measure(points, xs)
    ensures Advance(s, x).total + Advance(s, x).deficit == Measure(points, xs + [x])
  {
    CoverageGrows(points, xs, x, s.end, |points| - 1);
    if x.stop <= Max(x.start, s.end) {
      InsideNothing(points, Max(x.start, s.end), x.stop, |points| - 1);
    } else {
      EndIsABreak(points, xs, x, s.end);
      InsideAll(points, Max(x.start, s.end), x.stop);
    }
  }

  lemma LastStartsLast(xs: seq<Interval>, x: Interval)
    requires Sorted(xs + [x])
    ensures Sorted(xs) && forall y | y in xs :: y.start <= x.start
  {
    var all := xs + [x];
    forall i, j | 0 <= i < j < |xs| ensures Le(xs[i], xs[j]) {
      assert Le(all[i], all[j]);
    }
    forall y | y in xs ensures y.start <= x.start {
      var i :| 0 <= i < |xs| && xs[i] == y;
      assert Le(all[i], all[|xs|]);
    }
  }

  lemma FewerBreaks(points: seq<real>, xs: seq<Interval>, x: Interval)
    requires StartsNonNegative(xs + [x]) && Breaks(points, xs + [x])
    ensures StartsNonNegative(xs) && Breaks(points, xs) && x.start >= 0.0
  {
    assert x in xs + [x];
    assert forall y | y in xs :: y in xs + [x];
  }

  /** The sweep's total and its deficit add up to the measure. */
  lemma {:induction false} SweepAccounts(points: seq<real>, xs: seq<Interval>)
    requires Sorted(xs) && StartsNonNegative(xs) && Breaks(points, xs)
    ensures Sweep(xs).total + Sweep(xs).deficit == Measure(points, xs)
  {
    if xs == [] {
      NothingCovered(points, |points| - 1);
    } else {
      var front, x := xs[..|xs| - 1], xs[|xs| - 1];
      assert xs == front + [x];
      LastStartsLast(front, x);
      FewerBreaks(points, front, x);
      SweepAccounts(points, front);
      SweepEnd(front);
      StepAccounts(points, front, x, Sweep(front));
    }
  }

  lemma EndIsABreak(points: seq<real>, xs: seq<Interval>, x: Interval, end: real)
    requires Breaks(points, xs + [x]) && EndIsSound(xs, end)
    ensures Max(x.start, end) in points && x.stop in points
  {
    assert x in xs + [x];
    if end != 0.0 {
      var y :| y in xs && y.stop == end;
      assert y in xs + [x];
    }
  }

  lemma {:induction false} NothingCovered(points: seq<real>, n: nat)
    requires n < |points|
    ensures Covered(points, [], n) == 0.0
  {
    if n > 0 {
      NothingCovered(points, n - 1);
    }
  }

  /** The k-th interval stops before it starts and yet beyond what was swept. */
  predicate Reverses(xs: seq<Interval>, k: nat)
    requires k < |xs|
  {
    xs[k].stop < xs[k].start && Sweep(xs[..k]).end < xs[k].stop
  }

  ghost predicate NothingReverses(xs: seq<Interval>) {
    forall k | 0 <= k < |xs| :: !Reverses(xs, k)
  }

  lemma {:induction false} DeficitExactly(xs: seq<Interval>)
    ensures Sweep(xs).deficit >= 0.0
    ensures Sweep(xs).deficit == 0.0 <==> NothingReverses(xs)
  {
    if xs != [] {
      var n := |xs| - 1;
      var front := xs[..n];
      DeficitExactly(front);
      forall k | 0 <= k < n ensures Reverses(front, k) <==> Reverses(xs, k) {
        assert front[..k] == xs[..k];
      }
      assert Sweep(xs).deficit == 0.0 <==> Sweep(front).deficit == 0.0 && !Reverses(xs, n);
    }
  }

  ghost predicate SameMembers(xs: seq<Interval>, ys: seq<Interval>) {
    forall x :: x in xs <==> x in ys
  }

  lemma BreaksCarryOver(points: seq<real>, xs: seq<Interval>, ys: seq<Interval>)
    requires SameMembers(xs, ys) && StartsNonNegative(xs) && Breaks(points, xs)
    ensures StartsNonNegative(ys) && Breaks(points, ys)
    ensures Measure(points, ys) == Measure(points, xs)
  {
    assert forall y | y in ys :: y in xs;
    MeasureIgnoresOrder(points, xs, ys, |points| - 1);
  }

  lemma SortKeepsMembers(xs: seq<Interval>)
    ensures Sorted(Sort(xs)) && SameMembers(xs, Sort(xs))
  {
    SortSorts(xs);
  }

  lemma SweepFallsShort(points: seq<real>, intervals: seq<Interval>)
    requires StartsNonNegative(intervals) && Breaks(points, intervals)
    ensures IntervalUnion(intervals) + Sweep(Sort(intervals)).deficit == Measure(points, intervals)
  {
    SortKeepsMembers(intervals);
    BreaksCarryOver(points, intervals, Sort(intervals));
    SweepAccounts(points, Sort(intervals));
  }

  /** The sweep never overstates the union of intervals that start at or after zero,
      and is exact if and only if no reversed interval advances it. */
  lemma SweepExactly(points: seq<real>, intervals: seq<Interval>)
    requires StartsNonNegative(intervals) && Breaks(points, intervals)
    ensures IntervalUnion(intervals) <= Measure(points, intervals)
    ensures IntervalUnion(intervals) == Measure(points, intervals)
            <==> NothingReverses(Sort(intervals))
  {
    SweepFallsShort(points, intervals);
    DeficitExactly(Sort(intervals));
  }

  predicate Proper(xs: seq<Interval>) {
    forall x | x in xs :: 0.0 <= x.start <= x.stop
  }

  lemma ProperIsExact(points: seq<real>, intervals: seq<Interval>)
    requires Proper(intervals) && Breaks(points, intervals)
    ensures IntervalUnion(intervals) == Measure(points, intervals)
  {
    SortSorts(intervals);
    SweepExactly(points, intervals);
    var sorted := Sort(intervals);
    assert forall k | 0 <= k < |sorted| :: sorted[k] in sorted;
  }

  // ---- breakpoints exist ---------------------------------------------------

  function InsertPoint(points: seq<real>, p: real): seq<real> {
    if points == [] || points[|points| - 1] <= p then points + [p]
    else InsertPoint(points[..|points| - 1], p) + [points[|points| - 1]]
  }

  lemma {:induction false} InsertPointSorts(points: seq<real>, p: real)
    requires Ascending(points)
    ensures Ascending(InsertPoint(points, p))
    ensures forall q :: q in InsertPoint(points, p) <==> q in points || q == p
  {
    if points != [] && p < points[|points| - 1] {
      var front, last := points[..|points| - 1], points[|points| - 1];
      assert points == front + [last];
      InsertPointSorts(front, p);
      var r := InsertPoint(front, p);
      assert forall i | 0 <= i < |r| :: r[i] in r;
      assert forall q | q in front :: q <= last;
    } else {
      assert forall q | q in points :: q <= p;
    }
  }

  lemma {:induction false} BreaksExist(xs: seq<Interval>) returns (points: seq<real>)
    ensures Breaks(points, xs)
  {
    if xs == [] {
      points := [0.0];
    } else {
      var front, x := xs[..|xs| - 1], xs[|xs| - 1];
      assert xs == front + [x];
      var fewer := BreaksExist(front);
      InsertPointSorts(fewer, x.start);
      InsertPointSorts(InsertPoint(fewer, x.start), x.stop);
      points := InsertPoint(InsertPoint(fewer, x.start), x.stop);
    }
  }

  /** Neither the order of the intervals nor repetition matters. */
  lemma OrderAndRepetitionAreIrrelevant(xs: seq<Interval>, ys: seq<Interval>)
    requires Proper(xs) && forall x :: x in xs <==> x in ys
    ensures IntervalUnion(xs) == IntervalUnion(ys)
  {
    var points := BreaksExist(xs);
    ProperIsExact(points, xs);
    ProperIsExact(points, ys);
    MeasureIgnoresOrder(points, xs, ys, |points| - 1);
  }

  // ---- the timing summary --------------------------------------------------

  datatype Span = Span(startMs: real, durationMs: real)

  function Clipped(elapsed: real, s: Span): Interval {
    Interval(Max(0.0, s.startMs), Min(elapsed, s.startMs + s.durationMs))
  }

  function ClippedAll(elapsed: real, spans: seq<Span>): seq<Interval> {
    seq(|spans|, i requires 0 <= i < |spans| => Clipped(elapsed, spans[i]))
  }

  lemma {:induction false} TotalBelowEnd(xs: seq<Interval>, elapsed: real)
    requires forall x | x in xs :: x.stop <= elapsed
    ensures Sweep(xs).total <= Sweep(xs).end && 0.0 <= Sweep(xs).end
    ensures Sweep(xs).end <= Max(0.0, elapsed)
  {
    if xs != [] {
      assert xs == xs[..|xs| - 1] + [xs[|xs| - 1]];
      TotalBelowEnd(xs[..|xs| - 1], elapsed);
    }
  }

  /** The guard on the time outside the provider never acts on a non-negative
      elapsed time, and always on a negative one. */
  lemma GuardIsIdleExactly(elapsed: real, spans: seq<Span>)
    ensures var provider := IntervalUnion(ClippedAll(elapsed, spans));
            Max(0.0, elapsed - provider) == elapsed - provider <==> elapsed >= 0.0
  {
    var xs := ClippedAll(elapsed, spans);
    SortSorts(xs);
    TotalBelowEnd(Sort(xs), elapsed);
    if elapsed < 0.0 {
      NothingSwept(Sort(xs), elapsed);
    }
  }

  lemma {:induction false} NothingSwept(xs: seq<Interval>, elapsed: real)
    requires elapsed < 0.0 && forall x | x in xs :: x.stop <= elapsed
    ensures Sweep(xs) == Swept(0.0, 0.0, 0.0)
  {
    if xs != [] {
      assert xs == xs[..|xs| - 1] + [xs[|xs| - 1]];
      NothingSwept(xs[..|xs| - 1], elapsed);
    }
  }

  /** Provider time is exact if and only if no time has elapsed, or no span starts
      after the elapsed time, or some span that starts in time lasts to its end. A
      late span otherwise subtracts its lateness. */
  lemma ProviderTimeExactly(elapsed: real, spans: seq<Span>, points: seq<real>)
    requires Breaks(points, ClippedAll(elapsed, spans)) && forall s | s in spans :: s.durationMs >= 0.0
    ensures IntervalUnion(ClippedAll(elapsed, spans)) == Measure(points, ClippedAll(elapsed, spans))
            <==> || elapsed <= 0.0
                 || (forall s | s in spans :: s.startMs <= elapsed)
                 || (exists s | s in spans :: s.startMs <= elapsed <= s.startMs + s.durationMs)
  {
    var xs := ClippedAll(elapsed, spans);
    SortSorts(xs);
    ClippedMembers(elapsed, spans);
    SweepExactly(points, xs);
    assert ClippedSorted(elapsed, spans, Sort(xs));
    if elapsed <= 0.0 {
      NothingReachesBeyond(elapsed, spans, Sort(xs));
    } else if !NothingReverses(Sort(xs)) {
      var k :| 0 <= k < |Sort(xs)| && Reverses(Sort(xs), k);
      ReversalMeansUncovered(elapsed, spans, Sort(xs), k);
    } else if late :| late in spans && late.startMs > elapsed {
      LateWithoutReversalIsCovered(elapsed, spans, Sort(xs), late);
    }
  }

  /** So a late span can even make provider time negative. */
  lemma LateSpanSubtracts()
    ensures IntervalUnion(ClippedAll(10.0, [Span(0.0, 5.0), Span(20.0, 1.0)])) == -5.0
  {
    var a, b := Interval(0.0, 5.0), Interval(20.0, 10.0);
    var xs := ClippedAll(10.0, [Span(0.0, 5.0), Span(20.0, 1.0)]);
    assert xs == [a, b];
    assert [a, b][..1] == [a] && [a][..0] == [];
    assert Sort([a]) == [a] && Sort([a, b]) == [a, b];
    assert Sweep([a]) == Swept(5.0, 5.0, 0.0);
  }

  ghost predicate ClippedSorted(elapsed: real, spans: seq<Span>, sorted: seq<Interval>) {
    && Sorted(sorted)
    && (forall x | x in sorted :: exists s | s in spans :: Clipped(elapsed, s) == x)
    && (forall s | s in spans :: Clipped(elapsed, s) in sorted)
    && (forall s | s in spans :: s.durationMs >= 0.0)
  }

  lemma NothingReachesBeyond(elapsed: real, spans: seq<Span>, sorted: seq<Interval>)
    requires elapsed <= 0.0 && ClippedSorted(elapsed, spans, sorted)
    ensures NothingReverses(sorted)
  {
    forall k | 0 <= k < |sorted| ensures !Reverses(sorted, k) {
      assert sorted[k] in sorted;
      SweepEnd(sorted[..k]);
    }
  }

  lemma ReversalMeansUncovered(elapsed: real, spans: seq<Span>, sorted: seq<Interval>, k: nat)
    requires elapsed > 0.0 && ClippedSorted(elapsed, spans, sorted) && k < |sorted| && Reverses(sorted, k)
    ensures exists s | s in spans :: s.startMs > elapsed
    ensures forall s | s in spans && s.startMs <= elapsed :: s.startMs + s.durationMs < elapsed
  {
    assert sorted[k] in sorted;
    var late :| late in spans && Clipped(elapsed, late) == sorted[k];
    SweepEnd(sorted[..k]);
    assert forall j | k < j < |sorted| :: sorted[k].start <= sorted[j].start;
    forall s | s in spans && s.startMs <= elapsed ensures s.startMs + s.durationMs < elapsed {
      var x := Clipped(elapsed, s);
      var j :| 0 <= j < |sorted| && sorted[j] == x;
      assert sorted[..k][j] in sorted[..k];
    }
  }

  lemma LateWithoutReversalIsCovered(elapsed: real, spans: seq<Span>, sorted: seq<Interval>, late: Span)
    requires elapsed > 0.0 && ClippedSorted(elapsed, spans, sorted)
    requires late in spans && late.startMs > elapsed
    requires NothingReverses(sorted)
    ensures exists s | s in spans :: s.startMs <= elapsed <= s.startMs + s.durationMs
  {
    var k := FirstLate(sorted, elapsed, Clipped(elapsed, late));
    assert !Reverses(sorted, k) && sorted[k] in sorted;
    var first :| first in spans && Clipped(elapsed, first) == sorted[k];
    SweepEnd(sorted[..k]);
    var y :| y in sorted[..k] && y.stop == Sweep(sorted[..k]).end;
    var j :| 0 <= j < k && sorted[j] == y;
    assert sorted[j] in sorted;
    var t :| t in spans && Clipped(elapsed, t) == sorted[j];
  }

  lemma ClippedMembers(elapsed: real, spans: seq<Span>)
    ensures forall x | x in ClippedAll(elapsed, spans) :: exists s | s in spans :: Clipped(elapsed, s) == x
    ensures forall s | s in spans :: Clipped(elapsed, s) in ClippedAll(elapsed, spans)
    ensures StartsNonNegative(ClippedAll(elapsed, spans))
  {
    var xs := ClippedAll(elapsed, spans);
    forall x | x in xs ensures exists s | s in spans :: Clipped(elapsed, s) == x {
      var i :| 0 <= i < |xs| && xs[i] == x;
      assert spans[i] in spans;
    }
    forall s | s in spans ensures Clipped(elapsed, s) in xs {
      var i :| 0 <= i < |spans| && spans[i] == s;
      assert xs[i] == Clipped(elapsed, s);
    }
  }

  /** The first interval that starts after the elapsed time. */
  lemma FirstLate(xs: seq<Interval>, elapsed: real, x: Interval) returns (k: nat)
    requires x in xs && x.start > elapsed
    ensures k < |xs| && xs[k].start > elapsed
    ensures forall j | 0 <= j < k :: xs[j].start <= elapsed
  {
    k := 0;
    while xs[k].start <= elapsed
      invariant k < |xs| && forall j | 0 <= j < k :: xs[j].start <= elapsed
      decreases |xs| - k
    {
      if k + 1 == |xs| {
        assert false;
      }
      k := k + 1;
    }
  }

  // ---- provider time -------------------------------------------------------

  /** The cell lies within the elapsed time and within some span. */
  predicate CellSpanned(points: seq<real>, elapsed: real, spans: seq<Span>, i: nat)
    requires i + 1 < |points|
  {
    0.0 <= points[i] && points[i + 1] <= elapsed &&
    exists s | s in spans :: s.startMs <= points[i] && points[i + 1] <= s.startMs + s.durationMs
  }

  /** The total length of such cells among the first n + 1 points. */
  function SpannedTime(points: seq<real>, elapsed: real, spans: seq<Span>, n: nat): real
    requires n < |points|
  {
    if n == 0 then 0.0
    else SpannedTime(points, elapsed, spans, n - 1)
         + if CellSpanned(points, elapsed, spans, n - 1) then points[n] - points[n - 1] else 0.0
  }

  lemma {:induction false} ClippingKeepsSpannedTime(points: seq<real>, elapsed: real, spans: seq<Span>, n: nat)
    requires n < |points|
    ensures Covered(points, ClippedAll(elapsed, spans), n) == SpannedTime(points, elapsed, spans, n)
  {
    if n > 0 {
      ClippingKeepsSpannedTime(points, elapsed, spans, n - 1);
      ClippedMembers(elapsed, spans);
      if CellCovered(points, ClippedAll(elapsed, spans), n - 1) {
        var x :| x in ClippedAll(elapsed, spans) && x.start <= points[n - 1] && points[n] <= x.stop;
        var s :| s in spans && Clipped(elapsed, s) == x;
      }
      if CellSpanned(points, elapsed, spans, n - 1) {
        var s :| s in spans && s.startMs <= points[n - 1] && points[n] <= s.startMs + s.durationMs;
        assert Clipped(elapsed, s) in ClippedAll(elapsed, spans);
      }
    }
  }

  /** Without late spans, provider time is the time within the elapsed time that some span
      covers. */
  lemma ProviderTimeIsSpanned(elapsed: real, spans: seq<Span>, points: seq<real>)
    requires Breaks(points, ClippedAll(elapsed, spans)) && forall s | s in spans :: s.durationMs >= 0.0
    requires forall s | s in spans :: s.startMs <= elapsed
    ensures IntervalUnion(ClippedAll(elapsed, spans)) == SpannedTime(points, elapsed, spans, |points| - 1)
  {
    ProviderTimeExactly(elapsed, spans, points);
    ClippingKeepsSpannedTime(points, elapsed, spans, |points| - 1);
  }
}
