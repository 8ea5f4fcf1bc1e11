/** What the sweep adds up, interval by interval: each contributes what it adds beyond
    the furthest stop before it. This holds of reversed intervals and negative starts too. */
module IntervalOutcomes {
  import opened Basics
  import opened Intervals

  /** The earlier start, or the same and a stop no later. */
  predicate InOrder(xs: seq<Interval>) {
    forall i, j | 0 <= i < j < |xs| ::
      xs[i].start < xs[j].start || (xs[i].start == xs[j].start && xs[i].stop <= xs[j].stop)
  }

  /** The furthest stop among the first k intervals, or zero. */
  predicate Furthest(xs: seq<Interval>, k: nat, end: real)
    requires k <= |xs|
  {
    && end >= 0.0 && (forall i | 0 <= i < k :: xs[i].stop <= end)
    && (end == 0.0 || exists i | 0 <= i < k :: xs[i].stop == end)
  }

  /** What x adds to intervals that reach no further than `end`: nothing, or the way from its
      start or from there, whichever is later, to its stop. For a stop before the start that
      is negative. */
  function Gain(x: Interval, end: real): real {
    if x.stop <= end then 0.0
    else if x.start <= end then x.stop - end
    else x.stop - x.start
  }

  ghost predicate Adds(xs: seq<Interval>, k: nat, g: real)
    requires k < |xs|
  {
    exists end :: Furthest(xs, k, end) && g == Gain(xs[k], end)
  }

  lemma FurthestIsSwept(xs: seq<Interval>, k: nat, end: real)
    requires k <= |xs|
    ensures Furthest(xs, k, end) <==> end == Sweep(xs[..k]).end
  {
    SweepEnd(xs[..k]);
    var swept := Sweep(xs[..k]).end;
    if swept != 0.0 {
      var y :| y in xs[..k] && y.stop == swept;
      var i :| 0 <= i < k && xs[..k][i] == y;
      assert xs[i].stop == swept;
    }
    forall i | 0 <= i < k ensures xs[i].stop <= swept {
      assert xs[..k][i] in xs[..k];
    }
  }

  lemma {:induction false} SweepAdds(xs: seq<Interval>, gains: seq<real>, n: nat)
    requires |gains| == |xs| && n <= |xs| && forall k | 0 <= k < |xs| :: Adds(xs, k, gains[k])
    ensures Sweep(xs[..n]).total == Sum(gains[..n])
  {
    if n > 0 {
      var k := n - 1;
      SweepAdds(xs, gains, k);
      assert xs[..n][..k] == xs[..k] && gains[..n][..k] == gains[..k];
      assert Adds(xs, k, gains[k]);
      var end :| Furthest(xs, k, end) && gains[k] == Gain(xs[k], end);
      FurthestIsSwept(xs, k, end);
    }
  }

  lemma SweepAddsUp(xs: seq<Interval>, gains: seq<real>)
    requires |gains| == |xs| && forall k | 0 <= k < |xs| :: Adds(xs, k, gains[k])
    ensures Sweep(xs).total == Sum(gains)
  {
    SweepAdds(xs, gains, |xs|);
    assert xs[..|xs|] == xs && gains[..|xs|] == gains;
  }

  // ---- the order of the sweep is forced ------------------------------------

  lemma {:induction false} InsertPermutes(xs: seq<Interval>, x: Interval)
    ensures multiset(Insert(xs, x)) == multiset(xs) + multiset{x}
  {
    if xs != [] && !Le(xs[|xs| - 1], x) {
      var front, last := SplitLast(xs);
      assert xs[..|xs| - 1] == front;
      InsertPermutes(front, x);
    }
  }

  lemma {:induction false} SortPermutes(xs: seq<Interval>)
    ensures multiset(Sort(xs)) == multiset(xs)
  {
    if xs != [] {
      var front, last := SplitLast(xs);
      assert xs[..|xs| - 1] == front;
      SortPermutes(front);
      InsertPermutes(Sort(front), last);
    }
  }

  lemma LastInOrder(xs: seq<Interval>, x: Interval)
    requires InOrder(xs) && x in xs
    ensures Le(x, xs[|xs| - 1])
  {
    var i :| 0 <= i < |xs| && xs[i] == x;
  }

  lemma SameLast(a: seq<Interval>, b: seq<Interval>)
    requires InOrder(a) && InOrder(b) && multiset(a) == multiset(b) && a != []
    ensures b != [] && a[|a| - 1] == b[|b| - 1]
  {
    assert |a| == |multiset(a)| && |b| == |multiset(b)|;
    assert a[|a| - 1] in multiset(b) && b[|b| - 1] in multiset(a);
    LastInOrder(a, b[|b| - 1]);
    LastInOrder(b, a[|a| - 1]);
  }

  lemma FrontInOrder(xs: seq<Interval>, front: seq<Interval>, last: Interval)
    requires InOrder(xs) && xs == front + [last]
    ensures InOrder(front)
  {
    assert forall i | 0 <= i < |front| :: xs[i] == front[i];
  }

  lemma FrontsAlike(a: seq<Interval>, b: seq<Interval>, x: Interval)
    requires multiset(a + [x]) == multiset(b + [x])
    ensures multiset(a) == multiset(b)
  {
    assert multiset(a) == multiset(a + [x]) - multiset{x};
    assert multiset(b) == multiset(b + [x]) - multiset{x};
  }

  lemma {:induction false} OneOrder(a: seq<Interval>, b: seq<Interval>)
    requires InOrder(a) && InOrder(b) && multiset(a) == multiset(b)
    ensures a == b
    decreases |a|
  {
    if a == [] {
      assert |b| == |multiset(b)|;
    } else {
      SameLast(a, b);
      var front, last := SplitLast(a);
      var front', last' := SplitLast(b);
      FrontInOrder(a, front, last);
      FrontInOrder(b, front', last');
      FrontsAlike(front, front', last);
      OneOrder(front, front');
    }
  }

  lemma SortIsForced(intervals: seq<Interval>, ordered: seq<Interval>)
    requires multiset(ordered) == multiset(intervals) && InOrder(ordered)
    ensures ordered == Sort(intervals)
  {
    SortSorts(intervals);
    SortPermutes(intervals);
    var sorted := Sort(intervals);
    assert forall i, j | 0 <= i < j < |sorted| :: Le(sorted[i], sorted[j]);
    OneOrder(ordered, sorted);
  }

  /** The union of any intervals is the sum of what each adds to those before it. */
  lemma UnionExactly(intervals: seq<Interval>, ordered: seq<Interval>, gains: seq<real>)
    requires multiset(ordered) == multiset(intervals) && InOrder(ordered)
    requires |gains| == |ordered| && forall k | 0 <= k < |ordered| :: Adds(ordered, k, gains[k])
    ensures IntervalUnion(intervals) == Sum(gains)
  {
    SortIsForced(intervals, ordered);
    SweepAddsUp(ordered, gains);
  }

  /** From a span's start, if not before zero, to its end, if not after the elapsed time. */
  function Within(elapsed: real, s: Span): Interval {
    var end := s.startMs + s.durationMs;
    Interval(if s.startMs <= 0.0 then 0.0 else s.startMs, if end <= elapsed then end else elapsed)
  }

  /** Provider time, whatever the spans, is the sum of what each adds within the elapsed time. */
  lemma ProviderTimeAddsUp(elapsed: real, spans: seq<Span>, ordered: seq<Interval>, gains: seq<real>)
    requires multiset(ordered) == multiset(seq(|spans|, i requires 0 <= i < |spans| => Within(elapsed, spans[i])))
    requires InOrder(ordered)
    requires |gains| == |ordered| && forall k | 0 <= k < |ordered| :: Adds(ordered, k, gains[k])
    ensures IntervalUnion(ClippedAll(elapsed, spans)) == Sum(gains)
  {
    assert ClippedAll(elapsed, spans) == seq(|spans|, i requires 0 <= i < |spans| => Within(elapsed, spans[i]));
    UnionExactly(ClippedAll(elapsed, spans), ordered, gains);
  }
}
