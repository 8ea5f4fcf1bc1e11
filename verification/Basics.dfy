/** What several modules need of sequences and reals. */
module Basics {

  predicate Distinct<T(==)>(xs: seq<T>) {
    forall i, j | 0 <= i < j < |xs| :: xs[i] != xs[j]
  }

  ghost predicate Injective<S(!new), T(!new)>(f: S -> T) {
    forall x, y :: f(x) == f(y) ==> x == y
  }

  predicate Ascending(xs: seq<real>) {
    forall i, j | 0 <= i < j < |xs| :: xs[i] <= xs[j]
  }

  function Max(x: real, y: real): real { if x < y then y else x }

  function Min(x: real, y: real): real { if x < y then x else y }

  lemma ProductNonNegative(x: real, y: real)
    requires x >= 0.0 && y >= 0.0
    ensures x * y >= 0.0
  {
  }

  function Sum(xs: seq<real>): real {
    if xs == [] then 0.0 else Sum(xs[..|xs| - 1]) + xs[|xs| - 1]
  }

  /** Sums add up, and one number is its own sum. */
  lemma {:induction false} SumAdds(xs: seq<real>, ys: seq<real>)
    ensures Sum(xs + ys) == Sum(xs) + Sum(ys)
    ensures |xs| == 1 ==> Sum(xs) == xs[0]
  {
    if ys == [] {
      assert xs + ys == xs;
    } else {
      SumAdds(xs, ys[..|ys| - 1]);
      assert (xs + ys)[..|xs + ys| - 1] == xs + ys[..|ys| - 1];
    }
  }

  lemma SplitLast<T>(xs: seq<T>) returns (front: seq<T>, last: T)
    requires xs != []
    ensures xs == front + [last] && |front| == |xs| - 1
  {
    front, last := xs[..|xs| - 1], xs[|xs| - 1];
  }

  // ---- picking from a list -------------------------------------------------

  /** The flagged positions among the first n. */
  function Flagged(flags: seq<bool>, n: nat): set<int>
    requires n <= |flags|
  {
    set j | 0 <= j < n && flags[j]
  }

  /** The flagged items and no others, in order. */
  predicate Picks<T(==)>(picked: seq<T>, items: seq<T>, flags: seq<bool>) {
    && |items| == |flags| && |picked| == |Flagged(flags, |flags|)|
    && forall i | 0 <= i < |flags| && flags[i] ::
         |Flagged(flags, i)| < |picked| && picked[|Flagged(flags, i)|] == items[i]
  }

  lemma FlaggedNext(flags: seq<bool>, n: nat)
    requires n < |flags|
    ensures |Flagged(flags, n + 1)| == |Flagged(flags, n)| + if flags[n] then 1 else 0
  {
    assert Flagged(flags, n + 1) == Flagged(flags, n) + if flags[n] then {n} else {};
  }

  lemma {:induction false} FlaggedGrows(flags: seq<bool>, m: nat, n: nat)
    requires m <= n <= |flags|
    ensures |Flagged(flags, m)| <= |Flagged(flags, n)|
  {
    if m < n {
      FlaggedGrows(flags, m, n - 1);
      FlaggedNext(flags, n - 1);
    }
  }

  /** The flagged position with k flagged ones before it. */
  lemma {:induction false} FlaggedAt(flags: seq<bool>, n: nat, k: nat) returns (i: nat)
    requires n <= |flags| && k < |Flagged(flags, n)|
    ensures i < n && flags[i] && |Flagged(flags, i)| == k
  {
    assert Flagged(flags, 0) == {};
    FlaggedNext(flags, n - 1);
    if k < |Flagged(flags, n - 1)| {
      i := FlaggedAt(flags, n - 1, k);
    } else {
      i := n - 1;
    }
  }

  lemma FlaggedFront(flags: seq<bool>, flag: bool, n: nat)
    requires n <= |flags|
    ensures Flagged(flags + [flag], n) == Flagged(flags, n)
  {
  }

  /** One more item, picked if it is flagged. */
  lemma PicksSnoc<T>(picked: seq<T>, items: seq<T>, flags: seq<bool>, item: T, flag: bool)
    requires Picks(picked, items, flags)
    ensures Picks(picked + if flag then [item] else [], items + [item], flags + [flag])
  {
    var n, more := |flags|, flags + [flag];
    var after := picked + if flag then [item] else [];
    FlaggedNext(more, n);
    FlaggedFront(flags, flag, n);
    forall i | 0 <= i < |more| && more[i]
      ensures |Flagged(more, i)| < |after| && after[|Flagged(more, i)|] == (items + [item])[i]
    {
      FlaggedFront(flags, flag, i);
    }
  }

  lemma PicksFront<T>(picked: seq<T>, items: seq<T>, flags: seq<bool>) returns (front: seq<T>)
    requires Picks(picked, items, flags) && flags != []
    ensures var n := |flags| - 1;
            Picks(front, items[..n], flags[..n]) && picked == front + if flags[n] then [items[n]] else []
  {
    var n := |flags| - 1;
    var fewer := flags[..n];
    assert flags == fewer + [flags[n]];
    FlaggedNext(flags, n);
    FlaggedFront(fewer, flags[n], n);
    front := if flags[n] then picked[..|picked| - 1] else picked;
    forall i | 0 <= i < n && fewer[i]
      ensures |Flagged(fewer, i)| < |front| && front[|Flagged(fewer, i)|] == items[..n][i]
    {
      FlaggedFront(fewer, flags[n], i);
      FlaggedNext(flags, i);
      FlaggedGrows(flags, i + 1, n);
    }
  }

  /** There is one way to pick. */
  lemma {:induction false} PicksIsUnique<T>(a: seq<T>, b: seq<T>, items: seq<T>, flags: seq<bool>)
    requires Picks(a, items, flags) && Picks(b, items, flags)
    ensures a == b
    decreases |flags|
  {
    if flags == [] {
      assert Flagged(flags, 0) == {};
    } else {
      var c := PicksFront(a, items, flags);
      var d := PicksFront(b, items, flags);
      PicksIsUnique(c, d, items[..|flags| - 1], flags[..|flags| - 1]);
    }
  }

  lemma PicksNothing<T>()
    ensures Picks<T>([], [], [])
  {
    assert Flagged([], 0) == {};
  }
}
