/** Python's tuple order. A sort key is written as one sequence of numbers:
    strings contribute their code points and a terminator below every code point,
    so that comparing sequences agrees with comparing the nested tuples. */
module Ordering {

  predicate LexLe(a: seq<real>, b: seq<real>) {
    a == [] || (b != [] && (a[0] < b[0] || (a[0] == b[0] && LexLe(a[1..], b[1..]))))
  }

  lemma {:induction a, b} LexTotal(a: seq<real>, b: seq<real>)
    ensures LexLe(a, b) || LexLe(b, a)
  {
  }

  lemma LexReflexive(a: seq<real>)
    ensures LexLe(a, a)
  {
    LexTotal(a, a);
  }

  lemma {:induction false} LexTransitive(a: seq<real>, b: seq<real>, c: seq<real>)
    requires LexLe(a, b) && LexLe(b, c)
    ensures LexLe(a, c)
  {
    if a != [] && a[0] == b[0] == c[0] {
      LexTransitive(a[1..], b[1..], c[1..]);
    }
  }

  lemma {:induction false} LexAntisymmetric(a: seq<real>, b: seq<real>)
    requires LexLe(a, b) && LexLe(b, a)
    ensures a == b
  {
    if a != [] {
      LexAntisymmetric(a[1..], b[1..]);
      assert a == [a[0]] + a[1..] && b == [b[0]] + b[1..];
    }
  }

  /** The order of longer keys refines the order of their heads. */
  lemma {:induction false} LexPrefix(a: seq<real>, b: seq<real>, n: nat)
    requires LexLe(a, b) && n <= |a| && n <= |b|
    ensures LexLe(a[..n], b[..n])
  {
    if n > 0 && a[0] == b[0] {
      LexPrefix(a[1..], b[1..], n - 1);
      assert a[..n][1..] == a[1..][..n - 1] && b[..n][1..] == b[1..][..n - 1];
    }
  }

  /** Componentwise no worse is lexicographically no worse. */
  lemma {:induction false} LexPointwise(a: seq<real>, b: seq<real>)
    requires |a| == |b| && forall i :: 0 <= i < |a| ==> a[i] <= b[i]
    ensures LexLe(a, b)
  {
    if a != [] {
      LexPointwise(a[1..], b[1..]);
    }
  }

  const STRING_END: real := -1.0
  const TUPLE_END: real := -2.0

  function CodePoints(s: string): seq<real> {
    seq(|s|, i requires 0 <= i < |s| => s[i] as int as real) + [STRING_END]
  }

  predicate StringLe(s: string, t: string) {
    LexLe(CodePoints(s), CodePoints(t))
  }

  lemma StringLeAntisymmetric(s: string, t: string)
    requires StringLe(s, t) && StringLe(t, s)
    ensures s == t
  {
    LexAntisymmetric(CodePoints(s), CodePoints(t));
    assert |s| == |CodePoints(s)| - 1 && |t| == |CodePoints(t)| - 1;
    forall i | 0 <= i < |s| ensures s[i] == t[i] {
      assert CodePoints(s)[i] == s[i] as int as real;
      assert CodePoints(t)[i] == t[i] as int as real;
      assert (s[i] as int as real).Floor == (t[i] as int as real).Floor;
    }
  }

  predicate IsLeast(names: set<string>, least: string) {
    least in names && forall t | t in names :: StringLe(least, t)
  }

  lemma LeastExtends(rest: set<string>, r: string, s: string)
    requires IsLeast(rest, r) && StringLe(s, r)
    ensures IsLeast(rest + {s}, s)
  {
    LexReflexive(CodePoints(s));
    forall t | t in rest ensures StringLe(s, t) {
      assert StringLe(r, t);
      LexTransitive(CodePoints(s), CodePoints(r), CodePoints(t));
    }
  }

  lemma {:induction false} LeastStringExists(names: set<string>)
    requires names != {}
    ensures exists least :: IsLeast(names, least)
  {
    var s :| s in names;
    var rest := names - {s};
    assert names == rest + {s};
    if rest == {} {
      LexReflexive(CodePoints(s));
      assert IsLeast(names, s);
    } else {
      LeastStringExists(rest);
      var r :| IsLeast(rest, r);
      LexTotal(CodePoints(s), CodePoints(r));
      if StringLe(s, r) {
        LeastExtends(rest, r, s);
      } else {
        assert IsLeast(names, r);
      }
    }
  }

  lemma LeastStringUnique()
    ensures forall s, t :: StringLe(s, t) && StringLe(t, s) ==> s == t
  {
    forall s, t | StringLe(s, t) && StringLe(t, s) ensures s == t {
      StringLeAntisymmetric(s, t);
    }
  }

  /** The names in ascending order. */
  function SortedNames(names: set<string>): seq<string> {
    if names == {} then [] else
      LeastStringExists(names);
      LeastStringUnique();
      var least :| IsLeast(names, least);
      [least] + SortedNames(names - {least})
  }

  lemma {:induction false} SortedNamesAreNames(names: set<string>)
    ensures forall n :: n in SortedNames(names) <==> n in names
    ensures forall i, j | 0 <= i < j < |SortedNames(names)| :: SortedNames(names)[i] != SortedNames(names)[j]
  {
    if names != {} {
      var sorted := SortedNames(names);
      var least := sorted[0];
      LeastStringExists(names);
      LeastStringUnique();
      assert IsLeast(names, least);
      assert sorted[1..] == SortedNames(names - {least});
      SortedNamesAreNames(names - {least});
    }
  }

  lemma {:induction false} SortedNamesAscend(names: set<string>)
    ensures forall i, j | 0 <= i < j < |SortedNames(names)| :: StringLe(SortedNames(names)[i], SortedNames(names)[j])
  {
    if names != {} {
      var sorted := SortedNames(names);
      var least := sorted[0];
      LeastStringExists(names);
      LeastStringUnique();
      assert IsLeast(names, least);
      assert sorted[1..] == SortedNames(names - {least});
      SortedNamesAscend(names - {least});
      SortedNamesAreNames(names - {least});
      forall j | 0 < j < |sorted| ensures StringLe(least, sorted[j]) {
        assert sorted[j] == sorted[1..][j - 1];
        assert sorted[j] in sorted[1..];
      }
    }
  }

  // ---- what the flattening means -------------------------------------------

  /** At position k, the first where they differ, a has the smaller number. */
  predicate SmallerAt(a: seq<real>, b: seq<real>, k: nat) {
    k < |a| && k < |b| && a[..k] == b[..k] && a[k] < b[k]
  }

  predicate NumbersBefore(a: seq<real>, b: seq<real>) {
    exists k | 0 <= k < |a| :: SmallerAt(a, b, k)
  }

  /** At position k, the first where they differ, s ends or has the smaller character. */
  predicate EarlierAt(s: string, t: string, k: nat) {
    k <= |s| && k < |t| && s[..k] == t[..k] && (k == |s| || s[k] < t[k])
  }

  predicate TextBefore(s: string, t: string) {
    exists k | 0 <= k <= |s| :: EarlierAt(s, t, k)
  }

  lemma NumbersBeforeCons(a: seq<real>, b: seq<real>)
    requires a != [] && b != []
    ensures NumbersBefore(a, b) <==> a[0] < b[0] || (a[0] == b[0] && NumbersBefore(a[1..], b[1..]))
  {
    if k :| 0 <= k < |a| && SmallerAt(a, b, k) {
      if k > 0 {
        assert a[0] == a[..k][0] == b[..k][0] == b[0];
        assert a[1..][..k - 1] == a[..k][1..] && b[1..][..k - 1] == b[..k][1..];
        assert SmallerAt(a[1..], b[1..], k - 1);
      }
    }
    if a[0] < b[0] {
      assert SmallerAt(a, b, 0);
    } else if a[0] == b[0] && NumbersBefore(a[1..], b[1..]) {
      var k :| 0 <= k < |a[1..]| && SmallerAt(a[1..], b[1..], k);
      assert a[..k + 1] == [a[0]] + a[1..][..k] && b[..k + 1] == [b[0]] + b[1..][..k];
      assert SmallerAt(a, b, k + 1);
    }
  }

  lemma TextBeforeCons(s: string, t: string)
    requires s != "" && t != ""
    ensures TextBefore(s, t) <==> s[0] < t[0] || (s[0] == t[0] && TextBefore(s[1..], t[1..]))
  {
    if k :| 0 <= k <= |s| && EarlierAt(s, t, k) {
      if k > 0 {
        assert s[0] == s[..k][0] == t[..k][0] == t[0];
        assert s[1..][..k - 1] == s[..k][1..] && t[1..][..k - 1] == t[..k][1..];
        assert EarlierAt(s[1..], t[1..], k - 1);
      }
    }
    if s[0] < t[0] {
      assert EarlierAt(s, t, 0);
    } else if s[0] == t[0] && TextBefore(s[1..], t[1..]) {
      var k :| 0 <= k <= |s[1..]| && EarlierAt(s[1..], t[1..], k);
      assert s[..k + 1] == [s[0]] + s[1..][..k] && t[..k + 1] == [t[0]] + t[1..][..k];
      assert EarlierAt(s, t, k + 1);
    }
  }

  lemma LexCons(a: seq<real>, b: seq<real>, x: seq<real>, y: seq<real>)
    requires a != [] && b != []
    ensures LexLe(a + x, b + y) <==> a[0] < b[0] || (a[0] == b[0] && LexLe(a[1..] + x, b[1..] + y))
  {
    assert (a + x)[1..] == a[1..] + x && (b + y)[1..] == b[1..] + y;
  }

  /** Numbers of equal length are compared at the first difference; what follows
      them counts only if there is none. */
  lemma {:induction false} LexNumbers(a: seq<real>, b: seq<real>, x: seq<real>, y: seq<real>)
    requires |a| == |b|
    ensures LexLe(a + x, b + y) <==> NumbersBefore(a, b) || (a == b && LexLe(x, y))
  {
    if a == [] {
      assert a + x == x && b + y == y;
    } else {
      LexCons(a, b, x, y);
      NumbersBeforeCons(a, b);
      LexNumbers(a[1..], b[1..], x, y);
      assert a == [a[0]] + a[1..] && b == [b[0]] + b[1..];
    }
  }

  lemma CodePointsCons(s: string)
    ensures s == "" ==> CodePoints(s) == [STRING_END]
    ensures s != "" ==> CodePoints(s)[0] == s[0] as int as real && CodePoints(s)[1..] == CodePoints(s[1..])
  {
  }

  lemma CharsOrdered(c: char, d: char)
    ensures c as int as real < d as int as real <==> c < d
    ensures c as int as real == d as int as real <==> c == d
  {
    assert (c as int as real).Floor == c as int && (d as int as real).Floor == d as int;
  }

  /** Likewise strings, of any length: a terminator below every code point ends them. */
  lemma {:induction false} LexText(s: string, t: string, x: seq<real>, y: seq<real>)
    ensures LexLe(CodePoints(s) + x, CodePoints(t) + y) <==> TextBefore(s, t) || (s == t && LexLe(x, y))
  {
    CodePointsCons(s);
    CodePointsCons(t);
    LexCons(CodePoints(s), CodePoints(t), x, y);
    if s == "" && t == "" {
      assert CodePoints(s)[1..] + x == x && CodePoints(t)[1..] + y == y;
    } else if s == "" {
      assert EarlierAt(s, t, 0);
    } else if t != "" {
      CharsOrdered(s[0], t[0]);
      TextBeforeCons(s, t);
      LexText(s[1..], t[1..], x, y);
      assert s == [s[0]] + s[1..] && t == [t[0]] + t[1..];
    }
  }

  lemma StringLeExactly(s: string, t: string)
    ensures StringLe(s, t) <==> s == t || TextBefore(s, t)
  {
    LexText(s, t, [], []);
    assert CodePoints(s) + [] == CodePoints(s) && CodePoints(t) + [] == CodePoints(t);
  }

  /** The sorted names: each once, every one before the next by first difference. */
  lemma SortedNamesExactly(names: set<string>)
    ensures forall n :: n in SortedNames(names) <==> n in names
    ensures forall i, j | 0 <= i < j < |SortedNames(names)| :: TextBefore(SortedNames(names)[i], SortedNames(names)[j])
  {
    var sorted := SortedNames(names);
    SortedNamesAreNames(names);
    SortedNamesAscend(names);
    forall i, j | 0 <= i < j < |sorted| ensures TextBefore(sorted[i], sorted[j]) {
      StringLeExactly(sorted[i], sorted[j]);
    }
  }
}
