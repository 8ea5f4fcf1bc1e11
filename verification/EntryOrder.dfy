/** Archive entries, the key they are sorted by, and the sort. */
module EntryOrder {
  import opened Ordering
  import opened Labels

  datatype Entry = Entry(fact: Label, queueKey: seq<real>, pathIdentity: string)

  function Rank(required: set<string>, l: Label): seq<real> {
    [ |required - l.coveredFacets| as real,
      l.distance,
      l.depth as real,
      -(|l.evidenceRoles| as real) ]
  }

  function TypeTuple(counts: map<string, int>, types: seq<string>): seq<real> {
    if types == [] then [TUPLE_END]
    else if types[0] !in counts then TypeTuple(counts, types[1..])
    else CodePoints(types[0]) + [counts[types[0]] as real] + TypeTuple(counts, types[1..])
  }

  function SortKey(required: set<string>, e: Entry): seq<real> {
    Rank(required, e.fact)
    + TypeTuple(e.fact.edgeTypeCounts, SortedNames(e.fact.edgeTypeCounts.Keys))
    + e.queueKey
    + CodePoints(e.pathIdentity)
  }

  predicate KeyLe(required: set<string>, a: Entry, b: Entry) {
    LexLe(SortKey(required, a), SortKey(required, b))
  }

  predicate SortedEntries(required: set<string>, es: seq<Entry>) {
    forall i, j | 0 <= i < j < |es| :: KeyLe(required, es[i], es[j])
  }

  /** Stable insertion: behind every entry whose key is no larger. */
  function InsertByKey(required: set<string>, es: seq<Entry>, e: Entry): (r: seq<Entry>)
    ensures |r| == |es| + 1
  {
    if es == [] || KeyLe(required, es[|es| - 1], e) then es + [e]
    else InsertByKey(required, es[..|es| - 1], e) + [es[|es| - 1]]
  }

  /** `entries.sort(key=...)`. */
  function SortEntries(required: set<string>, es: seq<Entry>): (r: seq<Entry>)
    ensures |r| == |es|
  {
    if es == [] then [] else
      InsertByKey(required, SortEntries(required, es[..|es| - 1]), es[|es| - 1])
  }

  // ---- sorting -------------------------------------------------------------

  lemma KeyLeTransitive(required: set<string>, a: Entry, b: Entry, c: Entry)
    requires KeyLe(required, a, b) && KeyLe(required, b, c)
    ensures KeyLe(required, a, c)
  {
    LexTransitive(SortKey(required, a), SortKey(required, b), SortKey(required, c));
  }

  lemma KeyLeTotal(required: set<string>, a: Entry, b: Entry)
    ensures KeyLe(required, a, b) || KeyLe(required, b, a)
  {
    LexTotal(SortKey(required, a), SortKey(required, b));
  }

  /** Every entry up to the bound stays up to the bound in front of it. */
  lemma AppendKeepsOrder(required: set<string>, es: seq<Entry>, e: Entry)
    requires SortedEntries(required, es) && forall x | x in es :: KeyLe(required, x, e)
    ensures SortedEntries(required, es + [e])
  {
    assert forall i | 0 <= i < |es| :: es[i] in es;
  }

  lemma LastBounds(required: set<string>, es: seq<Entry>, e: Entry)
    requires es != [] && SortedEntries(required, es) && KeyLe(required, es[|es| - 1], e)
    ensures forall x | x in es :: KeyLe(required, x, e)
  {
    forall x | x in es ensures KeyLe(required, x, e) {
      var i :| 0 <= i < |es| && es[i] == x;
      if i < |es| - 1 {
        assert KeyLe(required, es[i], es[|es| - 1]);
        KeyLeTransitive(required, x, es[|es| - 1], e);
      }
    }
  }

  lemma LastBoundsInsertion(required: set<string>, es: seq<Entry>, e: Entry, r: seq<Entry>)
    requires es != [] && SortedEntries(required, es) && !KeyLe(required, es[|es| - 1], e)
    requires multiset(r) == multiset(es[..|es| - 1]) + multiset{e}
    ensures forall x | x in r :: KeyLe(required, x, es[|es| - 1])
  {
    KeyLeTotal(required, e, es[|es| - 1]);
    forall x | x in r ensures KeyLe(required, x, es[|es| - 1]) {
      assert x in multiset(r);
      if x != e {
        assert x in multiset(es[..|es| - 1]);
        var i :| 0 <= i < |es| - 1 && es[..|es| - 1][i] == x;
        assert KeyLe(required, es[i], es[|es| - 1]);
      }
    }
  }

  lemma {:induction false} InsertSorts(required: set<string>, es: seq<Entry>, e: Entry)
    requires SortedEntries(required, es)
    ensures SortedEntries(required, InsertByKey(required, es, e))
    ensures multiset(InsertByKey(required, es, e)) == multiset(es) + multiset{e}
  {
    if es == [] {
    } else if KeyLe(required, es[|es| - 1], e) {
      LastBounds(required, es, e);
      AppendKeepsOrder(required, es, e);
    } else {
      var front := es[..|es| - 1];
      assert es == front + [es[|es| - 1]];
      InsertSorts(required, front, e);
      LastBoundsInsertion(required, es, e, InsertByKey(required, front, e));
      AppendKeepsOrder(required, InsertByKey(required, front, e), es[|es| - 1]);
    }
  }

  lemma {:induction false} SortPermutes(required: set<string>, es: seq<Entry>)
    ensures SortedEntries(required, SortEntries(required, es))
    ensures multiset(SortEntries(required, es)) == multiset(es)
  {
    if es != [] {
      var front, last := es[..|es| - 1], es[|es| - 1];
      assert es == front + [last];
      SortPermutes(required, front);
      InsertSorts(required, SortEntries(required, front), last);
      assert multiset(es) == multiset(front) + multiset{last};
    }
  }

  lemma SameMembers(a: seq<Entry>, b: seq<Entry>)
    requires multiset(a) == multiset(b)
    ensures forall e :: e in a <==> e in b
  {
    forall e ensures e in a <==> e in b {
      assert e in a <==> e in multiset(a);
      assert e in b <==> e in multiset(b);
    }
  }

  predicate DistinctIdentities(es: seq<Entry>) {
    forall i, j | 0 <= i < j < |es| :: es[i].pathIdentity != es[j].pathIdentity
  }

  lemma OccursTwice(r: seq<Entry>, i: nat, j: nat)
    requires i < j < |r| && r[i] == r[j]
    ensures multiset(r)[r[i]] >= 2
  {
    assert r == r[..j] + r[j..];
    assert r[i] in r[..j] && r[j] in r[j..];
  }

  lemma OccursOnce(es: seq<Entry>, k: nat)
    requires k < |es| && DistinctIdentities(es)
    ensures multiset(es)[es[k]] == 1
  {
    assert es == es[..k] + [es[k]] + es[k + 1..];
    assert es[k] !in es[..k] && es[k] !in es[k + 1..];
  }

  /** Distinct identities survive reordering. */
  lemma PermutationKeepsDistinct(es: seq<Entry>, r: seq<Entry>)
    requires DistinctIdentities(es) && multiset(r) == multiset(es)
    ensures DistinctIdentities(r)
  {
    forall i, j | 0 <= i < j < |r| ensures r[i].pathIdentity != r[j].pathIdentity {
      assert r[i] in multiset(r) && r[j] in multiset(r);
      var k :| 0 <= k < |es| && es[k] == r[i];
      var m :| 0 <= m < |es| && es[m] == r[j];
      OccursOnce(es, k);
      if r[i] == r[j] {
        OccursTwice(r, i, j);
      }
    }
  }

  /** Where an entry first occurs; the length if it does not. */
  function Position(es: seq<Entry>, e: Entry): nat {
    if es == [] || es[0] == e then 0 else 1 + Position(es[1..], e)
  }

  lemma {:induction false} PositionFinds(es: seq<Entry>, e: Entry)
    ensures e in es <==> Position(es, e) < |es|
    ensures e in es ==> es[Position(es, e)] == e
  {
    if es != [] && es[0] != e {
      PositionFinds(es[1..], e);
    }
  }

  /** An entry that occurs once survives a cut exactly when it stands before it. */
  lemma CutAt(es: seq<Entry>, e: Entry, size: nat)
    requires multiset(es)[e] == 1 && size <= |es|
    ensures e !in es[size..] <==> Position(es, e) < size
  {
    PositionFinds(es, e);
    assert e in multiset(es);
    var p := Position(es, e);
    if p < size && e in es[size..] {
      var j :| size <= j < |es| && es[j] == e;
      OccursTwice(es, p, j);
    }
    if size <= p {
      assert es[size..][p - size] == e;
    }
  }

  /** Sorting a newcomer in leaves it there once. */
  lemma NewcomerOccursOnce(required: set<string>, es: seq<Entry>, c: Entry)
    requires c !in es
    ensures multiset(SortEntries(required, es + [c]))[c] == 1
  {
    SortPermutes(required, es + [c]);
    assert c !in multiset(es);
  }

  // ---- the key, component by component -------------------------------------

  /** The edge types of a label with their counts, by type. */
  function SortedCounts(counts: map<string, int>): (r: seq<(string, int)>)
  {
    SortedNamesAreNames(counts.Keys);
    CountsOf(counts, SortedNames(counts.Keys))
  }

  function CountsOf(counts: map<string, int>, types: seq<string>): (r: seq<(string, int)>)
    requires forall t | t in types :: t in counts
    ensures |r| == |types|
  {
    seq(|types|, i requires 0 <= i < |types| => (types[i], counts[types[i]]))
  }

  predicate CountBefore(x: (string, int), y: (string, int)) {
    TextBefore(x.0, y.0) || (x.0 == y.0 && x.1 < y.1)
  }

  /** At position k, the first where they differ, xs ends or has the smaller pair. */
  predicate FewerAt(xs: seq<(string, int)>, ys: seq<(string, int)>, k: nat) {
    k <= |xs| && k < |ys| && xs[..k] == ys[..k] && (k == |xs| || CountBefore(xs[k], ys[k]))
  }

  predicate CountsBefore(xs: seq<(string, int)>, ys: seq<(string, int)>) {
    exists k | 0 <= k <= |xs| :: FewerAt(xs, ys, k)
  }

  /** The order in which an archive lists its entries, field by field: fewer required
      facets uncovered, less distance, less depth, more evidence roles; then the type
      counts, the queue key and the path identity, each at its first difference. */
  predicate ListedBefore(required: set<string>, a: Entry, b: Entry) {
    var openA, openB := |required - a.fact.coveredFacets|, |required - b.fact.coveredFacets|;
    var countsA, countsB := SortedCounts(a.fact.edgeTypeCounts), SortedCounts(b.fact.edgeTypeCounts);
    if openA != openB then openA < openB
    else if a.fact.distance != b.fact.distance then a.fact.distance < b.fact.distance
    else if a.fact.depth != b.fact.depth then a.fact.depth < b.fact.depth
    else if |a.fact.evidenceRoles| != |b.fact.evidenceRoles| then |a.fact.evidenceRoles| > |b.fact.evidenceRoles|
    else if countsA != countsB then CountsBefore(countsA, countsB)
    else if a.queueKey != b.queueKey then NumbersBefore(a.queueKey, b.queueKey)
    else TextBefore(a.pathIdentity, b.pathIdentity)
  }

  lemma CountsBeforeCons(xs: seq<(string, int)>, ys: seq<(string, int)>)
    requires xs != [] && ys != []
    ensures CountsBefore(xs, ys) <==> CountBefore(xs[0], ys[0]) || (xs[0] == ys[0] && CountsBefore(xs[1..], ys[1..]))
  {
    if k :| 0 <= k <= |xs| && FewerAt(xs, ys, k) {
      if k > 0 {
        assert xs[0] == xs[..k][0] == ys[..k][0] == ys[0];
        assert xs[1..][..k - 1] == xs[..k][1..] && ys[1..][..k - 1] == ys[..k][1..];
        assert FewerAt(xs[1..], ys[1..], k - 1);
      }
    }
    if CountBefore(xs[0], ys[0]) {
      assert FewerAt(xs, ys, 0);
    } else if xs[0] == ys[0] && CountsBefore(xs[1..], ys[1..]) {
      var k :| 0 <= k <= |xs[1..]| && FewerAt(xs[1..], ys[1..], k);
      assert xs[..k + 1] == [xs[0]] + xs[1..][..k] && ys[..k + 1] == [ys[0]] + ys[1..][..k];
      assert FewerAt(xs, ys, k + 1);
    }
  }

  lemma TypeTupleCons(counts: map<string, int>, types: seq<string>, x: seq<real>)
    requires forall t | t in types :: t in counts
    ensures types == [] ==> TypeTuple(counts, types) + x == [TUPLE_END] + x
    ensures types != [] ==>
            TypeTuple(counts, types) + x
            == CodePoints(types[0]) + ([counts[types[0]] as real] + (TypeTuple(counts, types[1..]) + x))
  {
  }

  lemma LexCount(m: int, n: int, x: seq<real>, y: seq<real>)
    ensures LexLe([m as real] + x, [n as real] + y) <==> m < n || (m == n && LexLe(x, y))
  {
    LexCons([m as real], [n as real], x, y);
    assert [m as real][1..] + x == x && [n as real][1..] + y == y;
  }

  lemma FirstAboveEnd(s: string, x: seq<real>, y: seq<real>)
    ensures LexLe([TUPLE_END] + x, CodePoints(s) + y) && !LexLe(CodePoints(s) + y, [TUPLE_END] + x)
  {
    CodePointsCons(s);
    assert (CodePoints(s) + y)[0] == CodePoints(s)[0] > TUPLE_END;
  }

  /** Type counts are compared pair by pair; what follows them counts only if they
      are the same. */
  lemma {:induction false} LexTypes(ca: map<string, int>, as_: seq<string>, cb: map<string, int>, bs: seq<string>,
                                    x: seq<real>, y: seq<real>)
    requires (forall t | t in as_ :: t in ca) && (forall t | t in bs :: t in cb)
    ensures LexLe(TypeTuple(ca, as_) + x, TypeTuple(cb, bs) + y) <==>
            || CountsBefore(CountsOf(ca, as_), CountsOf(cb, bs))
            || (CountsOf(ca, as_) == CountsOf(cb, bs) && LexLe(x, y))
    decreases |as_|
  {
    var xs, ys := CountsOf(ca, as_), CountsOf(cb, bs);
    TypeTupleCons(ca, as_, x);
    TypeTupleCons(cb, bs, y);
    if as_ == [] && bs == [] {
      LexCons([TUPLE_END], [TUPLE_END], x, y);
      assert [TUPLE_END][1..] + x == x && [TUPLE_END][1..] + y == y;
    } else if as_ == [] {
      FirstAboveEnd(bs[0], x, [cb[bs[0]] as real] + (TypeTuple(cb, bs[1..]) + y));
      assert FewerAt(xs, ys, 0);
    } else if bs == [] {
      FirstAboveEnd(as_[0], y, [ca[as_[0]] as real] + (TypeTuple(ca, as_[1..]) + x));
    } else {
      var restA, restB := TypeTuple(ca, as_[1..]) + x, TypeTuple(cb, bs[1..]) + y;
      LexText(as_[0], bs[0], [ca[as_[0]] as real] + restA, [cb[bs[0]] as real] + restB);
      LexCount(ca[as_[0]], cb[bs[0]], restA, restB);
      LexTypes(ca, as_[1..], cb, bs[1..], x, y);
      CountsBeforeCons(xs, ys);
      assert xs[1..] == CountsOf(ca, as_[1..]) && ys[1..] == CountsOf(cb, bs[1..]);
      assert xs == [xs[0]] + xs[1..] && ys == [ys[0]] + ys[1..];
    }
  }

  lemma RanksBefore(required: set<string>, a: Label, b: Label)
    ensures var openA, openB := |required - a.coveredFacets|, |required - b.coveredFacets|;
            NumbersBefore(Rank(required, a), Rank(required, b)) <==>
            if openA != openB then openA < openB
            else if a.distance != b.distance then a.distance < b.distance
            else if a.depth != b.depth then a.depth < b.depth
            else |a.evidenceRoles| > |b.evidenceRoles|
    ensures Rank(required, a) == Rank(required, b) <==>
            && |required - a.coveredFacets| == |required - b.coveredFacets| && a.distance == b.distance
            && a.depth == b.depth && |a.evidenceRoles| == |b.evidenceRoles|
  {
    var x, y := Rank(required, a), Rank(required, b);
    FourNumbers(x, y);
    IntegersOrdered(|required - a.coveredFacets|, |required - b.coveredFacets|);
    IntegersOrdered(a.depth, b.depth);
    IntegersOrdered(|b.evidenceRoles|, |a.evidenceRoles|);
  }

  lemma IntegersOrdered(m: int, n: int)
    ensures m as real < n as real <==> m < n
    ensures m as real == n as real <==> m == n
  {
  }

  lemma FourNumbers(x: seq<real>, y: seq<real>)
    requires |x| == |y| == 4
    ensures NumbersBefore(x, y) <==>
            if x[0] != y[0] then x[0] < y[0] else if x[1] != y[1] then x[1] < y[1]
            else if x[2] != y[2] then x[2] < y[2] else x[3] < y[3]
    ensures x == y <==> x[0] == y[0] && x[1] == y[1] && x[2] == y[2] && x[3] == y[3]
  {
    NumbersBeforeCons(x, y);
    NumbersBeforeCons(x[1..], y[1..]);
    NumbersBeforeCons(x[2..], y[2..]);
    NumbersBeforeCons(x[3..], y[3..]);
    assert x[1..][1..] == x[2..] && x[2..][1..] == x[3..] && x[3..][1..] == [];
    assert y[1..][1..] == y[2..] && y[2..][1..] == y[3..] && y[3..][1..] == [];
  }

  lemma SortKeySplits(required: set<string>, e: Entry)
    ensures SortKey(required, e) ==
            Rank(required, e.fact) + (TypeTuple(e.fact.edgeTypeCounts, SortedNames(e.fact.edgeTypeCounts.Keys))
                                      + (e.queueKey + (CodePoints(e.pathIdentity) + [])))
  {
  }

  /** Comparing the flattened keys is comparing field by field. */
  lemma KeyLeExactly(required: set<string>, a: Entry, b: Entry)
    requires |a.queueKey| == |b.queueKey| && a.pathIdentity != b.pathIdentity
    ensures KeyLe(required, a, b) <==> ListedBefore(required, a, b)
  {
    var ca, cb := a.fact.edgeTypeCounts, b.fact.edgeTypeCounts;
    SortedNamesAreNames(ca.Keys);
    SortedNamesAreNames(cb.Keys);
    SortKeySplits(required, a);
    SortKeySplits(required, b);
    var lastA, lastB := CodePoints(a.pathIdentity) + [], CodePoints(b.pathIdentity) + [];
    RanksBefore(required, a.fact, b.fact);
    LexNumbers(Rank(required, a.fact), Rank(required, b.fact),
               TypeTuple(ca, SortedNames(ca.Keys)) + (a.queueKey + lastA),
               TypeTuple(cb, SortedNames(cb.Keys)) + (b.queueKey + lastB));
    LexTypes(ca, SortedNames(ca.Keys), cb, SortedNames(cb.Keys), a.queueKey + lastA, b.queueKey + lastB);
    LexNumbers(a.queueKey, b.queueKey, lastA, lastB);
    LexText(a.pathIdentity, b.pathIdentity, [], []);
    NothingBeforeItself(SortedCounts(ca));
  }

  /** No list of counts, and no list of numbers, comes before itself. */
  lemma NothingBeforeItself(xs: seq<(string, int)>)
    ensures !CountsBefore(xs, xs)
    ensures forall q: seq<real> :: !NumbersBefore(q, q)
  {
  }
}
