/** Inventories of what a destructive clean-up would delete. A builder digests one
    named scope of entries after the other; the inventory it finalises commits to
    them by a hash, which the operator must repeat before anything is deleted. */
module Inventory {
  import opened Basics
  import opened Framing
  import opened Ordering

  const INVENTORY_SAMPLE_LIMIT: nat := 20
  const INVENTORY_HARD_ENTRY_LIMIT: nat := 100000

  /** An entry, as its canonical encoding. */
  type Entry = seq<Byte>

  /** Who and what the inventory is for; the options in canonical form. */
  datatype Header = Header(operation: string, baseId: string, baseName: string, options: string, impact: string)

  datatype Card = Card(count: nat, scopeHash: string, sample: seq<Entry>, sampleTruncated: bool)

  datatype Scope = Scope(name: string, card: Card)

  datatype ScopeCommitment = ScopeCommitment(name: string, count: nat, scopeHash: string)

  datatype Commitment = Commitment(header: Header, hardEntryLimit: nat, totalEntries: nat, scopes: seq<ScopeCommitment>)

  datatype Outcome = Added | DuplicateScope | LimitExceeded | EncodingTooLong

  /** A scope with all of its entries, of which the builder keeps only a card. */
  datatype Content = Content(name: string, entries: seq<Entry>)

  function Shown(count: nat): nat {
    if count < INVENTORY_SAMPLE_LIMIT then count else INVENTORY_SAMPLE_LIMIT
  }

  function CardOf(scopeHash: string, entries: seq<Entry>): Card {
    Card(|entries|, scopeHash, entries[..Shown(|entries|)], |entries| > INVENTORY_SAMPLE_LIMIT)
  }

  function ScopeOf(digest: seq<Byte> -> string, c: Content): Scope {
    Scope(c.name, CardOf(digest(Stream(c.entries)), c.entries))
  }

  function Committed(s: Scope): ScopeCommitment {
    ScopeCommitment(s.name, s.card.count, s.card.scopeHash)
  }

  // ---- scopes by name ------------------------------------------------------

  function Names(scopes: seq<Scope>): set<string> {
    set s | s in scopes :: s.name
  }

  predicate DistinctNames(scopes: seq<Scope>) {
    forall i, j | 0 <= i < j < |scopes| :: scopes[i].name != scopes[j].name
  }

  function Find(scopes: seq<Scope>, name: string): (s: Scope)
    requires name in Names(scopes)
    ensures s in scopes && s.name == name
  {
    if scopes[|scopes| - 1].name == name then scopes[|scopes| - 1] else Find(scopes[..|scopes| - 1], name)
  }

  lemma FindIsUnique(scopes: seq<Scope>, s: Scope)
    requires DistinctNames(scopes) && s in scopes
    ensures s.name in Names(scopes) && Find(scopes, s.name) == s
  {
    var t := Find(scopes, s.name);
    var i :| 0 <= i < |scopes| && scopes[i] == s;
    var j :| 0 <= j < |scopes| && scopes[j] == t;
  }

  /** The scopes in the order of the given names. */
  function Arranged(scopes: seq<Scope>, names: seq<string>): (r: seq<Scope>)
    requires forall n | n in names :: n in Names(scopes)
    ensures |r| == |names|
  {
    seq(|names|, i requires 0 <= i < |names| => Find(scopes, names[i]))
  }

  function SortedScopes(scopes: seq<Scope>): seq<Scope> {
    SortedNamesAreNames(Names(scopes));
    Arranged(scopes, SortedNames(Names(scopes)))
  }

  /** In ascending order of their names, each before the next at the first difference. */
  ghost predicate AscendingByName(scopes: seq<Scope>) {
    forall i, j | 0 <= i < j < |scopes| ::
      TextBefore(scopes[i].name, scopes[j].name)
  }

  lemma SortedScopesExactly(scopes: seq<Scope>)
    requires DistinctNames(scopes)
    ensures AscendingByName(SortedScopes(scopes))
    ensures forall s :: s in SortedScopes(scopes) <==> s in scopes
  {
    var names := SortedNames(Names(scopes));
    SortedNamesAreNames(Names(scopes));
    SortedNamesExactly(Names(scopes));
    forall s | s in scopes ensures s in SortedScopes(scopes) {
      FindIsUnique(scopes, s);
      var i :| 0 <= i < |names| && names[i] == s.name;
      assert SortedScopes(scopes)[i] == s;
    }
  }

  function Commitments(scopes: seq<Scope>): (r: seq<ScopeCommitment>)
    ensures |r| == |scopes|
  {
    seq(|scopes|, i requires 0 <= i < |scopes| => Committed(scopes[i]))
  }

  // ---- the builder ---------------------------------------------------------

  function Scopes(digest: seq<Byte> -> string, contents: seq<Content>): (r: seq<Scope>)
    ensures |r| == |contents|
  {
    seq(|contents|, i requires 0 <= i < |contents| => ScopeOf(digest, contents[i]))
  }

  predicate AllFit(contents: seq<Content>) {
    forall c, e | c in contents && e in c.entries :: Fits(e)
  }

  function TotalOf(contents: seq<Content>): nat {
    if contents == [] then 0 else TotalOf(contents[..|contents| - 1]) + |contents[|contents| - 1].entries|
  }

  /** The k-th entry of a scope cannot be taken: it is one too many, or too long. */
  predicate Stops(limit: nat, total: nat, entries: seq<Entry>, k: nat)
    requires k < |entries|
  {
    total + k + 1 > limit || !Fits(entries[k])
  }

  /** The first entry from the k-th on that cannot be taken. */
  function FirstStop(limit: nat, total: nat, entries: seq<Entry>, k: nat): (first: nat)
    requires k <= |entries|
    ensures k <= first <= |entries|
    decreases |entries| - k
  {
    if k == |entries| || Stops(limit, total, entries, k) then k else FirstStop(limit, total, entries, k + 1)
  }

  lemma {:induction false} FirstStopExactly(limit: nat, total: nat, entries: seq<Entry>, k: nat)
    requires k <= |entries|
    ensures var first := FirstStop(limit, total, entries, k);
            && (forall i | k <= i < first :: Fits(entries[i]))
            && (first == |entries| && k < |entries| ==> total + |entries| <= limit)
    decreases |entries| - k
  {
    if k < |entries| && !Stops(limit, total, entries, k) {
      FirstStopExactly(limit, total, entries, k + 1);
    }
  }

  /** A scope is taken if and only if it keeps to the limit and none of its entries is too
      long for eight bytes of length; otherwise it stops at the first entry that is one too
      many or too long. */
  lemma StopsExactly(limit: nat, total: nat, entries: seq<Entry>)
    ensures var first := FirstStop(limit, total, entries, 0);
            && (first == |entries| <==>
                && (entries == [] || total + |entries| <= limit)
                && forall e | e in entries :: |e| < 0x1_0000_0000_0000_0000)
            && (first > 0 ==> total + first <= limit)
            && (forall i | 0 <= i < first :: |entries[i]| < 0x1_0000_0000_0000_0000)
            && (first < |entries| ==> total + first >= limit || |entries[first]| >= 0x1_0000_0000_0000_0000)
  {
    NoneStopsBefore(limit, total, entries, 0);
    var first := FirstStop(limit, total, entries, 0);
    assert first > 0 ==> !Stops(limit, total, entries, first - 1);
    forall i | 0 <= i < first ensures |entries[i]| < 0x1_0000_0000_0000_0000 {
      assert !Stops(limit, total, entries, i);
      FitsExactly(entries[i]);
    }
    if first < |entries| {
      assert Stops(limit, total, entries, first);
      FitsExactly(entries[first]);
      assert entries[first] in entries;
    }
  }

  lemma FitsExactly(e: Entry)
    ensures Fits(e) <==> |e| < 0x1_0000_0000_0000_0000
  {
    CapacityInDigits();
  }

  lemma {:induction false} NoneStopsBefore(limit: nat, total: nat, entries: seq<Entry>, k: nat)
    requires k <= |entries|
    ensures var first := FirstStop(limit, total, entries, k);
            && (forall i | k <= i < first :: !Stops(limit, total, entries, i))
            && (first < |entries| ==> Stops(limit, total, entries, first))
    decreases |entries| - k
  {
    if k < |entries| && !Stops(limit, total, entries, k) {
      NoneStopsBefore(limit, total, entries, k + 1);
    }
  }

  /** A card counts all entries, commits to them, shows the first twenty, and says if there
      are more. */
  predicate IsCard(scopeHash: string, entries: seq<Entry>, card: Card) {
    && card.count == |entries| && card.scopeHash == scopeHash
    && card.sample <= entries && |card.sample| == (if |entries| < 20 then |entries| else 20)
    && (card.sampleTruncated <==> |entries| > 20)
  }

  lemma CardExactly(scopeHash: string, entries: seq<Entry>)
    ensures IsCard(scopeHash, entries, CardOf(scopeHash, entries))
    ensures |entries| > Shown(|entries|) <==> |entries| > INVENTORY_SAMPLE_LIMIT
  {
  }

  lemma AllTaken(limit: nat, total: nat, entries: seq<Entry>)
    requires FirstStop(limit, total, entries, 0) == |entries|
    ensures (forall e | e in entries :: Fits(e)) && (entries != [] ==> total + |entries| <= limit)
  {
    FirstStopExactly(limit, total, entries, 0);
  }

  lemma ScopesGrow(digest: seq<Byte> -> string, contents: seq<Content>, c: Content)
    requires DistinctNames(Scopes(digest, contents)) && AllFit(contents)
    requires c.name !in Names(Scopes(digest, contents)) && forall e | e in c.entries :: Fits(e)
    ensures Scopes(digest, contents + [c]) == Scopes(digest, contents) + [ScopeOf(digest, c)]
    ensures DistinctNames(Scopes(digest, contents + [c])) && AllFit(contents + [c])
    ensures TotalOf(contents + [c]) == TotalOf(contents) + |c.entries|
  {
    var scopes := Scopes(digest, contents);
    assert forall i | 0 <= i < |scopes| :: scopes[i] in scopes && scopes[i].name in Names(scopes);
    assert (contents + [c])[..|contents|] == contents;
  }

  lemma OneMoreEntry(entries: seq<Entry>, i: nat)
    requires i < |entries|
    ensures Stream(entries[..i + 1]) == Stream(entries[..i]) + BigEndian(|entries[i]|, LENGTH_BYTES) + entries[i]
    ensures entries[..Shown(i + 1)]
            == if i < INVENTORY_SAMPLE_LIMIT then entries[..Shown(i)] + [entries[i]] else entries[..Shown(i)]
  {
    assert entries[..i + 1][..i] == entries[..i];
  }

  class InventoryBuilder {
    const header: Header
    const hardEntryLimit: nat
    const digest: seq<Byte> -> string
    var totalEntries: nat
    var scopes: seq<Scope>
    /** Every scope added, with its entries. */
    ghost var contents: seq<Content>
    /** Entries counted by calls that then raised. */
    ghost var lost: nat

    ghost predicate Valid() reads this {
      && 1 <= hardEntryLimit <= INVENTORY_HARD_ENTRY_LIMIT
      && scopes == Scopes(digest, contents)
      && DistinctNames(scopes)
      && AllFit(contents)
      && totalEntries == TotalOf(contents) + lost
      && (lost == 0 ==> totalEntries <= hardEntryLimit)
    }

    constructor (header: Header, hardEntryLimit: nat, digest: seq<Byte> -> string)
      requires 1 <= hardEntryLimit <= INVENTORY_HARD_ENTRY_LIMIT
      ensures Valid() && contents == [] && lost == 0
      ensures this.header == header && this.hardEntryLimit == hardEntryLimit && this.digest == digest
    {
      this.header, this.hardEntryLimit, this.digest := header, hardEntryLimit, digest;
      totalEntries, scopes := 0, [];
      contents, lost := [], 0;
    }

    static method Create(header: Header, limit: int, digest: seq<Byte> -> string) returns (b: InventoryBuilder?)
      ensures b == null <==> limit < 1 || limit > 100000
      ensures b != null ==> fresh(b) && b.Valid() && b.contents == [] && b.lost == 0
                            && b.header == header && b.hardEntryLimit == limit && b.digest == digest
    {
      if limit < 1 || limit > INVENTORY_HARD_ENTRY_LIMIT {
        return null;
      }
      b := new InventoryBuilder(header, limit, digest);
    }

    /** Digest one scope. A call that raises midway has already advanced the total. */
    method AddScope(name: string, entries: seq<Entry>) returns (r: Outcome)
      requires Valid()
      modifies this
      ensures Valid()
      ensures var n := FirstStop(hardEntryLimit, old(totalEntries), entries, 0);
              if name in Names(old(scopes)) then
                r == DuplicateScope && totalEntries == old(totalEntries) && lost == old(lost)
              else if n == |entries| then
                r == Added && totalEntries == old(totalEntries) + n && lost == old(lost)
              else
                && r == (if old(totalEntries) + n + 1 > hardEntryLimit then LimitExceeded else EncodingTooLong)
                && totalEntries == old(totalEntries) + n + 1 && lost == old(lost) + n + 1
      ensures contents == if r.Added? then old(contents) + [Content(name, entries)] else old(contents)
      ensures r.Added? <==> && name !in Names(old(scopes))
                            && (entries == [] || old(totalEntries) + |entries| <= hardEntryLimit)
                            && forall e | e in entries :: |e| < 0x1_0000_0000_0000_0000
      ensures r.Added? ==> && |scopes| == |old(scopes)| + 1 && scopes[|old(scopes)|].name == name
                           && IsCard(digest(Stream(entries)), entries, scopes[|old(scopes)|].card)
    {
      if name in Names(scopes) {
        return DuplicateScope;
      }
      var stream, sample, count;
      r, stream, sample, count := DigestEntries(entries);
      StopsExactly(hardEntryLimit, old(totalEntries), entries);
      if r != Added {
        lost := lost + count;
        return;
      }
      AllTaken(hardEntryLimit, old(totalEntries), entries);
      ScopesGrow(digest, contents, Content(name, entries));
      CardExactly(digest(stream), entries);
      scopes := scopes + [Scope(name, Card(count, digest(stream), sample, count > |sample|))];
      contents := contents + [Content(name, entries)];
    }

    /** Count and digest entries until one cannot be taken. */
    method DigestEntries(entries: seq<Entry>) returns (r: Outcome, stream: seq<Byte>, sample: seq<Entry>, count: nat)
      modifies this`totalEntries
      ensures var n := FirstStop(hardEntryLimit, old(totalEntries), entries, 0);
              if n == |entries| then
                && r == Added && totalEntries == old(totalEntries) + n && count == n
                && stream == Stream(entries) && sample == entries[..Shown(n)]
              else
                && r == (if old(totalEntries) + n + 1 > hardEntryLimit then LimitExceeded else EncodingTooLong)
                && totalEntries == old(totalEntries) + n + 1 && count == n + 1
    {
      r, stream, sample, count := Added, [], [], 0;
      for i := 0 to |entries|
        invariant count == i && totalEntries == old(totalEntries) + i
        invariant stream == Stream(entries[..i])
        invariant sample == entries[..Shown(i)]
        invariant FirstStop(hardEntryLimit, old(totalEntries), entries, 0)
                  == FirstStop(hardEntryLimit, old(totalEntries), entries, i)
      {
        var encoded := entries[i];
        count := count + 1;
        totalEntries := totalEntries + 1;
        if totalEntries > hardEntryLimit {
          return LimitExceeded, stream, sample, count;
        }
        if !Fits(encoded) {
          return EncodingTooLong, stream, sample, count;
        }
        OneMoreEntry(entries, i);
        stream := stream + BigEndian(|encoded|, LENGTH_BYTES) + encoded;
        if |sample| < INVENTORY_SAMPLE_LIMIT {
          sample := sample + [encoded];
        }
      }
      assert entries[..|entries|] == entries;
    }

    method Finalize(hash: Commitment -> string) returns (c: Commitment, inventoryHash: string, cards: seq<Scope>)
      requires Valid()
      ensures c == CommitmentOf(this) && inventoryHash == hash(c)
      ensures c.totalEntries == TotalOf(contents) + lost
      ensures AscendingByName(cards) && forall s :: s in cards <==> s in Scopes(digest, contents)
      ensures |c.scopes| == |cards| && forall i | 0 <= i < |cards| :: c.scopes[i] == Committed(cards[i])
    {
      SortedScopesExactly(scopes);
      cards := SortedScopes(scopes);
      c := Commitment(header, hardEntryLimit, totalEntries, Commitments(cards));
      inventoryHash := hash(c);
    }
  }

  // ---- what an inventory hash commits to -----------------------------------

  predicate SameContents(a: seq<Content>, b: seq<Content>) {
    (forall c | c in a :: c in b) && (forall c | c in b :: c in a)
  }

  predicate SameScopes(a: seq<Scope>, b: seq<Scope>) {
    (forall s | s in a :: s in b) && (forall s | s in b :: s in a)
  }

  lemma SameContentsSameScopes(digest: seq<Byte> -> string, a: seq<Content>, b: seq<Content>)
    requires SameContents(a, b)
    ensures SameScopes(Scopes(digest, a), Scopes(digest, b))
  {
    forall s | s in Scopes(digest, a) ensures s in Scopes(digest, b) { CarryScope(digest, a, b, s); }
    forall s | s in Scopes(digest, b) ensures s in Scopes(digest, a) { CarryScope(digest, b, a, s); }
  }

  lemma CarryScope(digest: seq<Byte> -> string, a: seq<Content>, b: seq<Content>, s: Scope)
    requires SameContents(a, b) && s in Scopes(digest, a)
    ensures s in Scopes(digest, b)
  {
    var i :| 0 <= i < |a| && Scopes(digest, a)[i] == s;
    assert a[i] in a;
    var j :| 0 <= j < |b| && b[j] == a[i];
    assert Scopes(digest, b)[j] == s;
  }

  /** The order in which scopes were added does not show. */
  lemma OrderOfScopesIsIrrelevant(a: seq<Scope>, b: seq<Scope>)
    requires DistinctNames(a) && DistinctNames(b) && SameScopes(a, b)
    ensures SortedScopes(a) == SortedScopes(b)
  {
    assert Names(a) == Names(b);
    var names := SortedNames(Names(a));
    SortedNamesAreNames(Names(a));
    forall i | 0 <= i < |names| ensures Find(a, names[i]) == Find(b, names[i]) {
      FindIsUnique(b, Find(a, names[i]));
    }
  }

  /** A scope's commitment appears in the sorted list. */
  lemma CommittedAt(scopes: seq<Scope>, s: Scope) returns (i: nat)
    requires DistinctNames(scopes) && s in scopes
    ensures i < |SortedScopes(scopes)| && Commitments(SortedScopes(scopes))[i] == Committed(s)
  {
    SortedNamesAreNames(Names(scopes));
    FindIsUnique(scopes, s);
    i :| 0 <= i < |SortedNames(Names(scopes))| && SortedNames(Names(scopes))[i] == s.name;
  }

  lemma SortedScopesAreScopes(scopes: seq<Scope>, i: nat)
    requires i < |SortedScopes(scopes)|
    ensures SortedScopes(scopes)[i] in scopes
  {
    SortedNamesAreNames(Names(scopes));
  }

  lemma CommittedContentIsShared(digest: seq<Byte> -> string, a: seq<Content>, b: seq<Content>, c: Content)
    requires Injective(digest) && AllFit(a) && AllFit(b) && c in a
    requires DistinctNames(Scopes(digest, a)) && DistinctNames(Scopes(digest, b))
    requires Commitments(SortedScopes(Scopes(digest, a))) == Commitments(SortedScopes(Scopes(digest, b)))
    ensures c in b
  {
    var sa, sb := Scopes(digest, a), Scopes(digest, b);
    var k :| 0 <= k < |a| && a[k] == c;
    assert sa[k] in sa;
    var i := CommittedAt(sa, ScopeOf(digest, c));
    SortedScopesAreScopes(sb, i);
    var j :| 0 <= j < |sb| && sb[j] == SortedScopes(sb)[i];
    assert Commitments(SortedScopes(sb))[i] == Committed(ScopeOf(digest, b[j]));
    assert b[j] in b;
    assert digest(Stream(c.entries)) == digest(Stream(b[j].entries));
    StreamIsInjective(c.entries, b[j].entries);
  }

  /** Two lists of scopes commit to the same thing if and only if they hold the same
      scopes with the same entries in the same order within each scope. */
  lemma CommitmentsExactly(digest: seq<Byte> -> string, a: seq<Content>, b: seq<Content>)
    requires Injective(digest) && AllFit(a) && AllFit(b)
    requires DistinctNames(Scopes(digest, a)) && DistinctNames(Scopes(digest, b))
    ensures Commitments(SortedScopes(Scopes(digest, a))) == Commitments(SortedScopes(Scopes(digest, b)))
            <==> SameContents(a, b)
  {
    if SameContents(a, b) {
      SameContentsSameScopes(digest, a, b);
      OrderOfScopesIsIrrelevant(Scopes(digest, a), Scopes(digest, b));
    }
    if Commitments(SortedScopes(Scopes(digest, a))) == Commitments(SortedScopes(Scopes(digest, b))) {
      forall c | c in a ensures c in b { CommittedContentIsShared(digest, a, b, c); }
      forall c | c in b ensures c in a { CommittedContentIsShared(digest, b, a, c); }
    }
  }

  // ---- the total -----------------------------------------------------------

  function SumCounts(cs: seq<ScopeCommitment>): nat {
    if cs == [] then 0 else cs[0].count + SumCounts(cs[1..])
  }

  function Without(scopes: seq<Scope>, k: nat): seq<Scope>
    requires k < |scopes|
  {
    scopes[..k] + scopes[k + 1..]
  }

  function TotalCount(scopes: seq<Scope>): nat {
    if scopes == [] then 0 else TotalCount(scopes[..|scopes| - 1]) + scopes[|scopes| - 1].card.count
  }

  lemma TotalPush(front: seq<Scope>, last: Scope)
    ensures TotalCount(front + [last]) == TotalCount(front) + last.card.count
  {
    assert (front + [last])[..|front|] == front;
  }

  lemma WithoutPush(front: seq<Scope>, last: Scope, k: nat)
    requires k <= |front|
    ensures Without(front + [last], k) == if k < |front| then Without(front, k) + [last] else front
  {
  }

  lemma {:induction false} TotalWithout(scopes: seq<Scope>, k: nat)
    requires k < |scopes|
    ensures TotalCount(scopes) == TotalCount(Without(scopes, k)) + scopes[k].card.count
  {
    var front, last := scopes[..|scopes| - 1], scopes[|scopes| - 1];
    assert scopes == front + [last];
    WithoutPush(front, last, k);
    if k < |front| {
      TotalWithout(front, k);
      TotalPush(Without(front, k), last);
    }
  }

  lemma WithoutKeepsOthers(scopes: seq<Scope>, k: nat, s: Scope)
    requires k < |scopes| && DistinctNames(scopes)
    ensures DistinctNames(Without(scopes, k))
    ensures s in Without(scopes, k) <==> s in scopes && s != scopes[k]
  {
    var rest := Without(scopes, k);
    if s in scopes && s != scopes[k] {
      var i :| 0 <= i < |scopes| && scopes[i] == s;
      assert if i < k then rest[i] == s else rest[i - 1] == s;
    }
  }

  lemma {:induction false} ArrangedTotal(scopes: seq<Scope>, names: seq<string>)
    requires DistinctNames(scopes) && forall n :: n in names <==> n in Names(scopes)
    requires forall i, j | 0 <= i < j < |names| :: names[i] != names[j]
    ensures SumCounts(Commitments(Arranged(scopes, names))) == TotalCount(scopes)
    decreases |names|
  {
    if names == [] {
      assert forall i | 0 <= i < |scopes| :: scopes[i].name in Names(scopes);
    } else {
      var first, others := names[0], names[1..];
      assert first in names;
      var s := Find(scopes, first);
      var k :| 0 <= k < |scopes| && scopes[k] == s;
      var rest := Without(scopes, k);
      TotalWithout(scopes, k);
      RestNames(scopes, names, k);
      ArrangedTotal(rest, others);
      RestArranged(scopes, names, k);
    }
  }

  lemma RestArranged(scopes: seq<Scope>, names: seq<string>, k: nat)
    requires k < |scopes| && DistinctNames(scopes) && names != []
    requires forall n | n in names :: n in Names(scopes)
    requires forall n | n in names[1..] :: n in Names(Without(scopes, k))
    ensures Commitments(Arranged(scopes, names))[1..] == Commitments(Arranged(Without(scopes, k), names[1..]))
  {
    var rest, others := Without(scopes, k), names[1..];
    forall i | 0 <= i < |others| ensures Find(rest, others[i]) == Find(scopes, others[i]) {
      var t := Find(rest, others[i]);
      WithoutKeepsOthers(scopes, k, t);
      FindIsUnique(scopes, t);
    }
  }

  lemma RestNames(scopes: seq<Scope>, names: seq<string>, k: nat)
    requires k < |scopes| && DistinctNames(scopes) && names != [] && names[0] == scopes[k].name
    requires forall n :: n in names <==> n in Names(scopes)
    requires forall i, j | 0 <= i < j < |names| :: names[i] != names[j]
    ensures DistinctNames(Without(scopes, k))
    ensures forall n :: n in names[1..] <==> n in Names(Without(scopes, k))
  {
    var rest := Without(scopes, k);
    WithoutKeepsOthers(scopes, k, scopes[k]);
    forall n ensures n in names[1..] <==> n in Names(rest) {
      if n in names[1..] {
        assert n in names && n in Names(scopes);
        var s := Find(scopes, n);
        WithoutKeepsOthers(scopes, k, s);
      } else if n in Names(rest) {
        var s :| s in rest && s.name == n;
        WithoutKeepsOthers(scopes, k, s);
        FindIsUnique(scopes, s);
        FindIsUnique(scopes, scopes[k]);
      }
    }
  }

  lemma {:induction false} TotalOfContents(digest: seq<Byte> -> string, contents: seq<Content>)
    ensures TotalCount(Scopes(digest, contents)) == TotalOf(contents)
  {
    if contents != [] {
      var n := |contents| - 1;
      TotalOfContents(digest, contents[..n]);
      assert Scopes(digest, contents)[..n] == Scopes(digest, contents[..n]);
    }
  }

  function CommitmentOf(b: InventoryBuilder): Commitment
    reads b
  {
    Commitment(b.header, b.hardEntryLimit, b.totalEntries, Commitments(SortedScopes(b.scopes)))
  }

  /** The committed total is the sum of the committed counts if and only if no call
      raised midway; a builder that passed its limit can still be finalised. */
  lemma TotalIsTheSumExactly(b: InventoryBuilder)
    requires b.Valid()
    ensures CommitmentOf(b).totalEntries == SumCounts(CommitmentOf(b).scopes) + b.lost
    ensures CommitmentOf(b).totalEntries == SumCounts(CommitmentOf(b).scopes) <==> b.lost == 0
    ensures b.lost == 0 ==> SumCounts(CommitmentOf(b).scopes) <= b.hardEntryLimit
  {
    SortedNamesAreNames(Names(b.scopes));
    ArrangedTotal(b.scopes, SortedNames(Names(b.scopes)));
    TotalOfContents(b.digest, b.contents);
  }

  /** Such a builder: one entry too many under a limit of one. It finalises an empty
      inventory with a total of two. */
  method FinalisedPastItsLimit(header: Header, digest: seq<Byte> -> string, hash: Commitment -> string)
    returns (c: Commitment, cards: seq<Scope>)
    ensures c.hardEntryLimit == 1 && c.totalEntries == 2
    ensures c.scopes == [] && cards == [] && SumCounts(c.scopes) == 0
  {
    var b := InventoryBuilder.Create(header, 1, digest);
    var r := b.AddScope("s", [[], []]);
    assert r == LimitExceeded;
    var inventoryHash;
    c, inventoryHash, cards := b.Finalize(hash);
  }

  /** With hash functions that do not collide, repeating the inventory hash of an
      earlier dry run means repeating its contents: the hashes of two builders agree
      exactly when both inventories are for the same operation under the same limit,
      hold the same entries, and lost as many. */
  lemma InventoryHashExactly(hash: Commitment -> string, a: InventoryBuilder, b: InventoryBuilder)
    requires a.Valid() && b.Valid() && a.digest == b.digest
    requires Injective(hash) && Injective(a.digest)
    ensures hash(CommitmentOf(a)) == hash(CommitmentOf(b)) <==>
            && a.header == b.header && a.hardEntryLimit == b.hardEntryLimit
            && SameContents(a.contents, b.contents) && a.lost == b.lost
  {
    var x, y := CommitmentOf(a), CommitmentOf(b);
    CommitmentsExactly(a.digest, a.contents, b.contents);
    TotalIsTheSumExactly(a);
    TotalIsTheSumExactly(b);
    assert x.scopes == y.scopes <==> SameContents(a.contents, b.contents);
    assert x.scopes == y.scopes ==> (x.totalEntries == y.totalEntries <==> a.lost == b.lost);
    assert hash(x) == hash(y) <==> x == y;
  }
}
