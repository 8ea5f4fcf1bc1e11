/** Whole-chunk token packing: candidates are taken in order while they fit; only
    into an empty package may one be clipped, at the end of a token. */
module Packing {
  import opened Basics
  import opened Lexer

  datatype Candidate = Candidate(id: string, text: string, spanStart: int, spanEnd: int)

  datatype Fitted = Fitted(id: string, text: string, spanStart: int, spanEnd: int, clipped: bool)

  /** The selection so far, the candidates skipped, and the tokens used. */
  datatype Selection = Selection(expected: seq<Fitted>, skipped: seq<string>, used: int)

  function TokenCount(al: Alphabet, text: string): nat {
    |Tokens(al, text)|
  }

  /** Where the n-th token of a text ends. */
  function EndOfToken(al: Alphabet, text: string, n: nat): (end: nat)
    requires 1 <= n <= TokenCount(al, text)
    ensures end <= |text|
  {
    TokensOrdered(al, text, 0);
    assert Ordered(Tokens(al, text), 0, |text|);
    Tokens(al, text)[n - 1].end
  }

  function Consider(al: Alphabet, cap: int, s: Selection, c: Candidate): Selection {
    var count := TokenCount(al, c.text);
    var remaining := cap - s.used;
    var clipped := count > remaining;
    if count == 0 || remaining <= 0 || (clipped && s.expected != []) then
      if count > remaining then s.(skipped := s.skipped + [c.id]) else s
    else
      var end := if clipped then EndOfToken(al, c.text, remaining) else |c.text|;
      var spanEnd := if clipped then c.spanStart + end else c.spanEnd;
      if clipped && (c.spanStart < 0 || spanEnd > c.spanEnd) then s.(skipped := s.skipped + [c.id])
      else Selection(s.expected + [Fitted(c.id, c.text[..end], c.spanStart, spanEnd, clipped)],
                     s.skipped, s.used + if clipped then remaining else count)
  }

  /** The selection after the first n candidates. */
  function Select(al: Alphabet, cap: int, cs: seq<Candidate>, n: nat): Selection
    requires n <= |cs|
  {
    if n == 0 then Selection([], [], 0) else Consider(al, cap, Select(al, cap, cs, n - 1), cs[n - 1])
  }

  // ---- the budget ----------------------------------------------------------

  /** The tokens of the selected texts, counted afresh. */
  function Recount(al: Alphabet, fitted: seq<Fitted>): nat {
    if fitted == [] then 0
    else Recount(al, fitted[..|fitted| - 1]) + TokenCount(al, fitted[|fitted| - 1].text)
  }

  /** Either every selected text is whole, or the selection is one clipped text of
      exactly cap tokens. */
  predicate WholeOrOneClip(cap: int, s: Selection) {
    || (forall f | f in s.expected :: !f.clipped)
    || (|s.expected| == 1 && s.expected[0].clipped && s.used == cap)
  }

  predicate BudgetKept(al: Alphabet, cap: int, s: Selection) {
    && 0 <= s.used <= cap
    && Recount(al, s.expected) == s.used
    && (s.used == 0 ==> s.expected == [])
    && (s.expected == [] ==> s.used == 0)
    && WholeOrOneClip(cap, s)
  }

  /** A clipped text recounts to exactly the tokens it was charged for. */
  lemma ClippedCount(al: Alphabet, text: string, n: nat)
    requires 1 <= n <= TokenCount(al, text)
    ensures TokenCount(al, text[..EndOfToken(al, text, n)]) == n
  {
    PrefixStable(al, text, 0, n);
  }

  lemma TakingKeepsBudget(al: Alphabet, cap: int, s: Selection, f: Fitted, charged: nat)
    requires cap > 0 && BudgetKept(al, cap, s) && TokenCount(al, f.text) == charged > 0 && s.used + charged <= cap
    requires f.clipped ==> s.expected == [] && s.used + charged == cap
    requires s.used < cap
    ensures BudgetKept(al, cap, Selection(s.expected + [f], s.skipped, s.used + charged))
  {
    var more := s.expected + [f];
    assert more[..|more| - 1] == s.expected;
  }

  lemma ConsiderWhole(al: Alphabet, cap: int, s: Selection, c: Candidate)
    requires 0 < TokenCount(al, c.text) <= cap - s.used
    ensures Consider(al, cap, s, c) == Selection(s.expected + [Fitted(c.id, c.text, c.spanStart, c.spanEnd, false)],
                                                 s.skipped, s.used + TokenCount(al, c.text))
  {
    assert c.text[..|c.text|] == c.text;
  }

  /** Otherwise the candidate is clipped, or nothing is selected. */
  lemma ConsiderOther(al: Alphabet, cap: int, s: Selection, c: Candidate)
    requires TokenCount(al, c.text) == 0 || TokenCount(al, c.text) > cap - s.used
    ensures var t := Consider(al, cap, s, c);
            || (t.expected == s.expected && t.used == s.used)
            || (s.expected == [] && s.used < cap
                && var end := EndOfToken(al, c.text, cap - s.used);
                t == Selection(s.expected + [Fitted(c.id, c.text[..end], c.spanStart, c.spanStart + end, true)],
                               s.skipped, cap))
  {
  }

  lemma ConsiderKeepsBudget(al: Alphabet, cap: int, s: Selection, c: Candidate)
    requires cap > 0 && BudgetKept(al, cap, s)
    ensures BudgetKept(al, cap, Consider(al, cap, s, c))
  {
    var count, remaining := TokenCount(al, c.text), cap - s.used;
    if 0 < count <= remaining {
      ConsiderWhole(al, cap, s, c);
      TakingKeepsBudget(al, cap, s, Fitted(c.id, c.text, c.spanStart, c.spanEnd, false), count);
    } else {
      ConsiderOther(al, cap, s, c);
      if Consider(al, cap, s, c).used != s.used {
        ClippedCount(al, c.text, remaining);
        var end := EndOfToken(al, c.text, remaining);
        TakingKeepsBudget(al, cap, s, Fitted(c.id, c.text[..end], c.spanStart, c.spanStart + end, true), remaining);
      }
    }
  }

  /** The budget is never exceeded, and the recount of what was selected is exact. */
  lemma {:induction false} SelectionKeepsBudget(al: Alphabet, cap: int, cs: seq<Candidate>, n: nat)
    requires cap > 0 && n <= |cs|
    ensures BudgetKept(al, cap, Select(al, cap, cs, n))
  {
    if n > 0 {
      SelectionKeepsBudget(al, cap, cs, n - 1);
      ConsiderKeepsBudget(al, cap, Select(al, cap, cs, n - 1), cs[n - 1]);
    }
  }

  // ---- the fate of each candidate ------------------------------------------

  predicate Selects(s: Selection, id: string) {
    exists f | f in s.expected :: f.id == id
  }

  lemma ConsiderGrows(al: Alphabet, cap: int, s: Selection, c: Candidate)
    requires cap > 0 && BudgetKept(al, cap, s)
    ensures var t := Consider(al, cap, s, c);
            var count := TokenCount(al, c.text);
            && s.used <= t.used
            && ( || (count == 0 && t == s)
                 || (count > cap - s.used && t == s.(skipped := s.skipped + [c.id]))
                 || (t.expected == s.expected + [t.expected[|t.expected| - 1]]
                     && t.expected[|t.expected| - 1].id == c.id && t.skipped == s.skipped))
  {
    var t := Consider(al, cap, s, c);
    if |t.expected| == |s.expected| + 1 {
      assert t.expected[|t.expected| - 1].id == c.id;
    }
  }

  lemma {:induction false} LaterKeeps(al: Alphabet, cap: int, cs: seq<Candidate>, m: nat, n: nat)
    requires cap > 0 && m <= n <= |cs|
    ensures var s, t := Select(al, cap, cs, m), Select(al, cap, cs, n);
            s.expected <= t.expected && s.skipped <= t.skipped && s.used <= t.used
  {
    if m < n {
      LaterKeeps(al, cap, cs, m, n - 1);
      SelectionKeepsBudget(al, cap, cs, n - 1);
      ConsiderGrows(al, cap, Select(al, cap, cs, n - 1), cs[n - 1]);
    }
  }

  /** Every candidate is selected, or skipped because it would not fit even in
      what is left at the end, or has no tokens at all. */
  lemma EveryCandidateIsAccountedFor(al: Alphabet, cap: int, cs: seq<Candidate>, i: nat)
    requires cap > 0 && i < |cs|
    ensures var s := Select(al, cap, cs, |cs|);
            || Selects(s, cs[i].id)
            || (cs[i].id in s.skipped && TokenCount(al, cs[i].text) > cap - s.used)
            || TokenCount(al, cs[i].text) == 0
  {
    var s, t, last := Select(al, cap, cs, i), Select(al, cap, cs, i + 1), Select(al, cap, cs, |cs|);
    SelectionKeepsBudget(al, cap, cs, i);
    ConsiderGrows(al, cap, s, cs[i]);
    LaterKeeps(al, cap, cs, i + 1, |cs|);
    if |t.expected| == |s.expected| + 1 {
      assert last.expected[|s.expected|] == t.expected[|s.expected|];
      assert last.expected[|s.expected|] in last.expected;
    } else if |t.skipped| == |s.skipped| + 1 {
      assert last.skipped[|s.skipped|] == t.skipped[|s.skipped|];
    }
  }

  /** The text and the span of a selected chunk are the candidate's own, or a
      non-empty front of it whose span lies within the candidate's. */
  predicate FrontOf(f: Fitted, c: Candidate) {
    && f.id == c.id && f.text <= c.text && f.spanStart == c.spanStart
    && (if f.clipped then |f.text| > 0 && 0 <= f.spanStart && f.spanEnd == f.spanStart + |f.text| <= c.spanEnd
        else f.text == c.text && f.spanEnd == c.spanEnd)
  }

  lemma ClipIsNotEmpty(al: Alphabet, text: string, n: nat)
    requires 1 <= n <= TokenCount(al, text)
    ensures EndOfToken(al, text, n) > 0
  {
    TokensOrdered(al, text, 0);
    assert Ordered(Tokens(al, text), 0, |text|);
  }

  /** Nothing is selected but candidates and fronts of candidates. */
  lemma {:induction false} SelectionIsFaithful(al: Alphabet, cap: int, cs: seq<Candidate>, n: nat, k: nat) returns (i: nat)
    requires cap > 0 && n <= |cs| && k < |Select(al, cap, cs, n).expected|
    ensures i < n && FrontOf(Select(al, cap, cs, n).expected[k], cs[i])
  {
    var s := Select(al, cap, cs, n - 1);
    if k < |s.expected| {
      i := SelectionIsFaithful(al, cap, cs, n - 1, k);
      SelectionKeepsBudget(al, cap, cs, n - 1);
      ConsiderGrows(al, cap, s, cs[n - 1]);
    } else {
      i := n - 1;
      var remaining := cap - s.used;
      if TokenCount(al, cs[i].text) > remaining {
        ClipIsNotEmpty(al, cs[i].text, remaining);
      } else {
        assert cs[i].text[..|cs[i].text|] == cs[i].text;
      }
    }
  }

  predicate DistinctIds(cs: seq<Candidate>) {
    forall i, j | 0 <= i < j < |cs| :: cs[i].id != cs[j].id
  }

  /** What was selected or skipped comes from distinct candidates, and nothing is
      both: with the empty candidates the two partition the input. */
  lemma {:induction false} OutcomesComeFromCandidates(al: Alphabet, cap: int, cs: seq<Candidate>, n: nat, id: string)
    returns (i: nat)
    requires cap > 0 && n <= |cs| && DistinctIds(cs)
    requires Selects(Select(al, cap, cs, n), id) || id in Select(al, cap, cs, n).skipped
    ensures i < n && cs[i].id == id && TokenCount(al, cs[i].text) > 0
    ensures !(Selects(Select(al, cap, cs, n), id) && id in Select(al, cap, cs, n).skipped)
  {
    var s, t := Select(al, cap, cs, n - 1), Select(al, cap, cs, n);
    SelectionKeepsBudget(al, cap, cs, n - 1);
    ConsiderGrows(al, cap, s, cs[n - 1]);
    if Selects(s, id) || id in s.skipped {
      i := OutcomesComeFromCandidates(al, cap, cs, n - 1, id);
      assert id != cs[n - 1].id;
    } else {
      i := n - 1;
    }
  }

  // ---- the replay ----------------------------------------------------------

  /** A chunk of the package under audit. */
  datatype Item = Item(id: string, content: string, spanStart: int, spanEnd: int, clipped: bool)

  /** What the replay reads: the declared candidates and budget, the chunks, the
      chunk ids retained from another package, and the declared results. */
  datatype PackingLog = PackingLog(
    candidates: seq<Candidate>,
    cap: int,
    traceHits: seq<string>,
    items: seq<Item>,
    retained: set<string>,
    hitIds: seq<string>,
    skippedIds: seq<string>,
    clippedIds: seq<string>,
    tokenCount: int)

  function ItemIds(items: seq<Item>): seq<string> {
    seq(|items|, i requires 0 <= i < |items| => items[i].id)
  }

  function FittedIds(fitted: seq<Fitted>): seq<string> {
    seq(|fitted|, i requires 0 <= i < |fitted| => fitted[i].id)
  }

  function Filter(ids: seq<string>, keep: string -> bool): seq<string> {
    if ids == [] then []
    else Filter(ids[..|ids| - 1], keep) + if keep(ids[|ids| - 1]) then [ids[|ids| - 1]] else []
  }

  function ClippedItems(items: seq<Item>): seq<string> {
    if items == [] then []
    else ClippedItems(items[..|items| - 1]) + if items[|items| - 1].clipped then [items[|items| - 1].id] else []
  }

  function ItemTokens(al: Alphabet, items: seq<Item>): nat {
    if items == [] then 0
    else ItemTokens(al, items[..|items| - 1]) + TokenCount(al, items[|items| - 1].content)
  }

  /** The chunk shows the fitted text: exactly, or extended if it was retained. */
  predicate Shows(item: Item, f: Fitted, retained: bool) {
    item.id == f.id &&
    if retained then
      item.spanStart == f.spanStart && item.spanEnd >= f.spanEnd && f.text <= item.content
    else
      item.content == f.text && item.spanStart == f.spanStart && item.spanEnd == f.spanEnd && item.clipped == f.clipped
  }

  predicate PackingInputsValid(log: PackingLog) {
    && log.cap > 0 && |log.candidates| <= 4096
    && DistinctIds(log.candidates)
    && forall h | h in log.traceHits :: exists c | c in log.candidates :: c.id == h
  }

  predicate PackingAgrees(al: Alphabet, log: PackingLog, s: Selection) {
    var actual := ItemIds(log.items);
    var expectedIds := FittedIds(s.expected);
    && Distinct(actual)
    && (forall id | id in expectedIds :: id in actual)
    && (forall id | id in actual :: id in expectedIds || id in log.retained)
    && Filter(actual, id => id in expectedIds) == expectedIds
    && log.hitIds == Filter(log.traceHits, id => id in expectedIds)
    && log.skippedIds == Filter(s.skipped, id => id !in actual)
    && log.clippedIds == ClippedItems(log.items)
    && (forall f | f in s.expected :: exists item | item in log.items :: Shows(item, f, f.id in log.retained))
    && log.tokenCount == ItemTokens(al, log.items)
  }

  lemma {:induction false} FilterAll(ids: seq<string>, keep: string -> bool)
    requires forall id | id in ids :: keep(id)
    ensures Filter(ids, keep) == ids
  {
    if ids != [] {
      FilterAll(ids[..|ids| - 1], keep);
      assert ids == ids[..|ids| - 1] + [ids[|ids| - 1]];
    }
  }

  lemma {:induction false} SameTexts(al: Alphabet, items: seq<Item>, fitted: seq<Fitted>)
    requires |items| == |fitted| && forall i | 0 <= i < |items| :: items[i].content == fitted[i].text
    ensures ItemTokens(al, items) == Recount(al, fitted)
  {
    if items != [] {
      SameTexts(al, items[..|items| - 1], fitted[..|fitted| - 1]);
    }
  }

  lemma ItemsAreTheSelection(items: seq<Item>, fitted: seq<Fitted>)
    requires Distinct(ItemIds(items))
    requires forall id | id in ItemIds(items) :: id in FittedIds(fitted)
    requires Filter(ItemIds(items), id => id in FittedIds(fitted)) == FittedIds(fitted)
    requires forall f | f in fitted :: exists item | item in items :: Shows(item, f, false)
    ensures |items| == |fitted|
    ensures forall i | 0 <= i < |items| :: items[i].id == fitted[i].id && items[i].content == fitted[i].text
  {
    var actual, expectedIds := ItemIds(items), FittedIds(fitted);
    FilterAll(actual, id => id in expectedIds);
    assert actual == expectedIds;
    assert |items| == |actual| && |fitted| == |expectedIds|;
    forall i | 0 <= i < |items| ensures items[i].id == fitted[i].id && items[i].content == fitted[i].text {
      var f := fitted[i];
      assert f in fitted && actual[i] == expectedIds[i];
      var item :| item in items && Shows(item, f, false);
      var j :| 0 <= j < |items| && items[j] == item;
      assert actual[j] == actual[i];
    }
  }

  // ---- what an accepted package is -----------------------------------------

  /** The tokens of the chunks that were not retained from another package. */
  function TokensOutside(al: Alphabet, items: seq<Item>, retained: set<string>): nat {
    if items == [] then 0 else
      var last := items[|items| - 1];
      TokensOutside(al, items[..|items| - 1], retained)
      + if last.id in retained then 0 else TokenCount(al, last.content)
  }

  /** A chunk that was not retained shows the text fitted under its id. */
  predicate ShowsFitted(items: seq<Item>, fitted: seq<Fitted>, retained: set<string>) {
    forall i, k | 0 <= i < |items| && 0 <= k < |fitted| && items[i].id == fitted[k].id && items[i].id !in retained ::
      items[i].content == fitted[k].text
  }

  lemma SnocIds(items: seq<Item>, fitted: seq<Fitted>)
    ensures items != [] ==> ItemIds(items)[..|items| - 1] == ItemIds(items[..|items| - 1])
    ensures fitted != [] ==> FittedIds(fitted)[..|fitted| - 1] == FittedIds(fitted[..|fitted| - 1])
    ensures |ItemIds(items)| == |items| && |FittedIds(fitted)| == |fitted|
  {
  }

  lemma {:induction false} OutsideWithin(al: Alphabet, items: seq<Item>, fitted: seq<Fitted>, retained: set<string>,
                                         keep: string -> bool)
    requires Filter(ItemIds(items), keep) == FittedIds(fitted)
    requires forall i | 0 <= i < |items| :: keep(items[i].id) || items[i].id in retained
    requires ShowsFitted(items, fitted, retained)
    ensures TokensOutside(al, items, retained) <= Recount(al, fitted)
    decreases |items|
  {
    SnocIds(items, fitted);
    if items != [] {
      var front, last := items[..|items| - 1], items[|items| - 1];
      if keep(last.id) {
        var m := |fitted| - 1;
        assert FittedIds(fitted)[m] == last.id;
        assert Filter(ItemIds(front), keep) == FittedIds(fitted[..m]);
        OutsideWithin(al, front, fitted[..m], retained, keep);
      } else {
        OutsideWithin(al, front, fitted, retained, keep);
      }
    }
  }

  lemma ItemsShowFitted(items: seq<Item>, fitted: seq<Fitted>, retained: set<string>)
    requires Distinct(ItemIds(items))
    requires forall f | f in fitted :: exists item | item in items :: Shows(item, f, f.id in retained)
    ensures ShowsFitted(items, fitted, retained)
    ensures forall i, k | 0 <= i < |items| && 0 <= k < |fitted| && items[i].id == fitted[k].id ::
              Shows(items[i], fitted[k], fitted[k].id in retained)
  {
    SnocIds(items, fitted);
    forall i, k | 0 <= i < |items| && 0 <= k < |fitted| && items[i].id == fitted[k].id
      ensures Shows(items[i], fitted[k], fitted[k].id in retained)
    {
      var item :| item in items && Shows(item, fitted[k], fitted[k].id in retained);
      var j :| 0 <= j < |items| && items[j] == item;
      assert ItemIds(items)[i] == ItemIds(items)[j];
    }
  }

  /** The chunk is a candidate, or a front of one. */
  predicate ComesFrom(item: Item, c: Candidate) {
    FrontOf(Fitted(item.id, item.content, item.spanStart, item.spanEnd, item.clipped), c)
  }

  /** The chunk shows the candidate: a front of it, or more if it was retained. */
  ghost predicate Presents(item: Item, c: Candidate, retained: bool) {
    exists f :: FrontOf(f, c) && Shows(item, f, retained)
  }

  /** What acceptance says of a package. Its own chunks fit the cap and are candidates
      or fronts of candidates; and every candidate is shown by a chunk, or would not
      have fitted into what the selection left, or is empty. */
  ghost predicate PackageSound(al: Alphabet, log: PackingLog) {
    var left := log.cap - Select(al, log.cap, log.candidates, |log.candidates|).used;
    && 0 <= left && TokensOutside(al, log.items, log.retained) <= log.cap - left
    && (forall item | item in log.items && item.id !in log.retained ::
          exists c | c in log.candidates :: ComesFrom(item, c))
    && (forall c | c in log.candidates ::
          || TokenCount(al, c.text) == 0 || TokenCount(al, c.text) > left
          || exists item | item in log.items :: Presents(item, c, item.id in log.retained))
  }

  lemma OwnChunksFit(al: Alphabet, log: PackingLog, s: Selection)
    requires PackingInputsValid(log) && s == Select(al, log.cap, log.candidates, |log.candidates|)
    requires PackingAgrees(al, log, s)
    ensures TokensOutside(al, log.items, log.retained) <= s.used <= log.cap
  {
    SelectionKeepsBudget(al, log.cap, log.candidates, |log.candidates|);
    ItemsShowFitted(log.items, s.expected, log.retained);
    SnocIds(log.items, s.expected);
    var expectedIds := FittedIds(s.expected);
    forall i | 0 <= i < |log.items| ensures log.items[i].id in expectedIds || log.items[i].id in log.retained {
      assert ItemIds(log.items)[i] in ItemIds(log.items);
    }
    OutsideWithin(al, log.items, s.expected, log.retained, id => id in expectedIds);
  }

  lemma OwnChunkComesFrom(al: Alphabet, log: PackingLog, s: Selection, i: nat)
    requires PackingInputsValid(log) && s == Select(al, log.cap, log.candidates, |log.candidates|)
    requires PackingAgrees(al, log, s) && i < |log.items| && log.items[i].id !in log.retained
    ensures exists c | c in log.candidates :: ComesFrom(log.items[i], c)
  {
    ItemsShowFitted(log.items, s.expected, log.retained);
    SnocIds(log.items, s.expected);
    assert ItemIds(log.items)[i] in ItemIds(log.items);
    var k :| 0 <= k < |s.expected| && FittedIds(s.expected)[k] == log.items[i].id;
    var j := SelectionIsFaithful(al, log.cap, log.candidates, |log.candidates|, k);
    assert ComesFrom(log.items[i], log.candidates[j]);
  }

  lemma CandidateIsPresented(al: Alphabet, log: PackingLog, s: Selection, i: nat)
    requires PackingInputsValid(log) && s == Select(al, log.cap, log.candidates, |log.candidates|)
    requires PackingAgrees(al, log, s) && i < |log.candidates| && Selects(s, log.candidates[i].id)
    ensures exists item | item in log.items :: Presents(item, log.candidates[i], item.id in log.retained)
  {
    var c := log.candidates[i];
    var k :| 0 <= k < |s.expected| && s.expected[k].id == c.id;
    var f := s.expected[k];
    var j := SelectionIsFaithful(al, log.cap, log.candidates, |log.candidates|, k);
    assert i == j;
    assert f in s.expected;
    var item :| item in log.items && Shows(item, f, f.id in log.retained);
    assert Presents(item, c, item.id in log.retained);
  }

  /** An accepted package is sound; and one without retained chunks holds exactly the
      selected texts in order, its declared token count being what was charged. */
  lemma AcceptedPackageIsSound(al: Alphabet, log: PackingLog)
    requires PackingInputsValid(log)
    requires PackingAgrees(al, log, Select(al, log.cap, log.candidates, |log.candidates|))
    ensures PackageSound(al, log)
    ensures log.retained == {} ==>
            var s := Select(al, log.cap, log.candidates, |log.candidates|);
            && |log.items| == |s.expected|
            && (forall i | 0 <= i < |log.items| :: log.items[i].id == s.expected[i].id
                                                   && log.items[i].content == s.expected[i].text)
            && log.tokenCount == s.used <= log.cap
  {
    var s := Select(al, log.cap, log.candidates, |log.candidates|);
    SelectionKeepsBudget(al, log.cap, log.candidates, |log.candidates|);
    OwnChunksFit(al, log, s);
    forall item | item in log.items && item.id !in log.retained
      ensures exists c | c in log.candidates :: ComesFrom(item, c)
    {
      var i :| 0 <= i < |log.items| && log.items[i] == item;
      OwnChunkComesFrom(al, log, s, i);
    }
    forall c | c in log.candidates && TokenCount(al, c.text) != 0 && TokenCount(al, c.text) <= log.cap - s.used
      ensures exists item | item in log.items :: Presents(item, c, item.id in log.retained)
    {
      var i :| 0 <= i < |log.candidates| && log.candidates[i] == c;
      EveryCandidateIsAccountedFor(al, log.cap, log.candidates, i);
      CandidateIsPresented(al, log, s, i);
    }
    if log.retained == {} {
      ItemsAreTheSelection(log.items, s.expected);
      SameTexts(al, log.items, s.expected);
    }
  }
}
