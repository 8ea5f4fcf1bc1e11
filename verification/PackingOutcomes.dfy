/** The greedy selection and the package it is compared with, told by what each
    candidate is charged. */
module PackingOutcomes {
  import opened Basics
  import opened Lexer
  import opened Packing

  // ---- the selection -------------------------------------------------------

  function Charged(charges: seq<nat>): nat {
    if charges == [] then 0 else Charged(charges[..|charges| - 1]) + charges[|charges| - 1]
  }

  /** The front of a text that ends with its n-th token. */
  predicate EndsWithToken(al: Alphabet, text: string, n: nat, front: string) {
    && front <= text && 1 <= n <= |Tokens(al, text)|
    && |front| == Tokens(al, text)[n - 1].end
    && Tokens(al, front) == Tokens(al, text)[..n]
  }

  /** The candidate can be cut behind its n-th token inside its span. */
  predicate Cuttable(al: Alphabet, c: Candidate, n: int) {
    1 <= n <= |Tokens(al, c.text)| && 0 <= c.spanStart && c.spanStart + Tokens(al, c.text)[n - 1].end <= c.spanEnd
  }

  /** What candidate i is charged: all of its tokens if they fit into what is left; all
      that is left if nothing was charged before and it can be cut there; else nothing. */
  predicate ChargedRightly(al: Alphabet, cap: int, cs: seq<Candidate>, charges: seq<nat>, i: nat)
    requires i < |cs| && i < |charges|
  {
    var left, count := cap - Charged(charges[..i]), |Tokens(al, cs[i].text)|;
    charges[i] ==
      if count <= left then count
      else if Charged(charges[..i]) == 0 && Cuttable(al, cs[i], left) then left
      else 0
  }

  /** What is selected of a candidate: all of it, or a front that ends with the last token
      charged. */
  predicate Fits(al: Alphabet, c: Candidate, charge: nat, f: Fitted) {
    && f.id == c.id && f.spanStart == c.spanStart
    && if charge == |Tokens(al, c.text)| then f.text == c.text && f.spanEnd == c.spanEnd && !f.clipped
       else EndsWithToken(al, c.text, charge, f.text) && f.spanEnd == c.spanStart + |f.text| && f.clipped
  }

  function Taken(charges: seq<nat>): seq<bool> {
    seq(|charges|, i requires 0 <= i < |charges| => charges[i] > 0)
  }

  /** Candidates with tokens that were charged for none. */
  function PassedOver(al: Alphabet, cs: seq<Candidate>, charges: seq<nat>): seq<bool>
    requires |charges| == |cs|
  {
    seq(|cs|, i requires 0 <= i < |cs| => charges[i] == 0 && |Tokens(al, cs[i].text)| > 0)
  }

  function CandidateIds(cs: seq<Candidate>): seq<string> {
    seq(|cs|, i requires 0 <= i < |cs| => cs[i].id)
  }

  /** The selection takes the charged candidates in order and passes over the others. */
  ghost predicate Greedy(al: Alphabet, cap: int, cs: seq<Candidate>, charges: seq<nat>, s: Selection) {
    && |charges| == |cs|
    && (forall i | 0 <= i < |cs| :: ChargedRightly(al, cap, cs, charges, i))
    && s.used == Charged(charges)
    && TakesCharged(al, cs, charges, s.expected)
    && Picks(s.skipped, CandidateIds(cs), PassedOver(al, cs, charges))
  }

  predicate TakenAt(al: Alphabet, cs: seq<Candidate>, charges: seq<nat>, expected: seq<Fitted>, i: nat)
    requires |charges| == |cs| && i < |cs|
  {
    var k := |Flagged(Taken(charges), i)|;
    k < |expected| && Fits(al, cs[i], charges[i], expected[k])
  }

  /** What the next candidate is charged when this much is used. */
  function NextOf(al: Alphabet, cap: int, used: int, c: Candidate): int {
    var count := |Tokens(al, c.text)|;
    if count <= cap - used then count
    else if used == 0 && Cuttable(al, c, cap - used) then cap - used
    else 0
  }

  lemma ClipFits(al: Alphabet, c: Candidate, n: nat)
    requires 1 <= n < |Tokens(al, c.text)|
    ensures var end := EndOfToken(al, c.text, n);
            Fits(al, c, n, Fitted(c.id, c.text[..end], c.spanStart, c.spanStart + end, true))
  {
    PrefixStable(al, c.text, 0, n);
  }

  /** What the next candidate is charged, and the selection after it. */
  lemma NextCharge(al: Alphabet, cap: int, s: Selection, c: Candidate) returns (charge: nat, f: Fitted)
    requires cap > 0 && BudgetKept(al, cap, s)
    ensures var count := |Tokens(al, c.text)|;
            && charge == NextOf(al, cap, s.used, c)
            && (charge > 0 ==> Fits(al, c, charge, f))
            && Consider(al, cap, s, c)
               == Selection(s.expected + (if charge > 0 then [f] else []),
                            s.skipped + (if charge == 0 && count > 0 then [c.id] else []), s.used + charge)
  {
    var count := |Tokens(al, c.text)|;
    var left := cap - s.used;
    f := Fitted(c.id, c.text, c.spanStart, c.spanEnd, false);
    if count <= left {
      charge := count;
      if count > 0 {
        ConsiderWhole(al, cap, s, c);
      }
    } else if s.used == 0 && Cuttable(al, c, left) {
      charge := left;
      var end := EndOfToken(al, c.text, left);
      f := Fitted(c.id, c.text[..end], c.spanStart, c.spanStart + end, true);
      ClipFits(al, c, left);
    } else {
      charge := 0;
    }
  }

  lemma ChargedSnoc(charges: seq<nat>, charge: nat)
    ensures Charged(charges + [charge]) == Charged(charges) + charge
    ensures forall i | 0 <= i <= |charges| :: (charges + [charge])[..i] == charges[..i]
  {
    assert (charges + [charge])[..|charges|] == charges;
  }

  /** The charged candidates are selected in order. */
  predicate TakesCharged(al: Alphabet, cs: seq<Candidate>, charges: seq<nat>, expected: seq<Fitted>)
    requires |charges| == |cs|
  {
    && |expected| == |Flagged(Taken(charges), |cs|)|
    && forall i | 0 <= i < |cs| && charges[i] > 0 :: TakenAt(al, cs, charges, expected, i)
  }

  lemma TakenLater(al: Alphabet, cs: seq<Candidate>, charges: seq<nat>, expected: seq<Fitted>, c: Candidate, charge: nat,
                   more: seq<Fitted>, i: nat)
    requires |charges| == |cs| && i < |cs| && TakenAt(al, cs, charges, expected, i)
    ensures TakenAt(al, cs + [c], charges + [charge], expected + more, i)
  {
    assert Taken(charges + [charge]) == Taken(charges) + [charge > 0];
    FlaggedFront(Taken(charges), charge > 0, i);
  }

  lemma TakenNow(al: Alphabet, cs: seq<Candidate>, charges: seq<nat>, expected: seq<Fitted>, c: Candidate, charge: nat, f: Fitted)
    requires TakesChargedSoFar(cs, charges, expected)
    ensures |expected| + (if charge > 0 then 1 else 0) == |Flagged(Taken(charges + [charge]), |cs| + 1)|
    ensures charge > 0 && Fits(al, c, charge, f) ==>
            TakenAt(al, cs + [c], charges + [charge], expected + [f], |cs|)
  {
    assert Taken(charges + [charge]) == Taken(charges) + [charge > 0];
    FlaggedNext(Taken(charges + [charge]), |cs|);
    FlaggedFront(Taken(charges), charge > 0, |cs|);
  }

  predicate TakesChargedSoFar(cs: seq<Candidate>, charges: seq<nat>, expected: seq<Fitted>) {
    |charges| == |cs| && |expected| == |Flagged(Taken(charges), |cs|)|
  }

  lemma TakenEither(al: Alphabet, cs: seq<Candidate>, charges: seq<nat>, expected: seq<Fitted>, c: Candidate, charge: nat,
                    f: Fitted, i: nat)
    requires |charges| == |cs| && TakesCharged(al, cs, charges, expected) && i < |cs| + 1
    requires charge > 0 ==> Fits(al, c, charge, f)
    requires (charges + [charge])[i] > 0
    ensures TakenAt(al, cs + [c], charges + [charge], expected + (if charge > 0 then [f] else []), i)
  {
    if i < |cs| {
      assert (charges + [charge])[i] == charges[i];
      assert TakenAt(al, cs, charges, expected, i);
      TakenLater(al, cs, charges, expected, c, charge, if charge > 0 then [f] else [], i);
    } else {
      assert charge > 0 && i == |cs|;
      TakenNow(al, cs, charges, expected, c, charge, f);
    }
  }

  lemma TakenSnoc(al: Alphabet, cs: seq<Candidate>, charges: seq<nat>, expected: seq<Fitted>, c: Candidate, charge: nat, f: Fitted)
    requires |charges| == |cs| && TakesCharged(al, cs, charges, expected)
    requires charge > 0 ==> Fits(al, c, charge, f)
    ensures TakesCharged(al, cs + [c], charges + [charge], expected + if charge > 0 then [f] else [])
  {
    var all, more, after := cs + [c], charges + [charge], expected + if charge > 0 then [f] else [];
    TakenNow(al, cs, charges, expected, c, charge, f);
    forall i | 0 <= i < |all| && more[i] > 0 ensures TakenAt(al, all, more, after, i) {
      TakenEither(al, cs, charges, expected, c, charge, f, i);
    }
  }

  lemma ChargesSnoc(al: Alphabet, cap: int, cs: seq<Candidate>, charges: seq<nat>, c: Candidate, charge: nat)
    requires |charges| == |cs| && forall i | 0 <= i < |cs| :: ChargedRightly(al, cap, cs, charges, i)
    requires charge == NextOf(al, cap, Charged(charges), c)
    ensures forall i | 0 <= i < |cs| + 1 :: ChargedRightly(al, cap, cs + [c], charges + [charge], i)
  {
    ChargedSnoc(charges, charge);
    forall i | 0 <= i < |cs| + 1 ensures ChargedRightly(al, cap, cs + [c], charges + [charge], i) {
      if i < |cs| {
        assert ChargedRightly(al, cap, cs, charges, i);
      }
    }
  }

  lemma PassedSnoc(al: Alphabet, cs: seq<Candidate>, charges: seq<nat>, skipped: seq<string>, c: Candidate, charge: nat)
    requires |charges| == |cs| && Picks(skipped, CandidateIds(cs), PassedOver(al, cs, charges))
    ensures Picks(skipped + (if charge == 0 && |Tokens(al, c.text)| > 0 then [c.id] else []),
                  CandidateIds(cs + [c]), PassedOver(al, cs + [c], charges + [charge]))
  {
    var passed := charge == 0 && |Tokens(al, c.text)| > 0;
    PicksSnoc(skipped, CandidateIds(cs), PassedOver(al, cs, charges), c.id, passed);
    assert CandidateIds(cs + [c]) == CandidateIds(cs) + [c.id];
    assert PassedOver(al, cs + [c], charges + [charge]) == PassedOver(al, cs, charges) + [passed];
  }

  lemma GreedySnoc(al: Alphabet, cap: int, cs: seq<Candidate>, charges: seq<nat>, s: Selection, c: Candidate, charge: nat, f: Fitted)
    requires Greedy(al, cap, cs, charges, s) && charge == NextOf(al, cap, s.used, c)
    requires charge > 0 ==> Fits(al, c, charge, f)
    ensures Greedy(al, cap, cs + [c], charges + [charge],
                   Selection(s.expected + (if charge > 0 then [f] else []),
                             s.skipped + (if charge == 0 && |Tokens(al, c.text)| > 0 then [c.id] else []), s.used + charge))
  {
    ChargedSnoc(charges, charge);
    ChargesSnoc(al, cap, cs, charges, c, charge);
    TakenSnoc(al, cs, charges, s.expected, c, charge, f);
    PassedSnoc(al, cs, charges, s.skipped, c, charge);
  }

  lemma NothingIsGreedy(al: Alphabet, cap: int)
    ensures Greedy(al, cap, [], [], Selection([], [], 0))
  {
    PicksNothing<string>();
    assert CandidateIds([]) == [] && PassedOver(al, [], []) == [] && Flagged(Taken([]), 0) == {};
  }

  /** Taking one more candidate keeps the selection greedy. */
  lemma GreedyGrows(al: Alphabet, cap: int, cs: seq<Candidate>, before: seq<nat>, s: Selection, c: Candidate,
                    more: seq<Candidate>, t: Selection) returns (charge: nat)
    requires cap > 0 && BudgetKept(al, cap, s) && Greedy(al, cap, cs, before, s)
    requires more == cs + [c] && t == Consider(al, cap, s, c)
    ensures Greedy(al, cap, more, before + [charge], t)
  {
    var f;
    charge, f := NextCharge(al, cap, s, c);
    GreedySnoc(al, cap, cs, before, s, c, charge, f);
  }

  lemma GreedyStep(al: Alphabet, cap: int, cs: seq<Candidate>, m: nat, before: seq<nat>) returns (charges: seq<nat>)
    requires cap > 0 && m < |cs| && Greedy(al, cap, cs[..m], before, Select(al, cap, cs, m))
    ensures Greedy(al, cap, cs[..m + 1], charges, Select(al, cap, cs, m + 1))
  {
    SelectionKeepsBudget(al, cap, cs, m);
    var charge := GreedyGrows(al, cap, cs[..m], before, Select(al, cap, cs, m), cs[m],
                              cs[..m + 1], Select(al, cap, cs, m + 1));
    charges := before + [charge];
  }

  /** The selection is greedy. */
  lemma {:induction false} SelectionIsGreedy(al: Alphabet, cap: int, cs: seq<Candidate>, n: nat) returns (charges: seq<nat>)
    requires cap > 0 && n <= |cs|
    ensures Greedy(al, cap, cs[..n], charges, Select(al, cap, cs, n))
  {
    if n == 0 {
      charges := [];
      NothingIsGreedy(al, cap);
      assert cs[..0] == [];
    } else {
      var m := n - 1;
      charges := SelectionIsGreedy(al, cap, cs, m);
      charges := GreedyStep(al, cap, cs, m, charges);
    }
  }

  // ---- the package ---------------------------------------------------------

  function Kept(ids: seq<string>, keep: string -> bool): seq<bool> {
    seq(|ids|, i requires 0 <= i < |ids| => keep(ids[i]))
  }

  lemma FilterSnoc(front: seq<string>, last: string, keep: string -> bool)
    ensures Filter(front + [last], keep) == Filter(front, keep) + if keep(last) then [last] else []
    ensures Kept(front + [last], keep) == Kept(front, keep) + [keep(last)]
  {
    assert (front + [last])[..|front|] == front;
  }

  lemma {:induction false} FilterPicks(ids: seq<string>, keep: string -> bool)
    ensures Picks(Filter(ids, keep), ids, Kept(ids, keep))
    decreases |ids|
  {
    if ids == [] {
      PicksNothing<string>();
    } else {
      var front, last := SplitLast(ids);
      FilterPicks(front, keep);
      FilterSnoc(front, last, keep);
      PicksSnoc(Filter(front, keep), front, Kept(front, keep), last, keep(last));
    }
  }

  lemma FilterExactly(ids: seq<string>, keep: string -> bool, picked: seq<string>)
    ensures picked == Filter(ids, keep) <==> Picks(picked, ids, Kept(ids, keep))
  {
    FilterPicks(ids, keep);
    if Picks(picked, ids, Kept(ids, keep)) {
      PicksIsUnique(picked, Filter(ids, keep), ids, Kept(ids, keep));
    }
  }

  function ClippedFlags(items: seq<Item>): seq<bool> {
    seq(|items|, i requires 0 <= i < |items| => items[i].clipped)
  }

  lemma ClippedSnoc(front: seq<Item>, last: Item)
    ensures ClippedItems(front + [last]) == ClippedItems(front) + if last.clipped then [last.id] else []
    ensures ItemIds(front + [last]) == ItemIds(front) + [last.id]
    ensures ClippedFlags(front + [last]) == ClippedFlags(front) + [last.clipped]
  {
    assert (front + [last])[..|front|] == front;
  }

  lemma {:induction false} ClippedPicks(items: seq<Item>)
    ensures Picks(ClippedItems(items), ItemIds(items), ClippedFlags(items))
    decreases |items|
  {
    if items == [] {
      PicksNothing<string>();
    } else {
      var front, last := SplitLast(items);
      ClippedPicks(front);
      ClippedSnoc(front, last);
      PicksSnoc(ClippedItems(front), ItemIds(front), ClippedFlags(front), last.id, last.clipped);
    }
  }

  function TokenCounts(al: Alphabet, items: seq<Item>): seq<nat> {
    seq(|items|, i requires 0 <= i < |items| => |Tokens(al, items[i].content)|)
  }

  lemma {:induction false} ItemTokensAdd(al: Alphabet, items: seq<Item>)
    ensures ItemTokens(al, items) == Charged(TokenCounts(al, items))
  {
    if items != [] {
      var front, last := items[..|items| - 1], items[|items| - 1];
      ItemTokensAdd(al, front);
      assert TokenCounts(al, items) == TokenCounts(al, front) + [|Tokens(al, last.content)|];
      ChargedSnoc(TokenCounts(al, front), |Tokens(al, last.content)|);
    }
  }

  /** Some text was selected under this id. */
  predicate IsSelected(s: Selection, id: string) {
    exists f | f in s.expected :: f.id == id
  }

  /** Some chunk has this id. */
  predicate IsPacked(log: PackingLog, id: string) {
    exists item | item in log.items :: item.id == id
  }

  function SelectedFlags(s: Selection, ids: seq<string>): seq<bool> {
    seq(|ids|, i requires 0 <= i < |ids| => IsSelected(s, ids[i]))
  }

  function UnpackedFlags(log: PackingLog, ids: seq<string>): seq<bool> {
    seq(|ids|, i requires 0 <= i < |ids| => !IsPacked(log, ids[i]))
  }

  /** The chunk has the selected text and span; if it was retained from another package
      it may go on behind them. */
  predicate Carries(log: PackingLog, item: Item, f: Fitted) {
    && item.id == f.id && item.spanStart == f.spanStart
    && (item.id in log.retained ==> f.text <= item.content && f.spanEnd <= item.spanEnd)
    && (item.id !in log.retained ==> f.text == item.content && f.spanEnd == item.spanEnd && f.clipped == item.clipped)
  }

  /** The package lists the selection in order, among retained chunks only, and its reports
      list what they should in order. */
  predicate PackageRight(al: Alphabet, log: PackingLog, s: Selection) {
    var ids := ItemIds(log.items);
    && (forall i, j | 0 <= i < j < |log.items| :: log.items[i].id != log.items[j].id)
    && (forall item | item in log.items :: IsSelected(s, item.id) || item.id in log.retained)
    && (forall f | f in s.expected :: exists item | item in log.items :: Carries(log, item, f))
    && Picks(FittedIds(s.expected), ids, SelectedFlags(s, ids))
    && Picks(log.hitIds, log.traceHits, SelectedFlags(s, log.traceHits))
    && Picks(log.skippedIds, s.skipped, UnpackedFlags(log, s.skipped))
    && Picks(log.clippedIds, ids, ClippedFlags(log.items))
    && log.tokenCount == Charged(TokenCounts(al, log.items))
  }

  lemma SelectedExactly(s: Selection, id: string)
    ensures IsSelected(s, id) <==> id in FittedIds(s.expected)
  {
    if f :| f in s.expected && f.id == id {
      var k :| 0 <= k < |s.expected| && s.expected[k] == f;
      assert FittedIds(s.expected)[k] == id;
    }
    if id in FittedIds(s.expected) {
      var k :| 0 <= k < |s.expected| && FittedIds(s.expected)[k] == id;
      assert s.expected[k] in s.expected;
    }
  }

  lemma PackedExactly(log: PackingLog, id: string)
    ensures IsPacked(log, id) <==> id in ItemIds(log.items)
  {
    if item :| item in log.items && item.id == id {
      var k :| 0 <= k < |log.items| && log.items[k] == item;
      assert ItemIds(log.items)[k] == id;
    }
    if id in ItemIds(log.items) {
      var k :| 0 <= k < |log.items| && ItemIds(log.items)[k] == id;
      assert log.items[k] in log.items;
    }
  }

  lemma FlagsAlike(log: PackingLog, s: Selection, ids: seq<string>)
    ensures SelectedFlags(s, ids) == Kept(ids, id => id in FittedIds(s.expected))
    ensures UnpackedFlags(log, ids) == Kept(ids, id => id !in ItemIds(log.items))
  {
    forall i | 0 <= i < |ids|
      ensures IsSelected(s, ids[i]) <==> ids[i] in FittedIds(s.expected)
      ensures IsPacked(log, ids[i]) <==> ids[i] in ItemIds(log.items)
    {
      SelectedExactly(s, ids[i]);
      PackedExactly(log, ids[i]);
    }
  }

  lemma ListsExactly(al: Alphabet, log: PackingLog, s: Selection)
    ensures var ids, expectedIds := ItemIds(log.items), FittedIds(s.expected);
            && (Filter(ids, id => id in expectedIds) == expectedIds <==>
                Picks(expectedIds, ids, SelectedFlags(s, ids)))
            && (log.hitIds == Filter(log.traceHits, id => id in expectedIds) <==>
                Picks(log.hitIds, log.traceHits, SelectedFlags(s, log.traceHits)))
            && (log.skippedIds == Filter(s.skipped, id => id !in ids) <==>
                Picks(log.skippedIds, s.skipped, UnpackedFlags(log, s.skipped)))
            && (log.clippedIds == ClippedItems(log.items) <==> Picks(log.clippedIds, ids, ClippedFlags(log.items)))
  {
    var ids, expectedIds := ItemIds(log.items), FittedIds(s.expected);
    FlagsAlike(log, s, ids);
    FlagsAlike(log, s, log.traceHits);
    FlagsAlike(log, s, s.skipped);
    FilterExactly(ids, id => id in expectedIds, expectedIds);
    FilterExactly(log.traceHits, id => id in expectedIds, log.hitIds);
    FilterExactly(s.skipped, id => id !in ids, log.skippedIds);
    ClippedPicks(log.items);
    if Picks(log.clippedIds, ids, ClippedFlags(log.items)) {
      PicksIsUnique(log.clippedIds, ClippedItems(log.items), ids, ClippedFlags(log.items));
    }
  }

  lemma CarriesExactly(log: PackingLog, item: Item, f: Fitted)
    ensures Carries(log, item, f) <==> Shows(item, f, f.id in log.retained)
  {
  }

  lemma DistinctChunks(items: seq<Item>)
    ensures Distinct(ItemIds(items)) <==> forall i, j | 0 <= i < j < |items| :: items[i].id != items[j].id
  {
    forall i | 0 <= i < |items| ensures ItemIds(items)[i] == items[i].id {
    }
    if Distinct(ItemIds(items)) {
      forall i, j | 0 <= i < j < |items| ensures items[i].id != items[j].id {
        assert ItemIds(items)[i] != ItemIds(items)[j];
      }
    }
  }

  /** Every chunk was selected or retained, and every selected text is carried by a chunk. */
  lemma MembersExactly(log: PackingLog, s: Selection)
    ensures (forall item | item in log.items :: IsSelected(s, item.id) || item.id in log.retained)
            <==> forall id | id in ItemIds(log.items) :: id in FittedIds(s.expected) || id in log.retained
    ensures (forall f | f in s.expected :: exists item | item in log.items :: Carries(log, item, f))
            <==> forall f | f in s.expected :: exists item | item in log.items :: Shows(item, f, f.id in log.retained)
    ensures (forall f | f in s.expected :: exists item | item in log.items :: Carries(log, item, f)) ==>
            forall id | id in FittedIds(s.expected) :: id in ItemIds(log.items)
  {
    forall item | item in log.items ensures item.id in ItemIds(log.items) {
      PackedExactly(log, item.id);
    }
    forall id ensures IsSelected(s, id) <==> id in FittedIds(s.expected) {
      SelectedExactly(s, id);
    }
    forall id | id in ItemIds(log.items) ensures exists item | item in log.items :: item.id == id {
      PackedExactly(log, id);
    }
    forall item, f | item in log.items && f in s.expected
      ensures Carries(log, item, f) <==> Shows(item, f, f.id in log.retained)
    {
      CarriesExactly(log, item, f);
    }
    forall id | id in FittedIds(s.expected) ensures exists f | f in s.expected :: f.id == id {
      SelectedExactly(s, id);
    }
  }

  lemma AgreesExactly(al: Alphabet, log: PackingLog, s: Selection)
    ensures PackingAgrees(al, log, s) <==> PackageRight(al, log, s)
  {
    DistinctChunks(log.items);
    MembersExactly(log, s);
    ListsExactly(al, log, s);
    ItemTokensAdd(al, log.items);
  }

  /** Distinct candidates, at most 4096 of them, under a positive cap, with the hits among
      them. */
  predicate InputsRight(log: PackingLog) {
    && log.cap >= 1 && |log.candidates| <= 4096
    && (forall i, j | 0 <= i < j < |log.candidates| :: log.candidates[i].id != log.candidates[j].id)
    && (forall h | h in log.traceHits :: h in CandidateIds(log.candidates))
  }

  lemma InputsExactly(log: PackingLog)
    ensures PackingInputsValid(log) <==> InputsRight(log)
  {
    forall h ensures h in CandidateIds(log.candidates) <==> exists c | c in log.candidates :: c.id == h {
      if c :| c in log.candidates && c.id == h {
        var i :| 0 <= i < |log.candidates| && log.candidates[i] == c;
        assert CandidateIds(log.candidates)[i] == h;
      }
      if h in CandidateIds(log.candidates) {
        var i :| 0 <= i < |log.candidates| && CandidateIds(log.candidates)[i] == h;
        assert log.candidates[i] in log.candidates;
      }
    }
  }

  /** The audit accepts exactly the packages that are right for the greedy selection. */
  lemma AuditExactly(al: Alphabet, log: PackingLog)
    ensures PackingInputsValid(log) && PackingAgrees(al, log, Select(al, log.cap, log.candidates, |log.candidates|))
            <==> InputsRight(log) && exists charges, s :: Greedy(al, log.cap, log.candidates, charges, s)
                                                          && PackageRight(al, log, s)
  {
    InputsExactly(log);
    if InputsRight(log) {
      var chosen := Select(al, log.cap, log.candidates, |log.candidates|);
      var charges := SelectionIsGreedy(al, log.cap, log.candidates, |log.candidates|);
      assert log.candidates[..|log.candidates|] == log.candidates;
      AgreesExactly(al, log, chosen);
      forall other, s | Greedy(al, log.cap, log.candidates, other, s) && PackageRight(al, log, s) ensures s == chosen {
        GreedyIsUnique(al, log.cap, log.candidates, charges, chosen, other, s);
      }
    }
  }

  lemma {:induction false} SameCharges(al: Alphabet, cap: int, cs: seq<Candidate>, a: seq<nat>, b: seq<nat>, n: nat)
    requires |a| == |b| == |cs| && n <= |cs|
    requires forall i | 0 <= i < |cs| :: ChargedRightly(al, cap, cs, a, i) && ChargedRightly(al, cap, cs, b, i)
    ensures a[..n] == b[..n]
  {
    if n > 0 {
      var m := n - 1;
      SameCharges(al, cap, cs, a, b, m);
      assert ChargedRightly(al, cap, cs, a, m) && ChargedRightly(al, cap, cs, b, m);
      assert a[..n] == a[..m] + [a[m]] && b[..n] == b[..m] + [b[m]];
    }
  }

  lemma FitsIsUnique(al: Alphabet, c: Candidate, charge: nat, f: Fitted, g: Fitted)
    requires Fits(al, c, charge, f) && Fits(al, c, charge, g)
    ensures f == g
  {
    assert f.text <= c.text && g.text <= c.text && |f.text| == |g.text|;
    assert f.text == c.text[..|f.text|] && g.text == c.text[..|g.text|];
  }

  /** The charges and the selection they describe are determined by the candidates. */
  lemma GreedyIsUnique(al: Alphabet, cap: int, cs: seq<Candidate>, a: seq<nat>, s: Selection, b: seq<nat>, t: Selection)
    requires Greedy(al, cap, cs, a, s) && Greedy(al, cap, cs, b, t)
    ensures s == t
  {
    SameCharges(al, cap, cs, a, b, |cs|);
    assert a[..|cs|] == a && b[..|cs|] == b;
    PicksIsUnique(s.skipped, t.skipped, CandidateIds(cs), PassedOver(al, cs, a));
    forall k | 0 <= k < |s.expected| ensures s.expected[k] == t.expected[k] {
      var i := FlaggedAt(Taken(a), |cs|, k);
      assert TakenAt(al, cs, a, s.expected, i) && TakenAt(al, cs, a, t.expected, i);
      FitsIsUnique(al, cs[i], a[i], s.expected[k], t.expected[k]);
    }
  }
}
