/** The tokenizer that prices text: an ideograph, a word with an optional
    apostrophe part, a number with an optional fraction, or any other character
    that is not white space. */
module Lexer {

  /** The two character classes taken from Unicode tables; any choice will do. */
  datatype Alphabet = Alphabet(isDigit: char -> bool, isSpace: char -> bool)

  datatype Token = Token(start: nat, end: nat)

  predicate IsIdeograph(c: char) {
    '\U{4e00}' <= c <= '\U{9fff}'
  }

  predicate IsLetter(c: char) {
    'A' <= c <= 'Z' || 'a' <= c <= 'z'
  }

  /** Where a run of characters of a class ends. */
  function RunEnd(text: string, p: nat, inClass: char -> bool): (end: nat)
    requires p <= |text|
    ensures p <= end <= |text|
    ensures p < |text| && inClass(text[p]) ==> p < end
    decreases |text| - p
  {
    if p < |text| && inClass(text[p]) then RunEnd(text, p + 1, inClass) else p
  }

  /** A run, then a joining character and a second run if there is one. */
  function JoinedRunEnd(text: string, p: nat, inClass: char -> bool, joiner: char): (end: nat)
    requires p <= |text|
    ensures p <= end <= |text|
    ensures p < |text| && inClass(text[p]) ==> p < end
  {
    var r := RunEnd(text, p, inClass);
    if r + 1 < |text| && text[r] == joiner && inClass(text[r + 1]) then RunEnd(text, r + 1, inClass) else r
  }

  /** The end of the token that starts at p, or p if none does. */
  function MatchEnd(al: Alphabet, text: string, p: nat): (end: nat)
    requires p < |text|
    ensures p <= end <= |text|
  {
    var c := text[p];
    if IsIdeograph(c) then p + 1
    else if IsLetter(c) then JoinedRunEnd(text, p, IsLetter, '\'')
    else if al.isDigit(c) then JoinedRunEnd(text, p, al.isDigit, '.')
    else if !al.isSpace(c) then p + 1
    else p
  }

  /** All tokens from position p on. */
  function TokensFrom(al: Alphabet, text: string, p: nat): seq<Token>
    requires p <= |text|
    decreases |text| - p
  {
    if p == |text| then [] else
      var end := MatchEnd(al, text, p);
      if end == p then TokensFrom(al, text, p + 1) else [Token(p, end)] + TokensFrom(al, text, end)
  }

  function Tokens(al: Alphabet, text: string): seq<Token> {
    TokensFrom(al, text, 0)
  }

  predicate Ordered(ts: seq<Token>, low: nat, high: nat) {
    && (forall i | 0 <= i < |ts| :: low <= ts[i].start < ts[i].end <= high)
    && (forall i, j | 0 <= i < j < |ts| :: ts[i].end <= ts[j].start)
  }

  /** Tokens are non-empty, in order and disjoint. */
  lemma {:induction false} TokensOrdered(al: Alphabet, text: string, p: nat)
    requires p <= |text|
    ensures Ordered(TokensFrom(al, text, p), p, |text|)
    decreases |text| - p
  {
    if p < |text| {
      var end := MatchEnd(al, text, p);
      if end == p {
        TokensOrdered(al, text, p + 1);
        assert TokensFrom(al, text, p) == TokensFrom(al, text, p + 1);
      } else {
        TokensOrdered(al, text, end);
        var ts, rest := TokensFrom(al, text, p), TokensFrom(al, text, end);
        assert ts == [Token(p, end)] + rest;
      }
    }
  }

  /** Only white space is left between tokens. */
  lemma {:induction false} UncoveredIsSpace(al: Alphabet, text: string, p: nat, k: nat)
    requires p <= k < |text|
    requires forall t | t in TokensFrom(al, text, p) :: !(t.start <= k < t.end)
    ensures al.isSpace(text[k])
    decreases |text| - p
  {
    var end := MatchEnd(al, text, p);
    if end == p {
      if k > p {
        UncoveredIsSpace(al, text, p + 1, k);
      }
    } else {
      var ts := TokensFrom(al, text, p);
      assert ts[0] == Token(p, end) && ts[0] in ts;
      assert ts[1..] == TokensFrom(al, text, end);
      forall t | t in ts[1..] ensures t in ts {
      }
      UncoveredIsSpace(al, text, end, k);
    }
  }

  // ---- prefix stability ----------------------------------------------------

  lemma {:induction false} RunEndOfPrefix(text: string, p: nat, inClass: char -> bool, e: nat)
    requires p <= e <= |text|
    ensures RunEnd(text[..e], p, inClass) ==
            if RunEnd(text, p, inClass) <= e then RunEnd(text, p, inClass) else e
    decreases |text| - p
  {
    if p < e && inClass(text[p]) {
      RunEndOfPrefix(text, p + 1, inClass, e);
    }
  }

  lemma JoinedRunEndOfPrefix(text: string, p: nat, inClass: char -> bool, joiner: char, e: nat)
    requires p <= e <= |text| && JoinedRunEnd(text, p, inClass, joiner) <= e
    ensures JoinedRunEnd(text[..e], p, inClass, joiner) == JoinedRunEnd(text, p, inClass, joiner)
  {
    var r := RunEnd(text, p, inClass);
    if r + 1 < |text| && text[r] == joiner && inClass(text[r + 1]) {
      RunEndOfPrefix(text, p, inClass, e);
      RunEndOfPrefix(text, r + 1, inClass, e);
    } else {
      RunEndOfPrefix(text, p, inClass, e);
    }
  }

  /** A token that ends by e is the same token when the text is cut at e. */
  lemma MatchEndOfPrefix(al: Alphabet, text: string, p: nat, e: nat)
    requires p < e <= |text| && MatchEnd(al, text, p) <= e
    ensures MatchEnd(al, text[..e], p) == MatchEnd(al, text, p)
  {
    var c := text[p];
    assert text[..e][p] == c;
    if IsIdeograph(c) {
    } else if IsLetter(c) {
      JoinedRunEndOfPrefix(text, p, IsLetter, '\'', e);
    } else if al.isDigit(c) {
      JoinedRunEndOfPrefix(text, p, al.isDigit, '.', e);
    }
  }

  /** Cutting a text at the end of its n-th token and tokenising again yields
      exactly its first n tokens. */
  lemma {:induction false} PrefixStable(al: Alphabet, text: string, p: nat, n: nat)
    requires p <= |text| && 1 <= n <= |TokensFrom(al, text, p)|
    ensures var e := TokensFrom(al, text, p)[n - 1].end;
            && p <= e <= |text|
            && TokensFrom(al, text[..e], p) == TokensFrom(al, text, p)[..n]
    decreases |text| - p
  {
    var ts := TokensFrom(al, text, p);
    var e := ts[n - 1].end;
    TokensOrdered(al, text, p);
    assert ts[0].end <= e && ts[n - 1].end <= |text|;
    var end := MatchEnd(al, text, p);
    if end == p {
      MatchEndOfPrefix(al, text, p, e);
      PrefixStable(al, text, p + 1, n);
    } else {
      assert ts[0] == Token(p, end);
      MatchEndOfPrefix(al, text, p, e);
      if n == 1 {
        assert |text[..e]| == end;
        assert ts[..1] == [Token(p, end)];
      } else {
        TailOf(ts, TokensFrom(al, text, end), n);
        PrefixStable(al, text, end, n - 1);
      }
    }
  }

  lemma TailOf(ts: seq<Token>, rest: seq<Token>, n: nat)
    requires ts != [] && ts == [ts[0]] + rest && 1 < n <= |ts|
    ensures rest[n - 2] == ts[n - 1] && ts[..n] == [ts[0]] + rest[..n - 1]
  {
  }

  /** Cutting elsewhere can change the count: a number loses its fraction. */
  lemma CuttingInsideATokenCanAddTokens(al: Alphabet)
    requires forall c: char :: al.isDigit(c) <==> '0' <= c <= '9'
    requires !al.isSpace('.')
    ensures |Tokens(al, "3.1")| == 1 && |Tokens(al, "3.1"[..2])| == 2
  {
    var whole, cut := "3.1", "3.1"[..2];
    assert RunEnd(whole, 0, al.isDigit) == 1;
    assert RunEnd(whole, 2, al.isDigit) == 3;
    assert MatchEnd(al, whole, 0) == 3;
    assert TokensFrom(al, whole, 3) == [];
    assert RunEnd(cut, 0, al.isDigit) == 1;
    assert MatchEnd(al, cut, 0) == 1;
    assert MatchEnd(al, cut, 1) == 2;
    assert TokensFrom(al, cut, 2) == [];
    assert TokensFrom(al, cut, 1) == [Token(1, 2)];
  }

  // ---- what a token is -----------------------------------------------------

  predicate AllIn(s: string, inClass: char -> bool) {
    s != "" && forall k | 0 <= k < |s| :: inClass(s[k])
  }

  /** A run of the class, or two with the joining character between them; the first has
      length k. */
  predicate JoinedAt(s: string, inClass: char -> bool, joiner: char, k: nat)
    requires k <= |s|
  {
    AllIn(s[..k], inClass) && (k == |s| || (s[k] == joiner && AllIn(s[k + 1..], inClass)))
  }

  predicate Joined(s: string, inClass: char -> bool, joiner: char) {
    exists k | 0 <= k <= |s| :: JoinedAt(s, inClass, joiner, k)
  }

  /** The letters of the Latin alphabet, by their code points. */
  predicate Alphabetic(c: char) {
    65 <= c as int <= 90 || 97 <= c as int <= 122
  }

  /** One ideograph, a word with an optional apostrophe part, a number with an optional
      fraction, or one other character that is not white space. */
  predicate TokenForm(al: Alphabet, s: string) {
    s != "" &&
    if '\U{4e00}' <= s[0] <= '\U{9fff}' then |s| == 1
    else if Alphabetic(s[0]) then Joined(s, Alphabetic, '\'')
    else if al.isDigit(s[0]) then Joined(s, al.isDigit, '.')
    else |s| == 1 && !al.isSpace(s[0])
  }

  lemma {:induction false} RunEndExactly(text: string, p: nat, inClass: char -> bool)
    requires p <= |text|
    ensures var end := RunEnd(text, p, inClass);
            && (forall k | p <= k < end :: inClass(text[k]))
            && (end < |text| ==> !inClass(text[end]))
    decreases |text| - p
  {
    if p < |text| && inClass(text[p]) {
      RunEndExactly(text, p + 1, inClass);
    }
  }

  lemma JoinedRunHasForm(text: string, p: nat, inClass: char -> bool, joiner: char)
    requires p < |text| && inClass(text[p])
    ensures Joined(text[p..JoinedRunEnd(text, p, inClass, joiner)], inClass, joiner)
  {
    var r, end := RunEnd(text, p, inClass), JoinedRunEnd(text, p, inClass, joiner);
    var s := text[p..end];
    RunEndExactly(text, p, inClass);
    assert s[..r - p] == text[p..r];
    if end != r {
      RunEndExactly(text, r + 1, inClass);
      assert s[r - p + 1..] == text[r + 1..end];
    }
    assert JoinedAt(s, inClass, joiner, r - p);
  }

  /** No longer slice from the same start has the form. */
  lemma JoinedRunIsMaximal(text: string, p: nat, inClass: char -> bool, joiner: char, q: nat)
    requires p < |text| && JoinedRunEnd(text, p, inClass, joiner) < q <= |text|
    ensures !Joined(text[p..q], inClass, joiner)
  {
    var r, s := RunEnd(text, p, inClass), text[p..q];
    RunEndExactly(text, p, inClass);
    forall k | 0 <= k <= |s| ensures !JoinedAt(s, inClass, joiner, k) {
      SliceChars(text, p, q, k);
      assert s[r - p] == text[r] && !inClass(text[r]);
      assert k < |s| ==> s[k] == text[p + k];
      if p + k == r && r + 1 < |text| && text[r] == joiner && inClass(text[r + 1]) {
        RunEndExactly(text, r + 1, inClass);
        var e := RunEnd(text, r + 1, inClass);
        assert s[k + 1..][e - r - 1] == text[e];
      }
    }
  }

  lemma SliceChars(text: string, p: nat, q: nat, k: nat)
    requires p <= q <= |text| && k <= q - p
    ensures forall j | 0 <= j < k :: text[p..q][..k][j] == text[p + j]
    ensures k < q - p ==> text[p..q][k + 1..] == text[p + k + 1..q]
  {
  }

  lemma AlphabeticExactly(c: char)
    ensures Alphabetic(c) <==> IsLetter(c)
  {
  }

  lemma WordsAlike(s: string, joiner: char)
    ensures Joined(s, Alphabetic, joiner) <==> Joined(s, IsLetter, joiner)
  {
    forall c: char ensures Alphabetic(c) <==> IsLetter(c) {
      AlphabeticExactly(c);
    }
    forall k | 0 <= k <= |s| ensures JoinedAt(s, Alphabetic, joiner, k) <==> JoinedAt(s, IsLetter, joiner, k) {
    }
  }

  /** The characters that start a token. */
  lemma StartsToken(al: Alphabet, text: string, p: nat)
    requires p < |text|
    ensures MatchEnd(al, text, p) > p <==> TokenForm(al, text[p..p + 1])
  {
    var s := text[p..p + 1];
    AlphabeticExactly(s[0]);
    WordsAlike(s, '\'');
    assert s[..1] == s;
    assert AllIn(s, IsLetter) ==> JoinedAt(s, IsLetter, '\'', 1);
    assert AllIn(s, al.isDigit) ==> JoinedAt(s, al.isDigit, '.', 1);
  }

  lemma MatchHasForm(al: Alphabet, text: string, p: nat)
    requires p < |text| && MatchEnd(al, text, p) > p
    ensures TokenForm(al, text[p..MatchEnd(al, text, p)])
  {
    var s := text[p..MatchEnd(al, text, p)];
    assert s[0] == text[p];
    AlphabeticExactly(text[p]);
    WordsAlike(s, '\'');
    if !IsIdeograph(text[p]) && IsLetter(text[p]) {
      JoinedRunHasForm(text, p, IsLetter, '\'');
    } else if !IsIdeograph(text[p]) && al.isDigit(text[p]) {
      JoinedRunHasForm(text, p, al.isDigit, '.');
    }
  }

  lemma MatchIsMaximal(al: Alphabet, text: string, p: nat, q: nat)
    requires p < |text| && p < MatchEnd(al, text, p) < q <= |text|
    ensures !TokenForm(al, text[p..q])
  {
    var s := text[p..q];
    assert s[0] == text[p];
    AlphabeticExactly(text[p]);
    WordsAlike(s, '\'');
    if !IsIdeograph(text[p]) && IsLetter(text[p]) {
      JoinedRunIsMaximal(text, p, IsLetter, '\'', q);
    } else if !IsIdeograph(text[p]) && al.isDigit(text[p]) {
      JoinedRunIsMaximal(text, p, al.isDigit, '.', q);
    }
  }

  /** The slice is the longest token from its start. */
  ghost predicate LongestToken(al: Alphabet, text: string, t: Token) {
    && t.start < t.end <= |text| && TokenForm(al, text[t.start..t.end])
    && forall q | t.end < q <= |text| :: !TokenForm(al, text[t.start..q])
  }

  /** Longest tokens in order from p on, with nothing between them that starts one. */
  ghost predicate Tokenizes(al: Alphabet, text: string, p: nat, ts: seq<Token>) {
    && Ordered(ts, p, |text|)
    && (forall i | 0 <= i < |ts| :: LongestToken(al, text, ts[i]))
    && NothingMissed(al, text, p, ts)
  }

  ghost predicate NothingMissed(al: Alphabet, text: string, p: nat, ts: seq<Token>) {
    forall k | p <= k < |text| && TokenForm(al, text[k..k + 1]) :: Inside(ts, k)
  }

  predicate Inside(ts: seq<Token>, k: nat) {
    exists i | 0 <= i < |ts| :: ts[i].start <= k < ts[i].end
  }

  lemma MatchIsLongest(al: Alphabet, text: string, p: nat)
    requires p < |text| && MatchEnd(al, text, p) > p
    ensures LongestToken(al, text, Token(p, MatchEnd(al, text, p)))
    ensures forall end | LongestToken(al, text, Token(p, end)) :: end == MatchEnd(al, text, p)
  {
    MatchHasForm(al, text, p);
    forall q | MatchEnd(al, text, p) < q <= |text| ensures !TokenForm(al, text[p..q]) {
      MatchIsMaximal(al, text, p, q);
    }
  }

  lemma TokenizesSkip(al: Alphabet, text: string, p: nat, ts: seq<Token>)
    requires p < |text| && MatchEnd(al, text, p) == p
    ensures Tokenizes(al, text, p, ts) <==> Tokenizes(al, text, p + 1, ts)
  {
    StartsToken(al, text, p);
    if Tokenizes(al, text, p, ts) {
      forall i | 0 <= i < |ts| ensures ts[i].start != p {
        assert LongestToken(al, text, ts[i]);
        if ts[i].start == p {
          FormStarts(al, text, p, ts[i].end);
        }
      }
    }
  }

  lemma FormStarts(al: Alphabet, text: string, p: nat, q: nat)
    requires p < q <= |text| && TokenForm(al, text[p..q])
    ensures MatchEnd(al, text, p) > p
  {
    var s := text[p..q];
    assert s[0] == text[p];
    AlphabeticExactly(text[p]);
  }

  lemma InsideCons(t: Token, rest: seq<Token>, k: nat)
    ensures Inside([t] + rest, k) <==> t.start <= k < t.end || Inside(rest, k)
  {
    var ts := [t] + rest;
    if i :| 0 <= i < |ts| && ts[i].start <= k < ts[i].end {
      assert i > 0 ==> rest[i - 1] == ts[i];
    }
    if i :| 0 <= i < |rest| && rest[i].start <= k < rest[i].end {
      assert ts[i + 1] == rest[i];
    }
    assert ts[0] == t;
  }

  lemma MissedCons(al: Alphabet, text: string, p: nat, t: Token, rest: seq<Token>)
    requires t.start == p < t.end && Ordered([t] + rest, p, |text|)
    ensures NothingMissed(al, text, p, [t] + rest) <==> NothingMissed(al, text, t.end, rest)
  {
    var ts := [t] + rest;
    forall k: nat ensures Inside(ts, k) <==> p <= k < t.end || Inside(rest, k) {
      InsideCons(t, rest, k);
    }
    if NothingMissed(al, text, p, ts) {
      forall k | t.end <= k < |text| && TokenForm(al, text[k..k + 1]) ensures Inside(rest, k) {
        assert Inside(ts, k);
      }
    }
  }

  lemma OrderedCons(t: Token, rest: seq<Token>, p: nat, high: nat)
    requires t.start == p < t.end
    ensures Ordered([t] + rest, p, high) <==> t.end <= high && Ordered(rest, t.end, high)
  {
    var ts := [t] + rest;
    assert ts[0] == t && forall i | 0 <= i < |rest| :: ts[i + 1] == rest[i];
    if t.end <= high && Ordered(rest, t.end, high) {
      forall i, j | 0 <= i < j < |ts| ensures ts[i].end <= ts[j].start {
        assert ts[j] == rest[j - 1];
      }
    }
  }

  lemma LongestCons(al: Alphabet, text: string, t: Token, rest: seq<Token>)
    requires LongestToken(al, text, t)
    ensures (forall i | 0 <= i < |rest| + 1 :: LongestToken(al, text, ([t] + rest)[i]))
            <==> forall i | 0 <= i < |rest| :: LongestToken(al, text, rest[i])
  {
    var ts := [t] + rest;
    assert ts[0] == t && forall i | 0 <= i < |rest| :: ts[i + 1] == rest[i];
    if forall i | 0 <= i < |ts| :: LongestToken(al, text, ts[i]) {
      forall i | 0 <= i < |rest| ensures LongestToken(al, text, rest[i]) {
        assert LongestToken(al, text, ts[i + 1]);
      }
    }
  }

  lemma TokenizesCons(al: Alphabet, text: string, p: nat, t: Token, rest: seq<Token>)
    requires t.start == p && LongestToken(al, text, t)
    ensures Tokenizes(al, text, p, [t] + rest) <==> Tokenizes(al, text, t.end, rest)
  {
    var ts := [t] + rest;
    OrderedCons(t, rest, p, |text|);
    if Ordered(ts, p, |text|) {
      MissedCons(al, text, p, t, rest);
    }
    LongestCons(al, text, t, rest);
  }

  lemma FirstIsMatch(al: Alphabet, text: string, p: nat, ts: seq<Token>)
    requires p < |text| && MatchEnd(al, text, p) > p && Tokenizes(al, text, p, ts)
    ensures ts != [] && ts[0] == Token(p, MatchEnd(al, text, p))
  {
    StartsToken(al, text, p);
    assert Inside(ts, p);
    var i :| 0 <= i < |ts| && ts[i].start <= p < ts[i].end;
    assert LongestToken(al, text, ts[0]);
    MatchIsLongest(al, text, p);
  }

  lemma {:induction false} TokensFromExactly(al: Alphabet, text: string, p: nat, ts: seq<Token>)
    requires p <= |text|
    ensures ts == TokensFrom(al, text, p) <==> Tokenizes(al, text, p, ts)
    decreases |text| - p
  {
    if p == |text| {
    } else if MatchEnd(al, text, p) == p {
      TokenizesSkip(al, text, p, ts);
      TokensFromExactly(al, text, p + 1, ts);
    } else {
      var end := MatchEnd(al, text, p);
      MatchIsLongest(al, text, p);
      TokensFromExactly(al, text, end, TokensFrom(al, text, end));
      TokenizesCons(al, text, p, Token(p, end), TokensFrom(al, text, end));
      if Tokenizes(al, text, p, ts) {
        FirstIsMatch(al, text, p, ts);
        assert ts == [ts[0]] + ts[1..];
        TokenizesCons(al, text, p, ts[0], ts[1..]);
        TokensFromExactly(al, text, end, ts[1..]);
      }
    }
  }

  /** The tokens of a text are the one list of longest tokens, in order, outside of which
      no token starts. */
  lemma TokensExactly(al: Alphabet, text: string, ts: seq<Token>)
    ensures ts == Tokens(al, text) <==> Tokenizes(al, text, 0, ts)
  {
    TokensFromExactly(al, text, 0, ts);
  }
}
