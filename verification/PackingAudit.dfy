/** The audit of a package: select again from the declared candidates, and compare. */
module PackingAudit {
  import opened Lexer
  import opened Packing
  import opened PackingOutcomes

  method SelectCandidates(al: Alphabet, cap: int, cs: seq<Candidate>) returns (s: Selection)
    ensures s == Select(al, cap, cs, |cs|)
  {
    var expected: seq<Fitted>, skipped: seq<string>, used := [], [], 0;
    for k := 0 to |cs|
      invariant Selection(expected, skipped, used) == Select(al, cap, cs, k)
    {
      var c := cs[k];
      var tokens := Tokens(al, c.text);
      var remaining := cap - used;
      var clipped := |tokens| > remaining;
      if |tokens| == 0 || remaining <= 0 || (clipped && expected != []) {
        if |tokens| > remaining {
          skipped := skipped + [c.id];
        }
        continue;
      }
      var end := if clipped then EndOfToken(al, c.text, remaining) else |c.text|;
      var spanEnd := if clipped then c.spanStart + end else c.spanEnd;
      if clipped && (c.spanStart < 0 || spanEnd > c.spanEnd) {
        skipped := skipped + [c.id];
        continue;
      }
      expected := expected + [Fitted(c.id, c.text[..end], c.spanStart, spanEnd, clipped)];
      used := used + if clipped then remaining else |tokens|;
    }
    s := Selection(expected, skipped, used);
  }

  method AuditPackingSelection(al: Alphabet, log: PackingLog) returns (valid: bool)
    ensures valid <==> PackingInputsValid(log)
                       && PackingAgrees(al, log, Select(al, log.cap, log.candidates, |log.candidates|))
    ensures valid ==> PackageSound(al, log)
    ensures valid <==> InputsRight(log) && exists charges, s :: Greedy(al, log.cap, log.candidates, charges, s)
                                                               && PackageRight(al, log, s)
  {
    AuditExactly(al, log);
    valid := PackingInputsValid(log);
    if valid {
      var s := SelectCandidates(al, log.cap, log.candidates);
      valid := PackingAgrees(al, log, s);
      if valid {
        AcceptedPackageIsSound(al, log);
      }
    }
  }
}
