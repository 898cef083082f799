/** The magic number detector: the digit runs of two or more digits found by a
    left-to-right scan for a non-alphanumeric, the run and a non-alphanumeric,
    each distinct run reported once. */
module MagicNumberDetector {
  import opened Text
  import opened Patterns
  import opened Findings

  /** The literals the scan finds, in order and with repetitions: the `i`-th
      literal is the group of the `i`-th match, at least two digits with a
      non-alphanumeric character directly before and after it. */
  function MagicLiterals(content: string): (lits: seq<string>)
    ensures |lits| == |FindAll(MagicLiteral, content, 0)|
    ensures forall i :: 0 <= i < |lits| ==>
              |lits[i]| >= 2 && AllDigits(lits[i]) && DelimitedRun(content, FindAll(MagicLiteral, content, 0)[i].start, lits[i])
  {
    var spans := FindAll(MagicLiteral, content, 0);
    ScanSpansDelimited(content);
    GroupsDelimited(content);
    seq(|spans|, i requires 0 <= i < |spans| => content[spans[i].start + 1..spans[i].end - 1])
  }

  /** The group of every match is a delimited run of at least two digits. */
  lemma GroupsDelimited(content: string)
    ensures forall sp :: sp in FindAll(MagicLiteral, content, 0) ==>
              sp.start + 4 <= sp.end <= |content|
              && var lit := content[sp.start + 1..sp.end - 1];
                 |lit| >= 2 && AllDigits(lit) && DelimitedRun(content, sp.start, lit)
  {
    FindAllSound(MagicLiteral, content, 0);
    forall sp | sp in FindAll(MagicLiteral, content, 0)
      ensures sp.start + 4 <= sp.end <= |content|
              && var lit := content[sp.start + 1..sp.end - 1];
                 |lit| >= 2 && AllDigits(lit) && DelimitedRun(content, sp.start, lit)
    {
      MatchLiteral(content, sp.start, sp.end);
    }
  }

  /** The distinct magic numbers of a file. Every one occurs in the text as a
      maximal run of at least two digits with a non-alphanumeric character
      directly before and after it, so it neither starts the text nor ends it,
      and no single digit is ever reported. */
  function DetectMagicNumbers(content: string): (r: set<MagicNumber>)
    ensures forall m :: m in r ==>
              |m.literal| >= 2 && AllDigits(m.literal) && exists q :: DelimitedRun(content, q, m.literal)
  {
    var lits := MagicLiterals(content);
    var r := set lit | lit in lits :: MagicNumber(lit);
    assert forall m :: m in r ==>
             |m.literal| >= 2 && AllDigits(m.literal) && exists q :: DelimitedRun(content, q, m.literal) by {
      forall m | m in r
        ensures |m.literal| >= 2 && AllDigits(m.literal) && exists q :: DelimitedRun(content, q, m.literal)
      {
        var i :| 0 <= i < |lits| && lits[i] == m.literal;
        assert DelimitedRun(content, FindAll(MagicLiteral, content, 0)[i].start, m.literal);
      }
    }
    r
  }

  /** Every match of the scan has room for its two delimiters and a run of
      two digits. */
  lemma ScanSpansDelimited(content: string)
    ensures forall sp :: sp in FindAll(MagicLiteral, content, 0) ==> sp.start + 4 <= sp.end <= |content|
  {
    FindAllSound(MagicLiteral, content, 0);
  }

  predicate AllDigits(s: string) {
    forall k :: 0 <= k < |s| ==> IsDigit(s[k])
  }

  /** `lit` occurs in `s` at `q + 1`, with a non-alphanumeric character at `q`
      and another right after it. */
  predicate DelimitedRun(s: string, q: nat, lit: string) {
    && q + |lit| + 2 <= |s|
    && !IsAlnum(s[q]) && HasAt(s, q + 1, lit) && !IsAlnum(s[q + 1 + |lit|])
  }

  /** The literal of the match from `q` to `e`. */
  lemma MatchLiteral(s: string, q: nat, e: nat)
    requires q <= |s| && MagicLiteralAt(s, q) == Some(e)
    ensures var lit := s[q + 1..e - 1]; |lit| >= 2 && AllDigits(lit) && DelimitedRun(s, q, lit)
  {
    var lit := s[q + 1..e - 1];
    assert forall k :: 0 <= k < |lit| ==> lit[k] == s[q + 1 + k];
    assert s[q + 1..q + 1 + |lit|] == lit;
  }

  /** A run of at least two digits that sits in the text with a delimiter on
      both sides is reported, unless its leading delimiter is the trailing
      delimiter of the previous match, which the scan has already consumed. */
  lemma MagicNumbersComplete(content: string, q: nat, lit: string)
    requires DelimitedRun(content, q, lit) && |lit| >= 2 && AllDigits(lit)
    ensures MagicNumber(lit) in DetectMagicNumbers(content) || DelimiterConsumed(content, q)
  {
    var i := CoveringMatch(content, q, lit);
    if FindAll(MagicLiteral, content, 0)[i].start == q {
      RunReported(content, q, lit, i);
    } else {
      DelimiterOfMatch(content, q, i);
    }
  }

  /** A run whose match is the `i`-th of the scan is reported. */
  lemma RunReported(content: string, q: nat, lit: string, i: nat)
    requires DelimitedRun(content, q, lit) && i < |FindAll(MagicLiteral, content, 0)|
    requires FindAll(MagicLiteral, content, 0)[i] == Span(q, q + |lit| + 2)
    ensures MagicNumber(lit) in DetectMagicNumbers(content)
  {
    LiteralOfMatch(content, i);
    RunText(content, q, lit);
    var lits := MagicLiterals(content);
    assert lits[i] == lit;
    InLiterals(lits, i);
    ReportedLiterals(content);
  }

  lemma RunText(content: string, q: nat, lit: string)
    requires DelimitedRun(content, q, lit)
    ensures content[q + 1..q + |lit| + 1] == lit
  {
  }


  /** The `i`-th match of the scan ending right after `q` consumes the
      delimiter at `q`. */
  lemma DelimiterOfMatch(content: string, q: nat, i: nat)
    requires i < |FindAll(MagicLiteral, content, 0)| && FindAll(MagicLiteral, content, 0)[i].end == q + 1
    ensures DelimiterConsumed(content, q)
  {
    assert FindAll(MagicLiteral, content, 0)[i] in FindAll(MagicLiteral, content, 0);
  }

  /** A delimited run of two or more digits is a match of the pattern, from
      its leading delimiter to its trailing one. */
  lemma RunMatches(content: string, q: nat, lit: string)
    requires DelimitedRun(content, q, lit) && |lit| >= 2 && AllDigits(lit)
    ensures MagicLiteralAt(content, q) == Some(q + |lit| + 2)
  {
    forall k | q < k < q + |lit| + 1 ensures IsDigit(content[k]) {
      assert content[k] == content[q + 1..q + 1 + |lit|][k - q - 1];
    }
    MagicLiteralMatches(content, q, q + |lit| + 2);
  }

  /** The character at `q` is the trailing delimiter of a match of the scan. */
  predicate DelimiterConsumed(content: string, q: nat) {
    exists sp :: sp in FindAll(MagicLiteral, content, 0) && sp.end == q + 1
  }

  /** A consumed delimiter opens no match: the scan resumes after it, so the
      run behind it is not matched from there. */
  lemma ConsumedNotMatched(content: string, q: nat)
    requires DelimiterConsumed(content, q)
    ensures forall sp :: sp in FindAll(MagicLiteral, content, 0) ==> sp.start != q
  {
    var spans := FindAll(MagicLiteral, content, 0);
    FindAllOrdered(MagicLiteral, content, 0);
    ScanSpansDelimited(content);
    var consumed :| consumed in spans && consumed.end == q + 1;
    forall sp | sp in spans
      ensures sp.start != q
    {
      if sp != consumed {
        OrderedApart(spans, sp, consumed);
      }
    }
  }

  /** The literal of every match of the scan is reported. */
  lemma LiteralReported(content: string, i: nat)
    requires i < |FindAll(MagicLiteral, content, 0)|
    ensures var sp := FindAll(MagicLiteral, content, 0)[i];
            && sp.start + 4 <= sp.end <= |content|
            && MagicNumber(content[sp.start + 1..sp.end - 1]) in DetectMagicNumbers(content)
  {
    var sp := FindAll(MagicLiteral, content, 0)[i];
    ScanSpansDelimited(content);
    assert sp in FindAll(MagicLiteral, content, 0);
    var lits := MagicLiterals(content);
    LiteralOfMatch(content, i);
    InLiterals(lits, i);
    ReportedLiterals(content);
  }

  /** The `i`-th literal is the text of the `i`-th match without its delimiters. */
  lemma LiteralOfMatch(content: string, i: nat)
    requires i < |FindAll(MagicLiteral, content, 0)|
    ensures var sp := FindAll(MagicLiteral, content, 0)[i];
            sp.start + 4 <= sp.end <= |content| && MagicLiterals(content)[i] == content[sp.start + 1..sp.end - 1]
  {
    ScanSpansDelimited(content);
    assert FindAll(MagicLiteral, content, 0)[i] in FindAll(MagicLiteral, content, 0);
  }

  /** The magic numbers are the literals of the scan. */
  lemma ReportedLiterals(content: string)
    ensures DetectMagicNumbers(content) == set lit | lit in MagicLiterals(content) :: MagicNumber(lit)
  {
  }

  lemma InLiterals(lits: seq<string>, i: nat)
    requires i < |lits|
    ensures MagicNumber(lits[i]) in set lit | lit in lits :: MagicNumber(lit)
  {
    assert lits[i] in lits;
  }

  /** The match of the scan that covers a position where a delimited run
      starts: the match of that run itself, or the previous match, whose
      trailing delimiter is the run's leading one. */
  lemma CoveringMatch(content: string, q: nat, lit: string) returns (i: nat)
    requires DelimitedRun(content, q, lit) && |lit| >= 2 && AllDigits(lit)
    ensures i < |FindAll(MagicLiteral, content, 0)|
    ensures var sp := FindAll(MagicLiteral, content, 0)[i];
            (sp.start == q && sp.end == q + |lit| + 2) || (sp.start < q && sp.end == q + 1)
  {
    RunMatches(content, q, lit);
    var spans := FindAll(MagicLiteral, content, 0);
    FindAllCovers(MagicLiteral, content, 0, q);
    i :| 0 <= i < |spans| && spans[i].start <= q < spans[i].end;
    assert MagicLiteralAt(content, spans[i].start) == Some(spans[i].end) by {
      FindAllSound(MagicLiteral, content, 0);
      assert spans[i] in spans;
    }
    if spans[i].start < q {
      InsideMatch(content, spans[i].start, spans[i].end, q);
    }
  }

  /** A match holds no non-alphanumeric character except its two delimiters. */
  lemma InsideMatch(s: string, a: nat, b: nat, q: nat)
    requires a <= |s| && MagicLiteralAt(s, a) == Some(b)
    requires a < q < b && q <= |s| && MagicLiteralAt(s, q).Some?
    ensures q == b - 1
  {
  }

  /** In `(12,34)` the comma closes the match of `12`, so `34` has no leading
      delimiter left and only `12` is reported. */
  lemma ConsumedDelimiterExample()
    ensures DetectMagicNumbers("(12,34)") == {MagicNumber("12")}
  {
    var s := "(12,34)";
    assert MagicLiteralAt(s, 0) == Some(4);
    assert MagicLiteralAt(s, 4) == None;
    assert MagicLiteralAt(s, 5) == None;
    assert MagicLiteralAt(s, 6) == None;
    assert FindAll(MagicLiteral, s, 0) == [Span(0, 4)];
    var lits := MagicLiterals(s);
    assert |lits| == 1 && lits[0] == s[1..3] == "12";
    assert lits == ["12"];
  }

  /** Runs at the very start and the very end of the text have no delimiter on
      that side and are not reported. */
  lemma TextEdgesExample()
    ensures DetectMagicNumbers("12+345") == {}
  {
    var s := "12+345";
    assert FindAll(MagicLiteral, s, 0) == [];
    assert MagicLiterals(s) == [];
  }
}
