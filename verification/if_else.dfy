/** The long if/else-if chain detector: every if/else-if chain is scanned for
    `else if` occurrences, and a chain with at least `threshold` of them is
    reported with that count and its first 200 characters. */
module IfElseDetector {
  import opened Text
  import opened Patterns
  import opened Findings

  /** The number of non-overlapping `else if` occurrences in a chain: it is
      positive exactly when the chain holds `else`, whitespace and `if`. */
  function ElseIfCount(chain: string): (n: nat)
    ensures n > 0 <==> exists q, b :: ElseIfWords(chain, q, b)
  {
    var spans := FindAll(ElseIf, chain, 0);
    assert (exists q, b :: ElseIfWords(chain, q, b)) ==> |spans| > 0 by {
      if exists q, b :: ElseIfWords(chain, q, b) {
        var q, b :| ElseIfWords(chain, q, b);
        ElseIfsAllCounted(chain, q, b);
      }
    }
    assert |spans| > 0 ==> exists q, b :: ElseIfWords(chain, q, b) by {
      if |spans| > 0 {
        assert spans[0] in spans;
        SpanMatches(ElseIf, chain, spans[0]);
        ElseIfSpan(chain, spans[0].start, spans[0].end);
      }
    }
    |spans|
  }

  /** The if/else-if chains of a file, leftmost first. */
  function IfChains(content: string): seq<string> {
    Matches(IfChain, content)
  }

  method DetectLongIfElse(content: string, threshold: int) returns (longChains: seq<Finding>)
    ensures longChains == FlagBlocks(LongIfElseChain, IfChains(content), ElseIfCount, threshold)
  {
    var chains := IfChains(content);
    longChains := [];
    for i := 0 to |chains|
      invariant longChains == FlagBlocks(LongIfElseChain, chains[..i], ElseIfCount, threshold)
    {
      var chain := chains[i];
      var count := ElseIfCount(chain);
      FlagBlocksStep(LongIfElseChain, chains, ElseIfCount, threshold, i);
      if count >= threshold {
        longChains := longChains + [Finding(LongIfElseChain, count, Excerpt(chain))];
      }
    }
    assert chains[..|chains|] == chains;
  }

  /** A chain is reported exactly when its `else if` count reaches the
      threshold, with that count as metric and its first 200 characters as
      excerpt. */
  lemma IfElseReportedIff(content: string, threshold: int)
    ensures forall f :: f in FlagBlocks(LongIfElseChain, IfChains(content), ElseIfCount, threshold) ==>
              exists c :: c in IfChains(content) && ElseIfCount(c) >= threshold
                          && f == Finding(LongIfElseChain, ElseIfCount(c), Excerpt(c))
    ensures forall c :: c in IfChains(content) && ElseIfCount(c) >= threshold ==>
              Finding(LongIfElseChain, ElseIfCount(c), Excerpt(c))
                in FlagBlocks(LongIfElseChain, IfChains(content), ElseIfCount, threshold)
  {
    FlagBlocksSpec(LongIfElseChain, IfChains(content), ElseIfCount, threshold);
  }

  /** Every chain starts with `if` and ends with the `}` that closes it, and
      that `}` closes an empty body: a `{` followed by whitespace only. */
  lemma IfChainsShape(content: string)
    ensures forall c :: c in IfChains(content) ==> ChainText(c)
  {
    var spans := FindAll(IfChain, content, 0);
    var chains := IfChains(content);
    forall c | c in chains
      ensures ChainText(c)
    {
      var i :| 0 <= i < |chains| && chains[i] == c;
      var sp := spans[i];
      assert IfChainAt(content, sp.start) == Some(sp.end) by {
        FindAllSound(IfChain, content, 0);
        assert sp in spans;
      }
      IfChainText(content, sp.start, sp.end);
    }
  }

  /** `c` starts with `if` and ends with `{`, optional whitespace and `}`. */
  predicate ChainText(c: string) {
    |c| > 2 && HasAt(c, 0, "if") && exists o :: 2 < o < |c| && EmptyBody(c, o, |c|)
  }

  lemma IfChainText(content: string, q: nat, e: nat)
    requires q <= |content| && IfChainAt(content, q) == Some(e)
    ensures ChainText(content[q..e])
  {
    var c := content[q..e];
    var o :| q + 2 < o && EmptyBody(content, o, e);
    HasAtSlice(content, q, e, "if");
    assert EmptyBody(c, o - q, |c|) by {
      forall k | o - q < k < |c| - 1 ensures IsSpace(c[k]) {
        assert c[k] == content[q + k];
      }
    }
  }

  /** A text with a chain holds an empty brace body: the pattern finds no
      chain at all, however many `if` and `else if` it holds, in a text
      without one. */
  lemma ChainsNeedEmptyBody(content: string)
    ensures IfChains(content) != [] ==> exists o, e :: EmptyBody(content, o, e)
  {
    var spans := FindAll(IfChain, content, 0);
    if spans != [] {
      assert IfChainAt(content, spans[0].start) == Some(spans[0].end) by {
        FindAllSound(IfChain, content, 0);
        assert spans[0] in spans;
      }
    }
  }

  /** Every counted occurrence is `else`, whitespace only, and `if`. */
  lemma CountedElseIfsAreElseIf(chain: string)
    ensures forall sp :: sp in FindAll(ElseIf, chain, 0) ==>
              sp.start + 6 <= sp.end <= |chain| && ElseIfWords(chain, sp.start, sp.end - 2)
  {
    FindAllSound(ElseIf, chain, 0);
    ElseIfSpans(chain, FindAll(ElseIf, chain, 0));
  }

  lemma ElseIfSpans(chain: string, spans: seq<Span>)
    requires forall sp :: sp in spans ==> sp.start <= |chain| && MatchAt(ElseIf, chain, sp.start) == Some(sp.end)
    ensures forall sp :: sp in spans ==>
              sp.start + 6 <= sp.end <= |chain| && ElseIfWords(chain, sp.start, sp.end - 2)
  {
    forall sp | sp in spans
      ensures sp.start + 6 <= sp.end <= |chain| && ElseIfWords(chain, sp.start, sp.end - 2)
    {
      ElseIfSpan(chain, sp.start, sp.end);
    }
  }

  /** A match of the `else if` pattern is `else`, whitespace only, and `if`. */
  lemma ElseIfSpan(chain: string, q: nat, e: nat)
    requires q <= |chain| && MatchAt(ElseIf, chain, q) == Some(e)
    ensures q + 6 <= e <= |chain| && ElseIfWords(chain, q, e - 2)
  {
    assert ElseIfAt(chain, q) == Some(e);
  }

  /** Every `else if` of the chain is counted: occurrences cannot overlap, so
      each one is exactly one of the matches. */
  lemma ElseIfsAllCounted(chain: string, q: nat, b: nat)
    requires ElseIfWords(chain, q, b)
    ensures exists i :: 0 <= i < |FindAll(ElseIf, chain, 0)| && FindAll(ElseIf, chain, 0)[i] == Span(q, b + 2)
  {
    ElseIfMatches(chain, q, b);
    var spans := FindAll(ElseIf, chain, 0);
    FindAllCovers(ElseIf, chain, 0, q);
    var i :| 0 <= i < |spans| && spans[i].start <= q < spans[i].end;
    var sp := spans[i];
    assert ElseIfAt(chain, sp.start) == Some(sp.end) by {
      FindAllSound(ElseIf, chain, 0);
      assert sp in spans;
    }
    ElseIfNoOverlap(chain, sp.start, sp.end, q);
  }

  /** An `else if` occurrence contains no other `else` after its first
      character. */
  lemma ElseIfNoOverlap(s: string, p: nat, e: nat, q: nat)
    requires p <= |s| && ElseIfAt(s, p) == Some(e)
    requires p <= q < e && q < |s| && ElseIfAt(s, q).Some?
    ensures q == p
  {
    assert s[q] == 'e' && s[q + 1] == 'l' by {
      assert s[q..q + 4] == "else";
      assert s[q] == s[q..q + 4][0] && s[q + 1] == s[q..q + 4][1];
    }
    assert s[p + 1] == 'l' && s[p + 2] == 's' && s[p + 3] == 'e' by {
      assert s[p..p + 4] == "else";
      assert s[p + 1] == s[p..p + 4][1] && s[p + 2] == s[p..p + 4][2] && s[p + 3] == s[p..p + 4][3];
    }
    assert s[e - 2] == 'i' && s[e - 1] == 'f' by {
      assert s[e - 2..e] == "if";
      assert s[e - 2] == s[e - 2..e][0] && s[e - 1] == s[e - 2..e][1];
    }
  }
}
