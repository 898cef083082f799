/** The long switch/case detector: every flat switch block is scanned for
    numeric case labels, and a block with at least `minCases` of them is
    reported with its label count and its first 200 characters. */
module SwitchCaseDetector {
  import opened Text
  import opened Patterns
  import opened Findings

  /** The number of non-overlapping numeric case labels in a block: it is
      positive exactly when the block holds a numeric case label. */
  function CaseCount(block: string): (n: nat)
    ensures n > 0 <==> exists q, a, e :: NumericLabel(block, q, a, e)
  {
    var spans := FindAll(NumericCase, block, 0);
    assert (exists q, a, e :: NumericLabel(block, q, a, e)) ==> |spans| > 0 by {
      if exists q, a, e :: NumericLabel(block, q, a, e) {
        var q, a, e :| NumericLabel(block, q, a, e);
        NumericLabelsAllCounted(block, q, a, e);
      }
    }
    assert |spans| > 0 ==> exists q, a, e :: NumericLabel(block, q, a, e) by {
      if |spans| > 0 {
        CountedLabelsAreNumeric(block);
        assert spans[0] in spans;
      }
    }
    |spans|
  }

  /** The switch blocks of a file, leftmost first, each ending at the first `}`
      after its `{`. */
  function SwitchBlocks(content: string): seq<string> {
    Matches(SwitchBlock, content)
  }

  method DetectSwitchCaseSmell(content: string, minCases: int) returns (smells: seq<Finding>)
    ensures smells == FlagBlocks(LongSwitchCase, SwitchBlocks(content), CaseCount, minCases)
  {
    var blocks := SwitchBlocks(content);
    smells := [];
    for i := 0 to |blocks|
      invariant smells == FlagBlocks(LongSwitchCase, blocks[..i], CaseCount, minCases)
    {
      var codeBlock := blocks[i];
      var cases := CaseCount(codeBlock);
      FlagBlocksStep(LongSwitchCase, blocks, CaseCount, minCases, i);
      if cases >= minCases {
        smells := smells + [Finding(LongSwitchCase, cases, Excerpt(codeBlock))];
      }
    }
    assert blocks[..|blocks|] == blocks;
  }

  /** Every switch block starts with `switch` and is closed by the first `}`
      after its `{`, with at least one other character in between. */
  lemma SwitchBlocksAreFlat(content: string)
    ensures forall b :: b in SwitchBlocks(content) ==> FlatSwitch(b)
  {
    var spans := FindAll(SwitchBlock, content, 0);
    var blocks := SwitchBlocks(content);
    forall b | b in blocks
      ensures FlatSwitch(b)
    {
      var i :| 0 <= i < |blocks| && blocks[i] == b;
      var sp := spans[i];
      assert SwitchAt(content, sp.start) == Some(sp.end) by {
        FindAllSound(SwitchBlock, content, 0);
        assert sp in spans;
      }
      SwitchMatchIsFlat(content, sp.start, sp.end);
    }
  }

  /** `b` starts with `switch` and ends with a flat brace block. */
  predicate FlatSwitch(b: string) {
    HasAt(b, 0, "switch") && exists o :: 0 <= o < |b| && FlatBlock(b, o, |b|)
  }

  lemma SwitchMatchIsFlat(content: string, q: nat, e: nat)
    requires q <= |content| && SwitchAt(content, q) == Some(e)
    ensures FlatSwitch(content[q..e])
  {
    var b := content[q..e];
    var o :| q < o && FlatBlock(content, o, e);
    assert b[..6] == content[q..q + 6];
    assert FlatBlock(b, o - q, |b|) by {
      forall k | o - q < k < |b| - 1 ensures b[k] != '}' {
        assert b[k] == content[q + k];
      }
    }
  }

  /** A block is reported exactly when its numeric label count reaches
      `minCases`; the metric is that count and the excerpt is the block's
      first 200 characters, so a block with `minCases - 1` labels is never
      reported and one with `minCases` labels is. */
  lemma SwitchReportedIff(content: string, minCases: int)
    ensures forall f :: f in FlagBlocks(LongSwitchCase, SwitchBlocks(content), CaseCount, minCases) ==>
              exists b :: b in SwitchBlocks(content) && CaseCount(b) >= minCases
                          && f == Finding(LongSwitchCase, CaseCount(b), Excerpt(b))
    ensures forall b :: b in SwitchBlocks(content) && CaseCount(b) >= minCases ==>
              Finding(LongSwitchCase, CaseCount(b), Excerpt(b))
                in FlagBlocks(LongSwitchCase, SwitchBlocks(content), CaseCount, minCases)
  {
    FlagBlocksSpec(LongSwitchCase, SwitchBlocks(content), CaseCount, minCases);
  }

  /** Every counted label is `case` as a whole word, a run of whitespace and
      a maximal run of digits. */
  lemma CountedLabelsAreNumeric(block: string)
    ensures forall sp :: sp in FindAll(NumericCase, block, 0) ==>
              exists a :: NumericLabel(block, sp.start, a, sp.end)
  {
    FindAllSound(NumericCase, block, 0);
  }

  /** A `case` label whose whitespace is followed by something other than a
      digit is never counted. */
  lemma NonNumericLabelNotCounted(block: string, q: nat)
    requires q + 4 <= |block| && HasAt(block, q, "case")
    requires var a := SpaceEnd(block, q + 4); a == |block| || !IsDigit(block[a])
    ensures forall sp :: sp in FindAll(NumericCase, block, 0) ==> sp.start != q
  {
    FindAllSound(NumericCase, block, 0);
  }

  /** Every numeric case label in the block is counted: it is exactly one of
      the matches. */
  lemma NumericLabelsAllCounted(block: string, q: nat, a: nat, e: nat)
    requires NumericLabel(block, q, a, e)
    ensures exists i :: 0 <= i < |FindAll(NumericCase, block, 0)| && FindAll(NumericCase, block, 0)[i] == Span(q, e)
  {
    assert block[q] == 'c' by {
      assert block[q] == block[q..q + 4][0];
    }
    NumericCaseMatches(block, q, a, e);
    var spans := FindAll(NumericCase, block, 0);
    FindAllCovers(NumericCase, block, 0, q);
    var i :| 0 <= i < |spans| && spans[i].start <= q < spans[i].end;
    var sp := spans[i];
    assert NumericCaseAt(block, sp.start) == Some(sp.end) by {
      FindAllSound(NumericCase, block, 0);
      assert sp in spans;
    }
    LabelStartsMatch(block, sp.start, sp.end, q);
  }

  /** A match that covers the `c` of a label starts there. */
  lemma LabelStartsMatch(block: string, p: nat, e: nat, q: nat)
    requires p <= |block| && NumericCaseAt(block, p) == Some(e)
    requires p <= q < e && block[q] == 'c'
    ensures p == q
  {
  }
}
