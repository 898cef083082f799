/** The deep nesting detector: every line whose leading whitespace, counted in
    characters and divided by 4, reaches the threshold is reported with its
    1-based line number and its stripped text. */
module NestingDetector {
  import opened Text
  import opened Findings

  const INDENT_WIDTH := 4

  /** The indentation level of a line, reckoned at 4 columns per level. */
  function IndentLevel(line: string): nat {
    LeadingSpace(line) / INDENT_WIDTH
  }

  predicate IsDeep(line: string, threshold: int) {
    IndentLevel(line) >= threshold
  }

  /** The findings for the first `n` lines: at most one per line, each naming
      one of those lines by its 1-based number. */
  function NestingFindings(lines: seq<string>, threshold: int, n: nat): (r: seq<Finding>)
    requires n <= |lines|
    ensures |r| <= n
    ensures forall k :: 0 <= k < |r| ==> r[k].kind == DeepNesting && 1 <= r[k].metric <= n
  {
    if n == 0 then []
    else
      NestingFindings(lines, threshold, n - 1)
        + if IsDeep(lines[n - 1], threshold) then [Finding(DeepNesting, n, Strip(lines[n - 1]))] else []
  }

  method DetectDeepNesting(content: string, threshold: int) returns (deepLines: seq<Finding>)
    ensures deepLines == NestingFindings(Lines(content), threshold, |Lines(content)|)
  {
    var lines := Lines(content);
    deepLines := [];
    for i := 0 to |lines|
      invariant deepLines == NestingFindings(lines, threshold, i)
    {
      var line := lines[i];
      var indent := |line| - |LStrip(line)|;
      IndentIsLeadingSpace(line);
      if indent / 4 >= threshold {
        deepLines := deepLines + [Finding(DeepNesting, i + 1, Strip(line))];
      }
    }
  }

  /** A line is reported exactly when its indentation level reaches the
      threshold: every finding is a deep line's 1-based number with the line
      stripped, findings come in strictly increasing line order, and every deep
      line among the first `n` has a finding. */
  lemma NestingFindingsSpec(lines: seq<string>, threshold: int, n: nat)
    requires n <= |lines|
    ensures OnlyDeepLines(lines, threshold, n, NestingFindings(lines, threshold, n))
    ensures InLineOrder(NestingFindings(lines, threshold, n))
    ensures AllDeepLines(lines, threshold, n, NestingFindings(lines, threshold, n))
  {
    NestingFindingsSound(lines, threshold, n);
    NestingFindingsOrdered(lines, threshold, n);
    NestingFindingsComplete(lines, threshold, n);
  }

  lemma {:induction false} NestingFindingsSound(lines: seq<string>, threshold: int, n: nat)
    requires n <= |lines|
    ensures OnlyDeepLines(lines, threshold, n, NestingFindings(lines, threshold, n))
    decreases n
  {
    if n > 0 {
      NestingFindingsSound(lines, threshold, n - 1);
      var prev := NestingFindings(lines, threshold, n - 1);
      var last := if IsDeep(lines[n - 1], threshold) then [Finding(DeepNesting, n, Strip(lines[n - 1]))] else [];
      assert NestingFindings(lines, threshold, n) == prev + last;
      OnlyDeepLinesAppend(lines, threshold, n, prev, last);
    }
  }

  /** Appending the finding of line `n`, if it is deep, to findings about the
      first `n - 1` lines gives findings about the first `n`. */
  lemma OnlyDeepLinesAppend(lines: seq<string>, threshold: int, n: nat, prev: seq<Finding>, last: seq<Finding>)
    requires 0 < n <= |lines| && OnlyDeepLines(lines, threshold, n - 1, prev)
    requires last == [] || (last == [Finding(DeepNesting, n, Strip(lines[n - 1]))] && IsDeep(lines[n - 1], threshold))
    ensures OnlyDeepLines(lines, threshold, n, prev + last)
  {
    var r := prev + last;
    forall k | 0 <= k < |r|
      ensures r[k].metric <= n && ReportsDeepLine(lines, threshold, r[k])
    {
      if k < |prev| {
        assert r[k] == prev[k];
      } else {
        assert r[k] == last[0];
      }
    }
  }

  lemma {:induction false} NestingFindingsOrdered(lines: seq<string>, threshold: int, n: nat)
    requires n <= |lines|
    ensures InLineOrder(NestingFindings(lines, threshold, n))
    decreases n
  {
    if n > 0 {
      NestingFindingsOrdered(lines, threshold, n - 1);
      NestingFindingsSound(lines, threshold, n - 1);
      var prev := NestingFindings(lines, threshold, n - 1);
      var r := NestingFindings(lines, threshold, n);
      if IsDeep(lines[n - 1], threshold) {
        assert r == prev + [Finding(DeepNesting, n, Strip(lines[n - 1]))];
        forall k, l | 0 <= k < l < |r| ensures r[k].metric < r[l].metric {
          if l == |prev| {
            assert r[k] == prev[k] && prev[k].metric <= n - 1;
          } else {
            assert r[k] == prev[k] && r[l] == prev[l];
          }
        }
      } else {
        assert r == prev;
      }
    }
  }

  lemma {:induction false} NestingFindingsComplete(lines: seq<string>, threshold: int, n: nat)
    requires n <= |lines|
    ensures AllDeepLines(lines, threshold, n, NestingFindings(lines, threshold, n))
    decreases n
  {
    if n > 0 {
      NestingFindingsComplete(lines, threshold, n - 1);
      var last := NestingStep(lines, threshold, n);
      AllDeepLinesAppend(lines, threshold, n, NestingFindings(lines, threshold, n - 1), last);
    }
  }

  /** The findings for the first `n` lines are those for the first `n - 1`
      and then the finding of line `n`, if it is deep. */
  lemma NestingStep(lines: seq<string>, threshold: int, n: nat) returns (last: seq<Finding>)
    requires 0 < n <= |lines|
    ensures last == if IsDeep(lines[n - 1], threshold) then [Finding(DeepNesting, n, Strip(lines[n - 1]))] else []
    ensures NestingFindings(lines, threshold, n) == NestingFindings(lines, threshold, n - 1) + last
  {
    last := if IsDeep(lines[n - 1], threshold) then [Finding(DeepNesting, n, Strip(lines[n - 1]))] else [];
  }

  /** Appending the finding of line `n`, if it is deep, to findings that cover
      the deep lines among the first `n - 1` covers those among the first `n`. */
  lemma AllDeepLinesAppend(lines: seq<string>, threshold: int, n: nat, prev: seq<Finding>, last: seq<Finding>)
    requires 0 < n <= |lines| && AllDeepLines(lines, threshold, n - 1, prev)
    requires last == if IsDeep(lines[n - 1], threshold) then [Finding(DeepNesting, n, Strip(lines[n - 1]))] else []
    ensures AllDeepLines(lines, threshold, n, prev + last)
  {
    LineNumbersAppend(prev, last);
  }

  lemma LineNumbersAppend(prev: seq<Finding>, last: seq<Finding>)
    ensures LineNumbers(prev + last) == LineNumbers(prev) + LineNumbers(last)
  {
    assert forall f :: f in prev + last <==> f in prev || f in last;
  }

  /** Every finding in `r` names a deep line among the first `n`, with that
      line stripped as excerpt. */
  predicate OnlyDeepLines(lines: seq<string>, threshold: int, n: nat, r: seq<Finding>)
    requires n <= |lines|
  {
    forall k :: 0 <= k < |r| ==> r[k].metric <= n && ReportsDeepLine(lines, threshold, r[k])
  }

  /** `f` reports a deep line of `lines` by its 1-based number, with that
      line stripped as excerpt. */
  predicate ReportsDeepLine(lines: seq<string>, threshold: int, f: Finding) {
    && f.kind == DeepNesting && 1 <= f.metric <= |lines|
    && IsDeep(lines[f.metric - 1], threshold)
    && f.excerpt == Strip(lines[f.metric - 1])
  }


  /** Line numbers strictly increase along `r`. */
  predicate InLineOrder(r: seq<Finding>) {
    forall k, l :: 0 <= k < l < |r| ==> r[k].metric < r[l].metric
  }

  /** Every deep line among the first `n` has a finding in `r`. */
  predicate AllDeepLines(lines: seq<string>, threshold: int, n: nat, r: seq<Finding>)
    requires n <= |lines|
  {
    forall i :: 0 <= i < n && IsDeep(lines[i], threshold) ==> i + 1 in LineNumbers(r)
  }

  /** The line numbers that `r` reports. */
  function LineNumbers(r: seq<Finding>): set<nat> {
    set f | f in r :: f.metric
  }

  /** `len(line) - len(line.lstrip())` is the leading whitespace count. */
  lemma IndentIsLeadingSpace(line: string)
    ensures |line| - |LStrip(line)| == LeadingSpace(line)
  {
  }

  /** A line indented by exactly `4 * threshold` spaces is deep; one indented
      by one space fewer is not. */
  lemma NestingBoundary(threshold: nat, rest: string)
    requires threshold >= 1
    requires rest == [] || !IsSpace(rest[0])
    ensures IsDeep(Spaces(INDENT_WIDTH * threshold) + rest, threshold)
    ensures !IsDeep(Spaces(INDENT_WIDTH * threshold - 1) + rest, threshold)
  {
    LeadingSpaceOfIndented(INDENT_WIDTH * threshold, rest);
    LeadingSpaceOfIndented(INDENT_WIDTH * threshold - 1, rest);
  }
}
