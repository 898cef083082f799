/** The long method detector: from every function/method declaration, lines
    are counted forward until a line that opens with `}` or until the count
    passes the threshold; a declaration whose count reaches the threshold is
    reported with that count and the declaration's text. */
module LongMethodDetector {
  import opened Text
  import opened Patterns
  import opened Findings

  /** `re.match(r'^\s*}', line)`: the line opens, after some whitespace,
      with `}`. */
  predicate IsClosingLine(line: string): (b: bool)
    ensures b <==> exists j :: 0 <= j < |line| && line[j] == '}' && forall k :: 0 <= k < j ==> IsSpace(line[k])
  {
    var j := LeadingSpace(line);
    assert (exists j :: 0 <= j < |line| && line[j] == '}' && forall k :: 0 <= k < j ==> IsSpace(line[k]))
           ==> j < |line| && line[j] == '}' by {
      if exists j' :: 0 <= j' < |line| && line[j'] == '}' && forall k :: 0 <= k < j' ==> IsSpace(line[k]) {
        var j' :| 0 <= j' < |line| && line[j'] == '}' && forall k :: 0 <= k < j' ==> IsSpace(line[k]);
        assert !IsSpace(line[j']);
      }
    }
    j < |line| && line[j] == '}'
  }

  /** The counter of the line loop after `count` lines have been counted
      without stopping: the next line is counted, and the loop stops on it if
      it closes a block or if the count has passed the threshold. The counter
      never goes back and never passes the number of lines, and it counts at
      least one more line while there is one. */
  function MethodLengthFrom(lines: seq<string>, threshold: int, count: nat): (r: nat)
    requires count <= |lines|
    ensures count <= r <= |lines|
    ensures count < |lines| ==> count < r
    decreases |lines| - count
  {
    if count == |lines| then count
    else if IsClosingLine(lines[count]) || count + 1 > threshold then count + 1
    else MethodLengthFrom(lines, threshold, count + 1)
  }

  /** The final value of the line counter for a method whose text from its
      declaration on splits into `lines`: at most the number of lines, and at
      least 1 when there is a line, since the declaration's own line is
      counted. */
  function MethodLength(lines: seq<string>, threshold: int): (r: nat)
    ensures r <= |lines| && (lines != [] ==> 1 <= r)
  {
    MethodLengthFrom(lines, threshold, 0)
  }

  /** The line loop: counts lines until one closes a block or the count passes
      the threshold. */
  method CountMethodLines(lines: seq<string>, threshold: int) returns (count: nat)
    ensures count == MethodLength(lines, threshold)
  {
    count := 0;
    while count < |lines|
      invariant count <= |lines|
      invariant MethodLengthFrom(lines, threshold, count) == MethodLength(lines, threshold)
    {
      count := count + 1;
      if IsClosingLine(lines[count - 1]) || count > threshold {
        break;
      }
    }
  }

  /** The counter stops at the first line that closes a block, at the first
      line past the threshold, or at the end of the text, whichever comes
      first: it never exceeds `threshold + 1`, and the line it stops on is
      itself counted. */
  lemma {:induction false} MethodLengthFromSpec(lines: seq<string>, threshold: int, count: nat)
    requires count <= |lines|
    requires forall j :: 0 <= j < count ==> !IsClosingLine(lines[j]) && j + 1 <= threshold
    ensures var r := MethodLengthFrom(lines, threshold, count);
      && (threshold >= 0 ==> r <= threshold + 1)
      && (forall j :: 0 <= j < r - 1 ==> !IsClosingLine(lines[j]) && j + 1 <= threshold)
      && (r == |lines| || (1 <= r && (IsClosingLine(lines[r - 1]) || r > threshold)))
    decreases |lines| - count
  {
    if count > 0 {
      assert !IsClosingLine(lines[count - 1]) && count <= threshold;
    }
    if count < |lines| && !(IsClosingLine(lines[count]) || count + 1 > threshold) {
      MethodLengthFromSpec(lines, threshold, count + 1);
    }
  }

  lemma MethodLengthSpec(lines: seq<string>, threshold: int)
    ensures var r := MethodLength(lines, threshold);
      && (threshold >= 0 ==> r <= threshold + 1)
      && (forall j :: 0 <= j < r - 1 ==> !IsClosingLine(lines[j]) && j + 1 <= threshold)
      && (r == |lines| || (1 <= r && (IsClosingLine(lines[r - 1]) || r > threshold)))
  {
    MethodLengthFromSpec(lines, threshold, 0);
  }

  /** The count reaches the threshold exactly when the text has at least
      `threshold` lines from the declaration on and none of the first
      `threshold - 1` of them closes a block. So a declaration is not reported
      when a line k < threshold (its own line being 1) opens with `}`, nor when
      the text ends before `threshold` lines. */
  lemma LongMethodIff(lines: seq<string>, threshold: int)
    ensures MethodLength(lines, threshold) >= threshold
            <==> |lines| >= threshold && forall j :: 0 <= j < threshold - 1 ==> !IsClosingLine(lines[j])
  {
    MethodLengthSpec(lines, threshold);
  }

  /** The declarations of a file, leftmost first. */
  function Declarations(content: string): (r: seq<Span>)
    ensures WithinText(content, r)
  {
    FindAll(Declaration, content, 0)
  }

  /** The scan does not overlap: the declaration `def g(x)` inside the
      parameter list of `def f(` is a match where it starts, but the match
      from `def f` runs past it, so it is not found on its own. */
  lemma NestedDeclarationExample()
    ensures DeclarationAt("def f(def g(x)", 6) == Some(14)
    ensures Declarations("def f(def g(x)") == [Span(0, 14)]
  {
    var s := "def f(def g(x)";
    OuterDeclarationExample();
    InnerDeclarationExample();
    MatchStep(Declaration, s, 0, 14);
    assert FindAll(Declaration, s, 14) == [];
  }

  /** Every span lies inside `content`. */
  predicate WithinText(content: string, spans: seq<Span>) {
    forall sp :: sp in spans ==> sp.start < sp.end <= |content|
  }

  /** The findings for the declarations `decls` of `content`, in order: at
      most one per declaration, each a long method whose count reached the
      threshold. */
  function LongMethodFindings(content: string, decls: seq<Span>, threshold: int): (r: seq<Finding>)
    requires WithinText(content, decls)
    ensures |r| <= |decls|
    ensures forall f :: f in r ==> f.kind == LongMethod && f.metric >= threshold
    decreases |decls|
  {
    if decls == [] then []
    else
      var sp := decls[|decls| - 1];
      var count := MethodLength(Lines(content[sp.start..]), threshold);
      LongMethodFindings(content, decls[..|decls| - 1], threshold)
        + if count >= threshold then [Finding(LongMethod, count, content[sp.start..sp.end])] else []
  }

  /** One more declaration extends the findings by its finding, if any. */
  lemma LongMethodStep(content: string, decls: seq<Span>, threshold: int, i: nat)
    requires WithinText(content, decls) && i < |decls|
    ensures WithinText(content, decls[..i]) && WithinText(content, decls[..i + 1])
    ensures var sp := decls[i];
            var count := MethodLength(Lines(content[sp.start..]), threshold);
            LongMethodFindings(content, decls[..i + 1], threshold)
              == LongMethodFindings(content, decls[..i], threshold)
                 + if count >= threshold then [Finding(LongMethod, count, content[sp.start..sp.end])] else []
  {
    assert decls[..i + 1][..i] == decls[..i];
    assert forall sp :: sp in decls[..i + 1] ==> sp in decls;
  }

  method DetectLongMethods(content: string, threshold: int) returns (longMethods: seq<Finding>)
    ensures longMethods == LongMethodFindings(content, Declarations(content), threshold)
  {
    var decls := Declarations(content);
    longMethods := [];
    for i := 0 to |decls|
      invariant WithinText(content, decls[..i])
      invariant longMethods == LongMethodFindings(content, decls[..i], threshold)
    {
      var sp := decls[i];
      assert sp in decls;
      var lines := Lines(content[sp.start..]);
      var count := CountMethodLines(lines, threshold);
      LongMethodStep(content, decls, threshold, i);
      if count >= threshold {
        longMethods := longMethods + [Finding(LongMethod, count, content[sp.start..sp.end])];
      }
    }
    assert decls[..|decls|] == decls;
  }

  /** What a reported long method looks like: its metric is the line count of
      one of the declarations, which reached the threshold and (for a
      non-negative threshold) is `threshold` or `threshold + 1`; its excerpt is
      that declaration's matched text. Every declaration whose count reaches
      the threshold is reported. */
  lemma LongMethodFindingsSpec(content: string, decls: seq<Span>, threshold: int)
    requires WithinText(content, decls)
    ensures forall f :: f in LongMethodFindings(content, decls, threshold) ==>
              && (threshold >= 0 ==> f.metric == threshold || f.metric == threshold + 1)
              && exists sp :: sp in decls && f == FindingFor(content, sp, threshold)
    ensures forall sp :: sp in decls && MethodLength(Lines(content[sp.start..]), threshold) >= threshold
              ==> FindingFor(content, sp, threshold) in LongMethodFindings(content, decls, threshold)
  {
    LongMethodFindingsSound(content, decls, threshold);
    LongMethodFindingsComplete(content, decls, threshold);
  }

  /** Every finding is the finding of one of the declarations, with a metric of
      `threshold` or `threshold + 1`. */
  lemma {:induction false} LongMethodFindingsSound(content: string, decls: seq<Span>, threshold: int)
    requires WithinText(content, decls)
    ensures forall f :: f in LongMethodFindings(content, decls, threshold) ==>
              && (threshold >= 0 ==> f.metric == threshold || f.metric == threshold + 1)
              && exists sp :: sp in decls && f == FindingFor(content, sp, threshold)
    decreases |decls|
  {
    if decls != [] {
      var init := decls[..|decls| - 1];
      var sp := decls[|decls| - 1];
      assert decls == init + [sp];
      LongMethodFindingsSound(content, init, threshold);
      MethodLengthSpec(Lines(content[sp.start..]), threshold);
      var prev := LongMethodFindings(content, init, threshold);
      var r := LongMethodFindings(content, decls, threshold);
      forall f | f in r
        ensures && (threshold >= 0 ==> f.metric == threshold || f.metric == threshold + 1)
                && exists sp' :: sp' in decls && f == FindingFor(content, sp', threshold)
      {
        if f in prev {
          var sp' :| sp' in init && f == FindingFor(content, sp', threshold);
          assert sp' in decls;
        } else {
          assert f == FindingFor(content, sp, threshold);
        }
      }
    }
  }

  /** Every declaration whose count reaches the threshold has its finding. */
  lemma {:induction false} LongMethodFindingsComplete(content: string, decls: seq<Span>, threshold: int)
    requires WithinText(content, decls)
    ensures forall sp :: sp in decls && MethodLength(Lines(content[sp.start..]), threshold) >= threshold
              ==> FindingFor(content, sp, threshold) in LongMethodFindings(content, decls, threshold)
    decreases |decls|
  {
    if decls != [] {
      var init := decls[..|decls| - 1];
      var last := decls[|decls| - 1];
      assert decls == init + [last];
      LongMethodFindingsComplete(content, init, threshold);
      var prev := LongMethodFindings(content, init, threshold);
      var r := LongMethodFindings(content, decls, threshold);
      assert forall f :: f in prev ==> f in r;
      assert MethodLength(Lines(content[last.start..]), threshold) >= threshold ==> FindingFor(content, last, threshold) in r by {
        if MethodLength(Lines(content[last.start..]), threshold) >= threshold {
          assert r[|r| - 1] == FindingFor(content, last, threshold);
        }
      }
    }
  }

  /** The finding that declaration `sp` gives when its count reaches the
      threshold. */
  function FindingFor(content: string, sp: Span, threshold: int): Finding
    requires sp.start < sp.end <= |content|
  {
    Finding(LongMethod, MethodLength(Lines(content[sp.start..]), threshold), content[sp.start..sp.end])
  }

  /** Every reported excerpt is a declaration's matched text, which starts with
      `function` or `def`. */
  lemma LongMethodExcerpts(content: string, threshold: int)
    ensures forall f :: f in LongMethodFindings(content, Declarations(content), threshold) ==>
              exists sp :: sp in Declarations(content) && sp.start <= sp.end <= |content|
                           && f.excerpt == content[sp.start..sp.end]
    ensures forall f :: f in LongMethodFindings(content, Declarations(content), threshold) ==>
              HasAt(f.excerpt, 0, "function") || HasAt(f.excerpt, 0, "def")
  {
    var decls := Declarations(content);
    LongMethodFindingsSpec(content, decls, threshold);
    forall sp | sp in decls
      ensures HasAt(content[sp.start..sp.end], 0, "function") || HasAt(content[sp.start..sp.end], 0, "def")
    {
      DeclarationText(content, sp);
    }
  }

  /** A declaration's matched text starts with its keyword. */
  lemma DeclarationText(content: string, sp: Span)
    requires sp in Declarations(content)
    ensures sp.start < sp.end <= |content|
    ensures HasAt(content[sp.start..sp.end], 0, "function") || HasAt(content[sp.start..sp.end], 0, "def")
  {
    FindAllSound(Declaration, content, 0);
    if HasAt(content, sp.start, "function") {
      HasAtSlice(content, sp.start, sp.end, "function");
    } else {
      HasAtSlice(content, sp.start, sp.end, "def");
    }
  }
}
