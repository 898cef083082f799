/** Characters, runs of characters and lines of one file's text, as the
    detectors see them: Python's whitespace, ASCII digits and word characters,
    lines separated by '\n'. */
module Text {

  /** The whitespace matched by `\s` and removed by `strip`/`lstrip`: the
      characters for which `str.isspace` holds (tab to carriage return, the
      four information separators, space, next line, no-break space and the
      Unicode spaces and separators). */
  predicate IsSpace(c: char) {
    || '\t' <= c <= '\r' || '\U{001C}' <= c <= ' '
    || c == '\U{0085}' || c == '\U{00A0}' || c == '\U{1680}'
    || '\U{2000}' <= c <= '\U{200A}' || c == '\U{2028}' || c == '\U{2029}'
    || c == '\U{202F}' || c == '\U{205F}' || c == '\U{3000}'
  }

  /** `\d` */
  predicate IsDigit(c: char) {
    '0' <= c <= '9'
  }

  /** `[a-zA-Z0-9]` */
  predicate IsAlnum(c: char) {
    IsDigit(c) || 'a' <= c <= 'z' || 'A' <= c <= 'Z'
  }

  /** `\w` */
  predicate IsWordChar(c: char) {
    IsAlnum(c) || c == '_'
  }

  /** No character is both a word character and whitespace. */
  lemma WordNotSpace(c: char)
    ensures IsWordChar(c) ==> !IsSpace(c)
  {
  }

  /** The literal `lit` occurs in `s` at position `i`. */
  predicate HasAt(s: string, i: nat, lit: string) {
    i + |lit| <= |s| && s[i..i + |lit|] == lit
  }

  /** A literal found at `i` starts with the character at `i`. */
  lemma HasAtFirst(s: string, i: nat, lit: string)
    requires lit != []
    ensures HasAt(s, i, lit) ==> s[i] == lit[0]
  {
    if HasAt(s, i, lit) {
      assert s[i..i + |lit|][0] == s[i];
    }
  }

  /** The end of the longest run of whitespace starting at `i`: what a greedy
      `\s*` consumes from `i`. */
  function SpaceEnd(s: string, i: nat): (j: nat)
    requires i <= |s|
    ensures i <= j <= |s|
    ensures forall k :: i <= k < j ==> IsSpace(s[k])
    ensures j == |s| || !IsSpace(s[j])
    decreases |s| - i
  {
    if i < |s| && IsSpace(s[i]) then SpaceEnd(s, i + 1) else i
  }

  /** The end of the longest run of word characters starting at `i` (`\w*`). */
  function WordEnd(s: string, i: nat): (j: nat)
    requires i <= |s|
    ensures i <= j <= |s|
    ensures forall k :: i <= k < j ==> IsWordChar(s[k])
    ensures j == |s| || !IsWordChar(s[j])
    decreases |s| - i
  {
    if i < |s| && IsWordChar(s[i]) then WordEnd(s, i + 1) else i
  }

  /** The end of the longest run of digits starting at `i` (`\d*`). */
  function DigitEnd(s: string, i: nat): (j: nat)
    requires i <= |s|
    ensures i <= j <= |s|
    ensures forall k :: i <= k < j ==> IsDigit(s[k])
    ensures j == |s| || !IsDigit(s[j])
    decreases |s| - i
  {
    if i < |s| && IsDigit(s[i]) then DigitEnd(s, i + 1) else i
  }

  /** A maximal run of whitespace from `i` to `j` is what `\s*` consumes. */
  lemma {:induction false} SpaceEndAt(s: string, i: nat, j: nat)
    requires i <= j <= |s| && (j == |s| || !IsSpace(s[j]))
    requires forall k :: i <= k < j ==> IsSpace(s[k])
    ensures SpaceEnd(s, i) == j
    decreases j - i
  {
    if i < j {
      SpaceEndAt(s, i + 1, j);
    }
  }

  /** A maximal run of digits from `i` to `j` is what `\d*` consumes. */
  lemma {:induction false} DigitEndAt(s: string, i: nat, j: nat)
    requires i <= j <= |s| && (j == |s| || !IsDigit(s[j]))
    requires forall k :: i <= k < j ==> IsDigit(s[k])
    ensures DigitEnd(s, i) == j
    decreases j - i
  {
    if i < j {
      DigitEndAt(s, i + 1, j);
    }
  }

  /** A maximal run of word characters from `i` to `j` is what `\w*` consumes. */
  lemma {:induction false} WordEndAt(s: string, i: nat, j: nat)
    requires i <= j <= |s| && (j == |s| || !IsWordChar(s[j]))
    requires forall k :: i <= k < j ==> IsWordChar(s[k])
    ensures WordEnd(s, i) == j
    decreases j - i
  {
    if i < j {
      WordEndAt(s, i + 1, j);
    }
  }

  /** The first `c` at or after `i` being at `j` means `[^c]*` consumes up to `j`. */
  lemma {:induction false} CharEndAt(s: string, i: nat, c: char, j: nat)
    requires i <= j < |s| && s[j] == c
    requires forall k :: i <= k < j ==> s[k] != c
    ensures CharEnd(s, i, c) == j
    decreases j - i
  {
    if i < j {
      CharEndAt(s, i + 1, c, j);
    }
  }

  /** The first position at or after `i` that holds `c`, or `|s|` when there is
      none: the end of what `[^c]*` consumes from `i`. */
  function CharEnd(s: string, i: nat, c: char): (j: nat)
    requires i <= |s|
    ensures i <= j <= |s|
    ensures forall k :: i <= k < j ==> s[k] != c
    ensures j == |s| || s[j] == c
    decreases |s| - i
  {
    if i < |s| && s[i] != c then CharEnd(s, i + 1, c) else i
  }

  /** A literal found in `s` is found at the start of any slice of `s` that
      begins where it does and contains it. */
  lemma HasAtSlice(s: string, q: nat, e: nat, lit: string)
    requires HasAt(s, q, lit) && q + |lit| <= e <= |s|
    ensures HasAt(s[q..e], 0, lit)
  {
    assert s[q..e][..|lit|] == s[q..q + |lit|];
  }

  /** The lines of `s`, split at '\n' as `str.splitlines` does: no line holds a
      separator, and a final separator does not open an empty last line. */
  function Lines(s: string): (r: seq<string>)
    ensures forall k :: 0 <= k < |r| ==> '\n' !in r[k]
    ensures r == [] <==> s == []
    ensures |r| <= |s|
    decreases |s|
  {
    if s == [] then []
    else
      var k := CharEnd(s, 0, '\n');
      if k == |s| then [s] else [s[..k]] + Lines(s[k + 1..])
  }

  /** `"\n".join(lines)`. */
  function JoinLines(lines: seq<string>): string
    decreases |lines|
  {
    if lines == [] then []
    else if |lines| == 1 then lines[0]
    else lines[0] + "\n" + JoinLines(lines[1..])
  }

  /** The line feed that ends `s`, if it ends with one. */
  function FinalBreak(s: string): string {
    if s != [] && s[|s| - 1] == '\n' then "\n" else []
  }

  /** The lines rejoined with '\n' give back the text, except for the final
      separator that does not open a last line. */
  lemma {:induction false} LinesRoundTrip(s: string)
    ensures s == JoinLines(Lines(s)) + FinalBreak(s)
    decreases |s|
  {
    if s != [] {
      var k := CharEnd(s, 0, '\n');
      if k < |s| {
        LinesRoundTrip(s[k + 1..]);
        LinesStep(s, k);
        RejoinLine(s, k, Lines(s[k + 1..]));
      }
    }
  }

  /** A text whose first line feed is at `k` splits into the line before it
      and the lines after it. */
  lemma LinesStep(s: string, k: nat)
    requires s != [] && k == CharEnd(s, 0, '\n') && k < |s|
    ensures Lines(s) == [s[..k]] + Lines(s[k + 1..])
  {
  }

  /** Putting the line before the line feed at `k` back in front of the
      rejoined rest gives back the text. */
  lemma RejoinLine(s: string, k: nat, rest: seq<string>)
    requires k < |s| && s[k] == '\n'
    requires s[k + 1..] == JoinLines(rest) + FinalBreak(s[k + 1..])
    requires rest == [] <==> s[k + 1..] == []
    ensures s == JoinLines([s[..k]] + rest) + FinalBreak(s)
  {
    var t := s[k + 1..];
    assert s == s[..k] + "\n" + t;
    if t != [] {
      JoinFirst(s[..k], rest);
      assert FinalBreak(t) == FinalBreak(s) by {
        assert t[|t| - 1] == s[|s| - 1];
      }
      Regroup(s[..k] + "\n", t, JoinLines(rest), FinalBreak(s));
    } else {
      assert [s[..k]] + rest == [s[..k]];
    }
  }

  lemma JoinFirst(line: string, rest: seq<string>)
    requires rest != []
    ensures JoinLines([line] + rest) == line + "\n" + JoinLines(rest)
  {
    assert ([line] + rest)[1..] == rest;
  }

  lemma Regroup(head: string, t: string, body: string, tail: string)
    requires t == body + tail
    ensures head + t == (head + body) + tail
  {
  }

  /** The number of leading whitespace characters, `len(line) - len(line.lstrip())`. */
  function LeadingSpace(line: string): (n: nat)
    ensures n <= |line|
    ensures forall k :: 0 <= k < n ==> IsSpace(line[k])
    ensures n == |line| || !IsSpace(line[n])
  {
    SpaceEnd(line, 0)
  }

  /** `line.lstrip()`: the line without its leading whitespace. */
  function LStrip(line: string): (r: string)
    ensures r == [] || !IsSpace(r[0])
    ensures |r| <= |line| && r == line[|line| - |r|..]
    ensures forall k :: 0 <= k < |line| - |r| ==> IsSpace(line[k])
  {
    line[LeadingSpace(line)..]
  }

  /** `s` without its trailing whitespace. */
  function TrimEnd(s: string): (r: string)
    ensures |r| <= |s| && r == s[..|r|]
    ensures r == [] || !IsSpace(r[|r| - 1])
    ensures forall k :: |r| <= k < |s| ==> IsSpace(s[k])
    decreases |s|
  {
    if s != [] && IsSpace(s[|s| - 1]) then TrimEnd(s[..|s| - 1]) else s
  }

  /** `line.strip()`: the line without leading and trailing whitespace. */
  function Strip(line: string): (r: string)
    ensures r == [] || (!IsSpace(r[0]) && !IsSpace(r[|r| - 1]))
    ensures exists i :: StripsTo(line, i, r)
  {
    var i := LeadingSpace(line);
    var r := TrimEnd(line[i..]);
    assert StripsTo(line, i, r);
    r
  }

  /** `r` is `line` with `i` whitespace characters removed in front and only
      whitespace removed behind. */
  predicate StripsTo(line: string, i: nat, r: string) {
    && i + |r| <= |line|
    && r == line[i..i + |r|]
    && (forall k :: 0 <= k < i ==> IsSpace(line[k]))
    && (forall k :: i + |r| <= k < |line| ==> IsSpace(line[k]))
  }

  /** `n` spaces. */
  function Spaces(n: nat): (r: string)
    ensures |r| == n && forall k :: 0 <= k < n ==> r[k] == ' '
  {
    seq(n, _ => ' ')
  }

  /** Indenting a line that does not start with whitespace by `n` spaces gives it
      exactly `n` leading whitespace characters. */
  lemma LeadingSpaceOfIndented(n: nat, rest: string)
    requires rest == [] || !IsSpace(rest[0])
    ensures LeadingSpace(Spaces(n) + rest) == n
  {
    var line := Spaces(n) + rest;
    assert forall k :: 0 <= k < n ==> IsSpace(line[k]);
    assert n < |line| ==> !IsSpace(line[n]);
  }
}
