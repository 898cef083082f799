/** Six of the seven regular expressions of the detector engine, each
    hand-coded as a matcher that says where a match starting at a given
    position ends, in the order a backtracking engine tries its alternatives
    (greedy runs take as much as they can, lazy runs as little), and the
    leftmost, non-overlapping scan that `re.finditer` and `re.findall` perform
    with any of them. The seventh, `^\s*}`, is `IsClosingLine` of the long
    method detector. */
module Patterns {
  import opened Text

  datatype Option<T> = None | Some(value: T)

  /** The half-open range `[start, end)` of one match in the scanned text. */
  datatype Span = Span(start: nat, end: nat)

  datatype Pattern =
    | SwitchBlock    // `switch`, a parenthesised condition, a brace block without nested `}`
    | Declaration    // `function` or `def`, a name and a parameter list
    | IfChain        // `if (...) {` followed by `else if (...) {` segments and a `}`
    | NumericCase    // `case` as a whole word, whitespace and a digit run
    | ElseIf         // `else`, optional whitespace, `if`
    | MagicLiteral   // a run of two or more digits between two non-alphanumerics

  // ---------------------------------------------------------------------------
  // switch\s*\(  lazy-any  \)\s*{  non-brace+  }        (dot matches newline)

  /** A switch block starting at `q`: the word `switch`, optional whitespace and
      `(`, then the nearest `)` that a flat brace body can follow. The block ends
      at the first `}` after its `{`. */
  function SwitchAt(s: string, q: nat): (r: Option<nat>)
    requires q <= |s|
    ensures r.Some? ==> q < r.value <= |s| && HasAt(s, q, "switch")
    ensures r.Some? ==> s[r.value - 1] == '}' && exists o :: q < o && FlatBlock(s, o, r.value)
  {
    if !HasAt(s, q, "switch") then None
    else
      var o := SpaceEnd(s, q + 6);
      if o < |s| && s[o] == '(' then SwitchCondition(s, o + 1) else None
  }

  /** `switch` at `q`, a run of whitespace, the `(` at `o` that opens the
      condition, and the `)` at `d` where the condition ends. */
  predicate SwitchParts(s: string, q: nat, o: nat, d: nat) {
    && HasAt(s, q, "switch")
    && q + 6 <= o < |s| && s[o] == '('
    && (forall k :: q + 6 <= k < o ==> IsSpace(s[k]))
    && FirstClose(s, o + 1, d)
  }

  /** A switch block is `switch`, optional whitespace, `(`, the nearest `)` that
      a flat body follows, and that body. */
  lemma SwitchAtShape(s: string, q: nat)
    requires q <= |s|
    ensures SwitchAt(s, q).Some? ==>
      exists o: nat, d: nat :: SwitchParts(s, q, o, d) && SwitchAt(s, q) == FlatBody(s, d + 1)
  {
    if SwitchAt(s, q).Some? {
      var o := SpaceEnd(s, q + 6);
      SwitchStep(s, q, o);
      OpenedShape(s, q, o);
    }
  }

  /** The condition opened by the `(` at `o` ends at the first `)` that a flat
      body follows. */
  lemma OpenedShape(s: string, q: nat, o: nat)
    requires q <= |s| && HasAt(s, q, "switch") && o == SpaceEnd(s, q + 6)
    requires o < |s| && s[o] == '(' && SwitchCondition(s, o + 1).Some?
    ensures exists d: nat :: SwitchParts(s, q, o, d) && SwitchAt(s, q) == FlatBody(s, d + 1)
  {
    SwitchConditionShape(s, o + 1);
    var d: nat :| FirstClose(s, o + 1, d) && SwitchCondition(s, o + 1) == FlatBody(s, d + 1);
    SwitchJoin(s, q, o, FlatBody(s, d + 1));
    assert SwitchParts(s, q, o, d);
  }

  /** `switch` at `q` followed by the whitespace up to `o`. */
  lemma SwitchStep(s: string, q: nat, o: nat)
    requires q <= |s| && HasAt(s, q, "switch") && o == SpaceEnd(s, q + 6)
    ensures SwitchAt(s, q) == if o < |s| && s[o] == '(' then SwitchCondition(s, o + 1) else None
  {
  }

  /** The `)` at `d` is the first one at or after `i` that a flat brace body
      follows: where the lazy `.*?` of the condition stops. */
  predicate FirstClose(s: string, i: nat, d: nat) {
    i <= d && Closes(s, d) && forall k :: i <= k < d ==> !Closes(s, k)
  }

  /** A `)` at `k` that a flat brace body follows. */
  predicate Closes(s: string, k: nat) {
    k < |s| && s[k] == ')' && FlatBody(s, k + 1).Some?
  }

  /** The lazy `.*?` of the condition: every `)` from `i` on is tried, nearest
      first, and the first one followed by a flat brace body is taken. */
  function SwitchCondition(s: string, i: nat): (r: Option<nat>)
    requires i <= |s|
    ensures r.Some? ==> i < r.value <= |s| && s[r.value - 1] == '}'
    ensures r.Some? ==> exists o :: i <= o && FlatBlock(s, o, r.value)
    decreases |s| - i
  {
    if i == |s| then None
    else if Closes(s, i) then FlatBody(s, i + 1)
    else SwitchCondition(s, i + 1)
  }

  /** The condition ends at the first `)` from `i` on that a flat body follows. */
  lemma {:induction false} SwitchConditionShape(s: string, i: nat)
    requires i <= |s|
    ensures SwitchCondition(s, i).Some? ==>
      exists d: nat :: FirstClose(s, i, d) && SwitchCondition(s, i) == FlatBody(s, d + 1)
    decreases |s| - i
  {
    if i < |s| {
      ConditionStep(s, i);
      if Closes(s, i) {
        assert FirstClose(s, i, i);
      } else if SwitchCondition(s, i + 1).Some? {
        SwitchConditionShape(s, i + 1);
        var d: nat :| FirstClose(s, i + 1, d) && SwitchCondition(s, i + 1) == FlatBody(s, d + 1);
        FirstCloseBack(s, i, d);
      }
    }
  }

  /** One step of the lazy `.*?`: the `)` at `i` closes or the search goes on. */
  lemma ConditionStep(s: string, i: nat)
    requires i < |s|
    ensures SwitchCondition(s, i) == if Closes(s, i) then FlatBody(s, i + 1) else SwitchCondition(s, i + 1)
  {
  }

  lemma FirstCloseBack(s: string, i: nat, d: nat)
    requires !Closes(s, i) && FirstClose(s, i + 1, d)
    ensures FirstClose(s, i, d)
  {
  }

  /** Whichever `)` is the first that a flat body follows, the condition ends there. */
  lemma {:induction false} SwitchConditionMatches(s: string, i: nat, d: nat)
    requires FirstClose(s, i, d)
    ensures SwitchCondition(s, i) == FlatBody(s, d + 1)
    decreases d - i, 1
  {
    if i == d {
      ConditionCloses(s, i);
    } else {
      FirstCloseNext(s, i, d);
      ConditionPasses(s, i, d);
    }
  }

  /** Before the first `)` that closes, the scan moves on to the next position. */
  lemma {:induction false} ConditionPasses(s: string, i: nat, d: nat)
    requires i < |s| && !Closes(s, i) && FirstClose(s, i + 1, d)
    ensures SwitchCondition(s, i) == FlatBody(s, d + 1)
    decreases d - i, 0
  {
    SwitchConditionMatches(s, i + 1, d);
    ConditionSkips(s, i);
  }

  /** Before `d`, the `)` at `d` is also the first that closes from `i + 1` on. */
  lemma FirstCloseNext(s: string, i: nat, d: nat)
    requires FirstClose(s, i, d) && i < d
    ensures i < |s| && !Closes(s, i) && FirstClose(s, i + 1, d)
  {
  }

  lemma ConditionCloses(s: string, i: nat)
    requires Closes(s, i)
    ensures SwitchCondition(s, i) == FlatBody(s, i + 1)
  {
  }

  lemma ConditionSkips(s: string, i: nat)
    requires i < |s| && !Closes(s, i)
    ensures SwitchCondition(s, i) == SwitchCondition(s, i + 1)
  {
  }

  /** Every `switch`, whitespace, `(` and first `)` that a flat body follows is
      a switch block, ending where that body ends. */
  lemma SwitchMatches(s: string, q: nat, o: nat, d: nat)
    requires SwitchParts(s, q, o, d)
    ensures SwitchAt(s, q) == FlatBody(s, d + 1)
  {
    SpaceEndAt(s, q + 6, o);
    SwitchConditionMatches(s, o + 1, d);
    SwitchJoin(s, q, o, FlatBody(s, d + 1));
  }

  /** `switch`, the whitespace up to the `(` at `o`, and a condition scan from
      `o + 1` that ends at `x` make a switch match ending at `x`. */
  lemma SwitchJoin(s: string, q: nat, o: nat, x: Option<nat>)
    requires q <= |s| && HasAt(s, q, "switch") && o == SpaceEnd(s, q + 6)
    requires o < |s| && s[o] == '(' && SwitchCondition(s, o + 1) == x
    ensures SwitchAt(s, q) == x
  {
    SwitchStep(s, q, o);
  }

  /** `s[o..e]` is a `{`, at least one character that is not `}`, and a `}`. */
  predicate FlatBlock(s: string, o: nat, e: nat) {
    && o + 2 < e <= |s|
    && s[o] == '{' && s[e - 1] == '}'
    && forall k :: o < k < e - 1 ==> s[k] != '}'
  }

  /** Whitespace from `i` up to `o`, then the flat block `s[o..e]`. */
  predicate SpacedBlock(s: string, i: nat, o: nat, e: nat) {
    && FlatBlock(s, o, e) && i <= o
    && forall k :: i <= k < o ==> IsSpace(s[k])
  }

  /** Optional whitespace, `{`, at least one character other than `}`, and the
      first `}` after the `{`. */
  function FlatBody(s: string, i: nat): (r: Option<nat>)
    requires i <= |s|
    ensures r.Some? ==> i < r.value <= |s| && s[r.value - 1] == '}'
    ensures r.Some? ==> exists o :: i <= o && FlatBlock(s, o, r.value)
  {
    var o := SpaceEnd(s, i);
    if o < |s| && s[o] == '{' then
      var c := CharEnd(s, o + 1, '}');
      if o + 1 < c < |s| then
        assert FlatBlock(s, o, c + 1);
        Some(c + 1)
      else None
    else None
  }

  /** A flat body is whitespace followed by a flat block. */
  lemma FlatBodyShape(s: string, i: nat)
    requires i <= |s|
    ensures FlatBody(s, i).Some? ==> SpacedBlock(s, i, SpaceEnd(s, i), FlatBody(s, i).value)
  {
  }

  /** Whitespace followed by a flat block is a flat body ending with that block. */
  lemma FlatBodyMatches(s: string, i: nat, o: nat, e: nat)
    requires SpacedBlock(s, i, o, e)
    ensures FlatBody(s, i) == Some(e)
  {
    SpaceEndAt(s, i, o);
    CharEndAt(s, o + 1, '}', e - 1);
  }

  // ---------------------------------------------------------------------------
  // (function|def)\s+\w+\s*\(  non-paren*  \)\s*{?

  /** A declaration starting at `q`: `function` or `def`, at least one
      whitespace, a name of word characters, optional whitespace, a parameter
      list up to the first `)`, then optional whitespace and an optional `{`. */
  function DeclarationAt(s: string, q: nat): (r: Option<nat>)
    requires q <= |s|
    ensures r.Some? ==> q < r.value <= |s| && (HasAt(s, q, "function") || HasAt(s, q, "def"))
    ensures r.Some? ==> exists d :: q < d < r.value && s[d] == ')'
  {
    if HasAt(s, q, "function") then DeclaredName(s, q + 8)
    else if HasAt(s, q, "def") then DeclaredName(s, q + 3)
    else None
  }

  /** `\s+\w+` after the keyword, then the parameter list. */
  function DeclaredName(s: string, k: nat): (r: Option<nat>)
    requires k <= |s|
    ensures r.Some? ==> k < r.value <= |s| && exists d :: k < d < r.value && s[d] == ')'
  {
    var a := SpaceEnd(s, k);
    var b := WordEnd(s, a);
    if a == k || b == a then None else Parameters(s, b)
  }

  /** `\s*\(`, everything up to the first `)`, that `)`, then `\s*{?`. */
  function Parameters(s: string, b: nat): (r: Option<nat>)
    requires b <= |s|
    ensures r.Some? ==> b < r.value <= |s| && exists d :: b <= d < r.value && s[d] == ')'
  {
    var c := SpaceEnd(s, b);
    if c == |s| || s[c] != '(' then None
    else
      var d := CharEnd(s, c + 1, ')');
      if d == |s| then None else Some(BraceEnd(s, d + 1))
  }

  /** `\s*{?`: the whitespace from `i` on and a `{` after it, if there is one. */
  function BraceEnd(s: string, i: nat): (e: nat)
    requires i <= |s|
    ensures i <= e <= |s|
  {
    var t := SpaceEnd(s, i);
    if t < |s| && s[t] == '{' then t + 1 else t
  }

  /** A declaration is the keyword, whitespace, a name, optional whitespace, a
      parameter list up to the first `)`, and the whitespace and optional `{`
      after it. */
  lemma DeclarationShape(s: string, q: nat)
    requires q <= |s|
    ensures DeclarationAt(s, q).Some? ==> exists k, a, b, c, d, t ::
      DeclarationHead(s, q, k, a, b, c, d) && DeclarationTail(s, d, t, DeclarationAt(s, q).value)
  {
    if DeclarationAt(s, q).Some? {
      var k := if HasAt(s, q, "function") then q + 8 else q + 3;
      KeywordMatches(s, q, k);
      DeclaredNameShape(s, k);
      var a, b, c, d, t :| Name(s, k, a, b) && ParameterList(s, b, c, d)
        && DeclarationTail(s, d, t, DeclaredName(s, k).value);
      assert DeclarationHead(s, q, k, a, b, c, d);
    }
  }

  /** What follows the keyword in a declaration. */
  lemma DeclaredNameShape(s: string, k: nat)
    requires k <= |s| && DeclaredName(s, k).Some?
    ensures exists a, b, c, d, t ::
      && Name(s, k, a, b) && ParameterList(s, b, c, d)
      && DeclarationTail(s, d, t, DeclaredName(s, k).value)
  {
    var a := SpaceEnd(s, k);
    var b := WordEnd(s, a);
    NameShape(s, k, a, b);
    var c := SpaceEnd(s, b);
    var d := CharEnd(s, c + 1, ')');
    ParametersShape(s, b, c, d);
    var t := SpaceEnd(s, d + 1);
    TailShape(s, d, t);
    Unwrap(DeclaredName(s, k), Parameters(s, b), BraceEnd(s, d + 1));
    assert Name(s, k, a, b) && ParameterList(s, b, c, d)
      && DeclarationTail(s, d, t, DeclaredName(s, k).value);
  }

  /** The value of an option equal to `Some(e)` is `e`. */
  lemma Unwrap(x: Option<nat>, y: Option<nat>, e: nat)
    requires x == y && y == Some(e)
    ensures x.value == e
  {
  }

  // One lemma per piece of the declaration pattern, each with the run ends as
  // parameters, first from the matcher to the shape, then back.

  lemma NameShape(s: string, k: nat, a: nat, b: nat)
    requires k <= |s| && a == SpaceEnd(s, k) && b == WordEnd(s, a) && DeclaredName(s, k).Some?
    ensures Name(s, k, a, b) && DeclaredName(s, k) == Parameters(s, b)
  {
  }

  lemma ParametersShape(s: string, b: nat, c: nat, d: nat)
    requires b <= |s| && c == SpaceEnd(s, b) && Parameters(s, b).Some?
    requires d == CharEnd(s, c + 1, ')')
    ensures ParameterList(s, b, c, d) && Parameters(s, b) == Some(BraceEnd(s, d + 1))
  {
  }

  lemma TailShape(s: string, d: nat, t: nat)
    requires d < |s| && t == SpaceEnd(s, d + 1)
    ensures DeclarationTail(s, d, t, BraceEnd(s, d + 1))
  {
  }

  /** `function` or `def` at `q`, ending at `k`. */
  predicate Keyword(s: string, q: nat, k: nat) {
    (HasAt(s, q, "function") && k == q + 8) || (HasAt(s, q, "def") && k == q + 3)
  }

  /** Whitespace from `k` up to `a`, then the name `s[a..b]`. */
  predicate Name(s: string, k: nat, a: nat, b: nat) {
    && k < a < b <= |s|
    && (forall i :: k <= i < a ==> IsSpace(s[i]))
    && forall i :: a <= i < b ==> IsWordChar(s[i])
  }

  /** Whitespace from `b` up to the `(` at `c`, and the first `)` after it at `d`. */
  predicate ParameterList(s: string, b: nat, c: nat, d: nat) {
    && b <= c < d < |s|
    && (forall i :: b <= i < c ==> IsSpace(s[i]))
    && s[c] == '(' && s[d] == ')'
    && forall i :: c < i < d ==> s[i] != ')'
  }

  /** The keyword ending at `k`, whitespace up to `a`, the name `s[a..b]`,
      whitespace up to the `(` at `c`, and the first `)` after it at `d`. */
  predicate DeclarationHead(s: string, q: nat, k: nat, a: nat, b: nat, c: nat, d: nat) {
    Keyword(s, q, k) && Name(s, k, a, b) && ParameterList(s, b, c, d)
  }

  /** After the `)` at `d`, all the whitespace up to `t`, then the `{` at `t` if
      there is one: the declaration ends at `e`. */
  predicate DeclarationTail(s: string, d: nat, t: nat, e: nat) {
    && d < t <= |s|
    && (forall i :: d < i < t ==> IsSpace(s[i]))
    && (t == |s| || !IsSpace(s[t]))
    && e == (if t < |s| && s[t] == '{' then t + 1 else t)
  }

  /** Every keyword, name and parameter list of that shape is a declaration. */
  lemma DeclarationMatches(s: string, q: nat, k: nat, a: nat, b: nat, c: nat, d: nat, t: nat, e: nat)
    requires DeclarationHead(s, q, k, a, b, c, d) && DeclarationTail(s, d, t, e)
    ensures DeclarationAt(s, q) == Some(e)
  {
    KeywordMatches(s, q, k);
    NameMatches(s, k, a, b, c, d);
    ParametersMatch(s, b, c, d);
    BraceEndAt(s, d, t, e);
  }

  /** An anonymous `function (x)` is no declaration: no name follows the
      whitespace after the keyword. */
  lemma AnonymousFunctionExample()
    ensures DeclarationAt("function (x) {", 0) == None
  {
    var s := "function (x) {";
    assert HasAt(s, 0, "function") by { assert s[0..8] == "function"; }
    SpaceEndAt(s, 8, 9);
    assert WordEnd(s, 9) == 9;
  }

  /** A `def` without a parenthesised parameter list is no declaration. */
  lemma DefWithoutParametersExample()
    ensures DeclarationAt("def f:", 0) == None
  {
    var s := "def f:";
    assert !HasAt(s, 0, "function");
    assert HasAt(s, 0, "def") by { assert s[0..3] == "def"; }
    SpaceEndAt(s, 3, 4);
    WordEndAt(s, 4, 5);
    SpaceEndAt(s, 5, 5);
  }

  /** The keyword needs no word boundary before it: `undef g(x)` holds the
      declaration `def g(x)`. */
  lemma EmbeddedKeywordExample()
    ensures DeclarationAt("undef g(x)", 2) == Some(10)
  {
    var s := "undef g(x)";
    assert HasAt(s, 2, "def") by { assert s[2..5] == "def"; }
    DeclarationMatches(s, 2, 5, 6, 7, 7, 9, 10, 10);
  }

  /** In `def f(def g(x)` the declaration from the first `def` runs to the
      end, across the second `def`. */
  lemma OuterDeclarationExample()
    ensures DeclarationAt("def f(def g(x)", 0) == Some(14)
  {
    var s := "def f(def g(x)";
    assert HasAt(s, 0, "def") by { assert s[0..3] == "def"; }
    assert Name(s, 3, 4, 5);
    assert ParameterList(s, 5, 5, 13);
    DeclarationMatches(s, 0, 3, 4, 5, 5, 13, 14, 14);
  }

  /** The second `def` of `def f(def g(x)` starts a declaration too. */
  lemma InnerDeclarationExample()
    ensures DeclarationAt("def f(def g(x)", 6) == Some(14)
  {
    var s := "def f(def g(x)";
    assert HasAt(s, 6, "def") by { assert s[6..9] == "def"; }
    DeclarationMatches(s, 6, 9, 10, 11, 11, 13, 14, 14);
  }

  lemma BraceEndAt(s: string, d: nat, t: nat, e: nat)
    requires DeclarationTail(s, d, t, e)
    ensures BraceEnd(s, d + 1) == e
  {
    SpaceEndAt(s, d + 1, t);
  }

  lemma KeywordMatches(s: string, q: nat, k: nat)
    requires Keyword(s, q, k) && k <= |s|
    ensures DeclarationAt(s, q) == DeclaredName(s, k)
  {
    HasAtFirst(s, q, "function");
    HasAtFirst(s, q, "def");
  }

  lemma NameMatches(s: string, k: nat, a: nat, b: nat, c: nat, d: nat)
    requires Name(s, k, a, b) && ParameterList(s, b, c, d)
    ensures DeclaredName(s, k) == Parameters(s, b)
  {
    WordNotSpace(s[a]);
    SpaceEndAt(s, k, a);
    if b < c {
      WordNotSpace(s[b]);
    }
    WordEndAt(s, a, b);
  }

  lemma ParametersMatch(s: string, b: nat, c: nat, d: nat)
    requires ParameterList(s, b, c, d)
    ensures Parameters(s, b) == Some(BraceEnd(s, d + 1))
  {
    SpaceEndAt(s, b, c);
    CharEndAt(s, c + 1, ')', d);
  }

  // ---------------------------------------------------------------------------
  // if\s*\(  lazy-any  \)\s*{  ( \s*else\s*if\s*\(  lazy-any  \)\s*{ )*  \s*}   (dot matches newline)

  /** An if/else-if chain starting at `q`: `if`, then a condition, its `{` and
      the rest of the chain. The chain can only close on an empty body: its
      last `}` follows a `{` with nothing but whitespace in between. */
  function IfChainAt(s: string, q: nat): (r: Option<nat>)
    requires q <= |s|
    ensures r.Some? ==> q < r.value <= |s| && HasAt(s, q, "if") && s[r.value - 1] == '}'
    ensures r.Some? ==> exists o :: q + 2 < o && EmptyBody(s, o, r.value)
  {
    if HasAt(s, q, "if") then Condition(s, q + 2) else None
  }

  /** `s[o..e]` is a `{`, only whitespace, and a `}`. */
  predicate EmptyBody(s: string, o: nat, e: nat) {
    && o + 2 <= e <= |s|
    && s[o] == '{' && s[e - 1] == '}'
    && forall k :: o < k < e - 1 ==> IsSpace(s[k])
  }

  /** Optional whitespace and `(`, then the lazy condition. */
  function Condition(s: string, i: nat): (r: Option<nat>)
    requires i <= |s|
    ensures r.Some? ==> i < r.value <= |s| && s[r.value - 1] == '}'
    ensures r.Some? ==> exists o :: i < o && EmptyBody(s, o, r.value)
    decreases |s| - i
  {
    var o := SpaceEnd(s, i);
    if o < |s| && s[o] == '(' then LazyClose(s, o + 1) else None
  }

  /** The lazy `.*?` of a condition: each `)` from `i` on that is followed by
      optional whitespace and `{` is tried, nearest first, with the rest of the
      chain after it; the first that lets the chain complete is taken. */
  function LazyClose(s: string, i: nat): (r: Option<nat>)
    requires i <= |s|
    ensures r.Some? ==> i < r.value <= |s| && s[r.value - 1] == '}'
    ensures r.Some? ==> exists o :: i < o && EmptyBody(s, o, r.value)
    decreases |s| - i
  {
    if i == |s| then None
    else
      var j := SpaceEnd(s, i + 1);
      var rest := if s[i] == ')' && j < |s| && s[j] == '{' then Branches(s, j + 1) else None;
      if rest.Some? then rest else LazyClose(s, i + 1)
  }

  /** The greedy repetition of `else if` segments and the final `}`, after the
      `{` at `j - 1`: another segment is tried first; only when no choice
      inside it lets the chain complete does the chain end with optional
      whitespace and `}`. */
  function Branches(s: string, j: nat): (r: Option<nat>)
    requires 0 < j <= |s| && s[j - 1] == '{'
    ensures r.Some? ==> j < r.value <= |s| && s[r.value - 1] == '}'
    ensures r.Some? ==> exists o :: j - 1 <= o && EmptyBody(s, o, r.value)
    decreases |s| - j
  {
    var a := SpaceEnd(s, j);
    var segment :=
      if HasAt(s, a, "else") then
        var b := SpaceEnd(s, a + 4);
        if HasAt(s, b, "if") then Condition(s, b + 2) else None
      else None;
    if segment.Some? then segment
    else if a < |s| && s[a] == '}' then
      assert EmptyBody(s, j - 1, a + 1);
      Some(a + 1)
    else None
  }

  // ---------------------------------------------------------------------------
  // \bcase\b\s+\d+

  /** A numeric case label at `q`: `case` with a word boundary on both sides,
      at least one whitespace, and the longest run of digits after it. */
  function NumericCaseAt(s: string, q: nat): (r: Option<nat>)
    requires q <= |s|
    ensures r.Some? ==> exists a :: NumericLabel(s, q, a, r.value)
    ensures r.Some? ==> forall k :: q < k < r.value ==> s[k] != 'c'
  {
    if HasAt(s, q, "case") && (q == 0 || !IsWordChar(s[q - 1]))
       && (q + 4 == |s| || !IsWordChar(s[q + 4]))
    then
      var a := SpaceEnd(s, q + 4);
      var b := DigitEnd(s, a);
      if a == q + 4 || b == a then None
      else
        assert s[q + 1..q + 4] == "ase" by { assert s[q..q + 4] == "case"; }
        assert NumericLabel(s, q, a, b);
        Some(b)
    else None
  }

  /** `s[q..e]` is `case`, not preceded by a word character, then a run of
      whitespace up to `a`, then a run of digits up to `e` that `s` does not
      continue. */
  predicate NumericLabel(s: string, q: nat, a: nat, e: nat) {
    && HasAt(s, q, "case") && (q == 0 || !IsWordChar(s[q - 1]))
    && q + 4 < a < e <= |s|
    && (forall k :: q + 4 <= k < a ==> IsSpace(s[k]))
    && (forall k :: a <= k < e ==> IsDigit(s[k]))
    && (e == |s| || !IsDigit(s[e]))
  }

  /** Every numeric case label is matched, up to the end of its digits. */
  lemma NumericCaseMatches(s: string, q: nat, a: nat, e: nat)
    requires NumericLabel(s, q, a, e)
    ensures NumericCaseAt(s, q) == Some(e)
  {
    SpaceEndAt(s, q + 4, a);
    DigitEndAt(s, a, e);
  }

  // ---------------------------------------------------------------------------
  // else\s*if

  /** `else`, optional whitespace and `if` at `q`. */
  function ElseIfAt(s: string, q: nat): (r: Option<nat>)
    requires q <= |s|
    ensures r.Some? ==> q + 6 <= r.value <= |s| && ElseIfWords(s, q, r.value - 2)
  {
    if HasAt(s, q, "else") then
      var b := SpaceEnd(s, q + 4);
      if HasAt(s, b, "if") then Some(b + 2) else None
    else None
  }

  /** `s` holds `else` at `q`, only whitespace from `q + 4` to `b`, and `if` at
      `b`. */
  predicate ElseIfWords(s: string, q: nat, b: nat) {
    && HasAt(s, q, "else") && q + 4 <= b && HasAt(s, b, "if")
    && forall k :: q + 4 <= k < b ==> IsSpace(s[k])
  }

  /** Every `else`, whitespace, `if` is matched, up to the end of the `if`. */
  lemma ElseIfMatches(s: string, q: nat, b: nat)
    requires ElseIfWords(s, q, b)
    ensures ElseIfAt(s, q) == Some(b + 2)
  {
    assert s[b] == 'i' by { assert s[b] == s[b..b + 2][0]; }
    SpaceEndAt(s, q + 4, b);
  }

  // ---------------------------------------------------------------------------
  // [^a-zA-Z0-9](\d{2,})[^a-zA-Z0-9]

  /** A delimited magic number at `q`: a non-alphanumeric, a run of at least two
      digits, and a non-alphanumeric; the match includes both delimiters. */
  function MagicLiteralAt(s: string, q: nat): (r: Option<nat>)
    requires q <= |s|
    ensures r.Some? ==> DelimitedDigits(s, q, r.value)
  {
    if q < |s| && !IsAlnum(s[q]) then
      var b := DigitEnd(s, q + 1);
      if b >= q + 3 && b < |s| && !IsAlnum(s[b]) then Some(b + 1) else None
    else None
  }

  /** `s[q..e]` is a non-alphanumeric, at least two digits and a
      non-alphanumeric. */
  predicate DelimitedDigits(s: string, q: nat, e: nat) {
    && q + 4 <= e <= |s|
    && !IsAlnum(s[q]) && !IsAlnum(s[e - 1])
    && forall k :: q < k < e - 1 ==> IsDigit(s[k])
  }

  /** Every delimited run of two or more digits is matched, up to its trailing
      delimiter. */
  lemma MagicLiteralMatches(s: string, q: nat, e: nat)
    requires DelimitedDigits(s, q, e)
    ensures MagicLiteralAt(s, q) == Some(e)
  {
    DigitEndAt(s, q + 1, e - 1);
  }

  // ---------------------------------------------------------------------------

  function MatchAt(p: Pattern, s: string, q: nat): (r: Option<nat>)
    requires q <= |s|
    ensures r.Some? ==> q < r.value <= |s|
  {
    match p
    case SwitchBlock => SwitchAt(s, q)
    case Declaration => DeclarationAt(s, q)
    case IfChain => IfChainAt(s, q)
    case NumericCase => NumericCaseAt(s, q)
    case ElseIf => ElseIfAt(s, q)
    case MagicLiteral => MagicLiteralAt(s, q)
  }

  /** The leftmost non-overlapping matches of `p` in `s` from `from` on: the
      search tries each position in turn and resumes where a match ends. */
  function FindAll(p: Pattern, s: string, from: nat): (r: seq<Span>)
    requires from <= |s|
    ensures forall sp :: sp in r ==> from <= sp.start < sp.end <= |s|
    decreases |s| - from
  {
    if from == |s| then []
    else
      match MatchAt(p, s, from)
      case Some(e) => [Span(from, e)] + FindAll(p, s, e)
      case None => FindAll(p, s, from + 1)
  }

  /** The reported spans come in text order and do not overlap. */
  lemma {:induction false} FindAllOrdered(p: Pattern, s: string, from: nat)
    requires from <= |s|
    ensures Ordered(FindAll(p, s, from))
    decreases |s| - from
  {
    if from < |s| {
      var m := MatchAt(p, s, from);
      if m.Some? {
        FindAllOrdered(p, s, m.value);
        OrderedAfterMatch(p, s, from, m.value);
      } else {
        FindAllOrdered(p, s, from + 1);
        SkipMiss(p, s, from);
      }
    }
  }

  lemma OrderedAfterMatch(p: Pattern, s: string, from: nat, e: nat)
    requires from < |s| && MatchAt(p, s, from) == Some(e) && Ordered(FindAll(p, s, e))
    ensures Ordered(FindAll(p, s, from))
  {
    OrderedCons(Span(from, e), FindAll(p, s, e));
    MatchStep(p, s, from, e);
  }

  /** Each span ends at or before the start of every later one. */
  predicate Ordered(r: seq<Span>) {
    forall i, j :: 0 <= i < j < |r| ==> r[i].end <= r[j].start
  }

  /** Two different spans of an ordered sequence do not overlap. */
  lemma OrderedApart(r: seq<Span>, x: Span, y: Span)
    requires Ordered(r) && x in r && y in r && x != y
    ensures x.end <= y.start || y.end <= x.start
  {
    var i :| 0 <= i < |r| && r[i] == x;
    var j :| 0 <= j < |r| && r[j] == y;
  }

  lemma OrderedCons(x: Span, tail: seq<Span>)
    requires Ordered(tail) && forall sp :: sp in tail ==> x.end <= sp.start
    ensures Ordered([x] + tail)
  {
    var r := [x] + tail;
    forall i, j | 0 <= i < j < |r| ensures r[i].end <= r[j].start {
      assert r[j] == tail[j - 1] && r[j] in tail;
      if 0 < i {
        assert r[i] == tail[i - 1];
      }
    }
  }

  /** Every reported span is a match of `p`: it starts where `p` matches and
      ends where that match ends. */
  lemma {:induction false} FindAllSound(p: Pattern, s: string, from: nat)
    requires from <= |s|
    ensures forall sp :: sp in FindAll(p, s, from) ==> MatchAt(p, s, sp.start) == Some(sp.end)
    decreases |s| - from, 1
  {
    if from < |s| {
      var m := MatchAt(p, s, from);
      if m.Some? {
        SoundFromMatch(p, s, from, m.value);
      } else {
        SoundFromMiss(p, s, from);
      }
    }
  }

  /** A match at `from` is sound, and so is the scan after it. */
  lemma {:induction false} SoundFromMatch(p: Pattern, s: string, from: nat, e: nat)
    requires from < |s| && MatchAt(p, s, from) == Some(e)
    ensures forall sp :: sp in FindAll(p, s, from) ==> MatchAt(p, s, sp.start) == Some(sp.end)
    decreases |s| - from, 0
  {
    FindAllSound(p, s, e);
    SoundAfterMatch(p, s, from, e);
  }

  /** Without a match at `from`, the scan is the scan from `from + 1`. */
  lemma {:induction false} SoundFromMiss(p: Pattern, s: string, from: nat)
    requires from < |s| && MatchAt(p, s, from).None?
    ensures forall sp :: sp in FindAll(p, s, from) ==> MatchAt(p, s, sp.start) == Some(sp.end)
    decreases |s| - from, 0
  {
    FindAllSound(p, s, from + 1);
    SoundAfterMiss(p, s, from);
  }

  lemma SoundAfterMiss(p: Pattern, s: string, from: nat)
    requires from < |s| && MatchAt(p, s, from).None?
    requires forall sp :: sp in FindAll(p, s, from + 1) ==> MatchAt(p, s, sp.start) == Some(sp.end)
    ensures forall sp :: sp in FindAll(p, s, from) ==> MatchAt(p, s, sp.start) == Some(sp.end)
  {
    SkipMiss(p, s, from);
  }

  /** Where `p` does not match, the scan moves on by one position. */
  lemma SkipMiss(p: Pattern, s: string, from: nat)
    requires from < |s| && MatchAt(p, s, from).None?
    ensures FindAll(p, s, from) == FindAll(p, s, from + 1)
  {
  }

  lemma SoundAfterMatch(p: Pattern, s: string, from: nat, e: nat)
    requires from < |s| && MatchAt(p, s, from) == Some(e)
    requires forall sp :: sp in FindAll(p, s, e) ==> MatchAt(p, s, sp.start) == Some(sp.end)
    ensures forall sp :: sp in FindAll(p, s, from) ==> MatchAt(p, s, sp.start) == Some(sp.end)
  {
    MatchStep(p, s, from, e);
  }

  /** One match of the scan is a match of the pattern where it starts. */
  lemma SpanMatches(p: Pattern, s: string, sp: Span)
    requires sp in FindAll(p, s, 0)
    ensures sp.start <= |s| && MatchAt(p, s, sp.start) == Some(sp.end)
  {
    FindAllSound(p, s, 0);
  }

  /** No match is skipped: every position where `p` matches lies inside one of
      the reported matches (at its start, unless an earlier match covers it). */
  lemma {:induction false} FindAllCovers(p: Pattern, s: string, from: nat, q: nat)
    requires from <= q < |s| && MatchAt(p, s, q).Some?
    ensures Covered(FindAll(p, s, from), q)
    decreases |s| - from
  {
    var m := MatchAt(p, s, from);
    if m.Some? {
      if m.value <= q {
        FindAllCovers(p, s, m.value, q);
      }
      CoveredAfterMatch(p, s, from, m.value, q);
    } else {
      assert from != q;
      FindAllCovers(p, s, from + 1, q);
      CoveredAfterMiss(p, s, from, q);
    }
  }

  lemma CoveredAfterMatch(p: Pattern, s: string, from: nat, e: nat, q: nat)
    requires from <= q < |s| && MatchAt(p, s, from) == Some(e)
    requires q < e || Covered(FindAll(p, s, e), q)
    ensures Covered(FindAll(p, s, from), q)
  {
    CoveredCons(Span(from, e), FindAll(p, s, e), q);
    MatchStep(p, s, from, e);
  }

  lemma CoveredAfterMiss(p: Pattern, s: string, from: nat, q: nat)
    requires from < |s| && MatchAt(p, s, from).None?
    requires Covered(FindAll(p, s, from + 1), q)
    ensures Covered(FindAll(p, s, from), q)
  {
    SkipMiss(p, s, from);
  }

  lemma CoveredCons(x: Span, tail: seq<Span>, q: nat)
    requires x.start <= q < x.end || Covered(tail, q)
    ensures Covered([x] + tail, q)
  {
    var r := [x] + tail;
    if x.start <= q < x.end {
      assert r[0].start <= q < r[0].end;
    } else {
      var i :| 0 <= i < |tail| && tail[i].start <= q < tail[i].end;
      assert r[i + 1].start <= q < r[i + 1].end;
    }
  }

  /** Position `q` lies inside one of the spans `r`. */
  predicate Covered(r: seq<Span>, q: nat) {
    exists i :: 0 <= i < |r| && r[i].start <= q < r[i].end
  }

  /** Where `p` matches, the scan reports that match and resumes at its end. */
  lemma MatchStep(p: Pattern, s: string, from: nat, e: nat)
    requires from < |s| && MatchAt(p, s, from) == Some(e)
    ensures FindAll(p, s, from) == [Span(from, e)] + FindAll(p, s, e)
  {
  }

  /** The text of every match of `p` in `s`, in order. */
  function Matches(p: Pattern, s: string): (r: seq<string>)
    ensures |r| == |FindAll(p, s, 0)|
  {
    var spans := FindAll(p, s, 0);
    seq(|spans|, i requires 0 <= i < |spans| => s[spans[i].start..spans[i].end])
  }
}
