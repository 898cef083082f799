# Smelly code detector: the detection engine in Dafny

This project models the detection engine of `smelly-code-detector.py`. It is
made of five independent heuristics that scan the raw text of one source file
and report code smells:

- **Long switch/case.** Flat `switch (...) { ... }` blocks are found left to
  right without overlap; one that starts inside an earlier match is not found
  on its own. Each block runs from `switch` to the first `}` after its `{`:
  `switch`, optional whitespace, `(`, a condition up to the first `)` that is
  followed by optional whitespace, `{`, at least one character other than `}`,
  and a `}`. The
  condition may hold other `)` and cross lines. A block is reported when it has
  at least `min_cases` numeric `case N` labels. The finding carries that count
  and the block's first 200 characters.
- **Long methods.** Declarations are found left to right without overlap; one
  that starts inside an earlier match is not found on its own (in
  `def f(def g(x)` only the match from the first `def`). A declaration is the
  keyword `function` or `def` (with no word boundary required before it, so
  `undef g(x)` holds `def g(x)`), at least one whitespace character, a name of word characters, optional
  whitespace, `(`, anything up to the first `)`, that `)`, then optional
  whitespace and an optional `{`. An anonymous `function (x) {` or a `def`
  without a parenthesised parameter list is not a declaration. From each one,
  lines are counted until a line that opens with `}` or until the count passes
  the threshold. A declaration whose count reaches the threshold is reported
  with that count and the declaration's matched text.
- **Deep nesting.** Every line whose leading whitespace, divided by 4, reaches
  the threshold is reported. The finding carries the line's 1-based number and
  the stripped line.
- **Long if/else-if chains.** The chain pattern is `if`, a condition and `{`,
  then any number of `else if (...) {` segments, then `}`. Each `{` in it must
  be followed, after whitespace only, by the next `else if` or by the final
  `}`. The conditions are lazy runs that may cross lines and braces. So every
  chain the pattern finds ends with an empty body: a `{`, only whitespace, and
  a `}`. A conventional chain with non-empty bodies, such as
  `if (a) { x } else if (b) { y }`, is not found at all; a text without an
  empty body has no chains. The `else if` occurrences counted are those inside
  the matched text. A chain is reported when it has at least `threshold` of
  them, with that count and the chain's first 200 characters.
- **Magic numbers.** Every distinct run of two or more digits that has a
  non-alphanumeric character on both sides is reported once, unless its
  leading delimiter is the trailing delimiter of the previous match (in
  `(12,34)` only `12`).

The excerpts differ by detector. A switch block or chain shorter than 200
characters is its own excerpt. The long method excerpt is the full matched
declaration. The deep nesting excerpt is the whole stripped line.

Layout:

- `text.dfy` (`Text`) holds the character classes and the line splitting. It
  also has `lstrip`/`strip` and the greedy runs (`\s*`, `\w+`, `\d+`, `[^x]*`)
  that the patterns use.
- `patterns.dfy` (`Patterns`) has one hand-written matcher for each of six of
  the seven regular expressions. The seventh, `^\s*}`, is `IsClosingLine` in
  `long_methods.dfy`. Each matcher follows Python's backtracking order: greedy
  runs, the lazy `.*?` of the switch and if conditions, and the greedy
  `(...)*` of the else-if segments. `FindAll` is the leftmost, non-overlapping
  scan of `re.finditer`/`re.findall`. It is proved sound (every span is a
  match), complete (every position where the pattern matches lies inside a
  span) and ordered.
- `findings.dfy` (`Findings`) holds the finding records, the 200-character
  excerpt and the selection loop shared by the switch and if/else detectors.
- There is one module per detector: `switch_case.dfy`, `long_methods.dfy`,
  `deep_nesting.dfy`, `if_else.dfy` and `magic_numbers.dfy`.

The four list-building detectors are methods with the source's own loops. The
long method count keeps its inner loop with `break`. Each method is proved
equal to a recursive function, and lemmas state what that function
reports. The magic number detector is a function that returns a set.

## Model

| member | source | states |
|---|---|---|
| Text.SpaceEndAt | smelly-code-detector.py:10 | A maximal run of whitespace from `i` to `j` is exactly what the greedy `\s*`/`\s+` consumes from `i`. |
| Text.DigitEndAt | smelly-code-detector.py:55 | A maximal run of digits from `i` to `j` is exactly what the greedy `\d+` consumes from `i`. |
| Text.WordEndAt | smelly-code-detector.py:17 | A maximal run of word characters from `i` to `j` is exactly what the greedy `\w+` consumes from `i`. |
| Text.CharEndAt | smelly-code-detector.py:17 | When the first `c` at or after `i` is at `j`, `[^c]*` consumes from `i` up to `j`. |
| Text.Lines | smelly-code-detector.py:35 | The lines contain no line feed, there are no more lines than characters, and a text has no lines exactly when it is empty. |
| Text.LinesRoundTrip | smelly-code-detector.py:35 | Joining the lines with line feeds gives back the text, except for a final line feed, which opens no empty last line. |
| Text.LStrip | smelly-code-detector.py:39 | The result is the suffix of the line left after removing only whitespace in front, and it does not start with whitespace. So `len(line) - len(line.lstrip())` is the leading whitespace count. |
| Text.Strip | smelly-code-detector.py:41 | The result neither starts nor ends with whitespace, and it is the middle of the line with only whitespace cut from either side. |
| Text.LeadingSpaceOfIndented | smelly-code-detector.py:39 | `n` spaces before a non-whitespace character give a leading whitespace count of exactly `n`. |
| Patterns.SwitchAt | smelly-code-detector.py:6 | A switch match starts with `switch`, ends with `}`, and contains a flat brace block: `{`, at least one character, and no `}` before the last. |
| Patterns.SwitchAtShape | smelly-code-detector.py:6 | A switch match is `switch`, whitespace, `(`, the condition up to the first `)` that a flat body follows, and that body: the match ends where the body does. |
| Patterns.SwitchMatches | smelly-code-detector.py:6 | Conversely, `switch`, whitespace, `(` and the first `)` after it that a flat body follows always form a match, ending where that body ends. |
| Patterns.SwitchCondition | smelly-code-detector.py:6 | The lazy condition scan only succeeds by closing a flat brace block after it. |
| Patterns.SwitchConditionShape | smelly-code-detector.py:6 | The lazy scan stops at the first `)` that a flat body follows, and ends where that body ends. |
| Patterns.SwitchConditionMatches | smelly-code-detector.py:6 | Conversely, when the first `)` that a flat body follows is at `d`, the lazy scan ends where the body after `d` ends. |
| Patterns.FlatBody | smelly-code-detector.py:6 | `\s*{[^}]+}` ends inside the text with `}` and holds a flat brace block. |
| Patterns.FlatBodyShape | smelly-code-detector.py:6 | A flat body is a whitespace run followed by `{`, at least one character other than `}`, and the first `}`. |
| Patterns.FlatBodyMatches | smelly-code-detector.py:6 | Conversely, whitespace followed by such a block is a flat body ending after its `}`. |
| Patterns.DeclarationAt | smelly-code-detector.py:17 | A declaration match starts with `function` or `def` and contains the `)` that closes the parameter list. |
| Patterns.DeclarationShape | smelly-code-detector.py:17 | A declaration match is the keyword, at least one whitespace character, a non-empty name of word characters, whitespace, `(`, the first `)` after it, the maximal whitespace run after that `)`, and the `{` after it if there is one, where the match ends. |
| Patterns.DeclarationMatches | smelly-code-detector.py:17 | Conversely, every keyword, whitespace, name, whitespace, `(` up to the first `)`, and maximal whitespace after it is a declaration match, ending after a following `{` if there is one. |
| Patterns.AnonymousFunctionExample | smelly-code-detector.py:17 | `function (x) {` holds no declaration: no name follows the keyword. |
| Patterns.DefWithoutParametersExample | smelly-code-detector.py:17 | `def f:` holds no declaration: no `(` follows the name. |
| Patterns.EmbeddedKeywordExample | smelly-code-detector.py:17 | `undef g(x)` holds the declaration `def g(x)`, because no word boundary is required before the keyword. |
| Patterns.OuterDeclarationExample | smelly-code-detector.py:17 | In `def f(def g(x)` the declaration from the first `def` runs to the end of the text, across the second `def`. |
| Patterns.InnerDeclarationExample | smelly-code-detector.py:17 | The second `def` of `def f(def g(x)` starts a declaration of its own. |
| Patterns.IfChainAt | smelly-code-detector.py:46 | A chain match starts with `if`, ends inside the text with `}`, and that `}` closes an empty body: a `{` after the `if` followed by whitespace only. |
| Patterns.Condition | smelly-code-detector.py:46 | A condition and the rest of the chain after it end with `}` closing an empty body. |
| Patterns.LazyClose | smelly-code-detector.py:46 | Each lazy condition ends at a `)` followed by `{` and the rest of the chain, which ends with `}` closing an empty body. |
| Patterns.Branches | smelly-code-detector.py:46 | After a `{`, the repetition of else-if segments ends with `}` closing an empty body that starts at this `{` or later. |
| Patterns.NumericCaseAt | smelly-code-detector.py:10 | A label match is the word `case` with a word boundary before it, a run of whitespace and a maximal run of digits. No other `c` occurs inside it. |
| Patterns.NumericCaseMatches | smelly-code-detector.py:10 | Conversely, every `case` with a word boundary before it, a whitespace run and a maximal digit run is a match, up to the end of its digits. |
| Patterns.ElseIfAt | smelly-code-detector.py:49 | A match is `else`, then only whitespace, then `if`, and ends after the `if`. |
| Patterns.ElseIfMatches | smelly-code-detector.py:49 | Conversely, every `else`, whitespace, `if` is a match, up to the end of the `if`. |
| Patterns.MagicLiteralAt | smelly-code-detector.py:55 | A match is a non-alphanumeric character, at least two digits and another non-alphanumeric character. |
| Patterns.MagicLiteralMatches | smelly-code-detector.py:55 | Conversely, every non-alphanumeric, run of two or more digits and non-alphanumeric is a match, up to its trailing delimiter. |
| Patterns.FindAll | smelly-code-detector.py:6 | Spans lie inside the text, at or after the scan's start, and are non-empty. |
| Patterns.FindAllOrdered | smelly-code-detector.py:6 | Spans come in text order without overlap: each ends at or before the start of every later one. |
| Patterns.FindAllSound | smelly-code-detector.py:10 | Every span is a match of the pattern starting at its start and ending at its end. |
| Patterns.FindAllCovers | smelly-code-detector.py:10 | Every position where the pattern matches lies inside one of the spans, so no match is skipped. |
| Patterns.Matches | smelly-code-detector.py:6-9 | There is one matched text per span of the scan. `SwitchCaseDetector.SwitchBlocks` (the `finditer` of line 6) and `IfElseDetector.IfChains` (the `findall` of line 46, whose one group is the whole match) are this list for their patterns. |
| Findings.Excerpt | smelly-code-detector.py:12 | `block[:200]` is a prefix of the block of at most 200 characters. It is 200 characters long or the whole block, so its length is min(200, block length). |
| Findings.FlagBlocksSpec | smelly-code-detector.py:8-12 | A block is reported exactly when its count reaches the threshold, with that count and its excerpt. There are at most as many findings as blocks. |
| SwitchCaseDetector.CaseCount | smelly-code-detector.py:10-11 | The label count is positive exactly when the block holds a numeric case label. |
| SwitchCaseDetector.DetectSwitchCaseSmell | smelly-code-detector.py:4-13 | The loop returns the findings of the selection over the switch blocks, counted by numeric labels. |
| SwitchCaseDetector.SwitchBlocksAreFlat | smelly-code-detector.py:6 | Every switch block starts with `switch` and ends with a flat brace block closed by its first `}`. |
| SwitchCaseDetector.SwitchMatchIsFlat | smelly-code-detector.py:6 | A single switch match's text is flat in the same sense. |
| SwitchCaseDetector.SwitchReportedIff | smelly-code-detector.py:11-12 | A block is reported if and only if its numeric label count is at least `min_cases`, with metric equal to that count. So `min_cases - 1` labels give nothing. |
| SwitchCaseDetector.CountedLabelsAreNumeric | smelly-code-detector.py:10 | Every counted label is `case` as a whole word, a run of whitespace up to some position `a`, and a maximal run of digits from `a` to the end of the span. |
| SwitchCaseDetector.NonNumericLabelNotCounted | smelly-code-detector.py:10 | A `case` whose whitespace is followed by a non-digit is never counted. |
| SwitchCaseDetector.NumericLabelsAllCounted | smelly-code-detector.py:10 | Every numeric label in the block, wherever it sits, is exactly one of the counted matches. |
| SwitchCaseDetector.LabelStartsMatch | smelly-code-detector.py:10 | A label match that covers the `c` of another label starts at that `c`, so label matches cannot swallow one another. |
| LongMethodDetector.IsClosingLine | smelly-code-detector.py:27 | `^\s*}` matches exactly when some `}` in the line has only whitespace before it. |
| LongMethodDetector.MethodLengthFrom | smelly-code-detector.py:25-28 | The counter never goes back and never passes the number of lines, and it counts one more line while there is one. |
| LongMethodDetector.MethodLength | smelly-code-detector.py:23-28 | The final count is at most the number of lines, and at least 1 when there is a line. |
| LongMethodDetector.CountMethodLines | smelly-code-detector.py:23-28 | The counting loop with `break` ends with the count `MethodLength` gives. |
| LongMethodDetector.MethodLengthFromSpec | smelly-code-detector.py:25-28 | From any reachable count, the loop stops at the first closing line, at the first count past the threshold, or at the end. The count never exceeds `threshold + 1`, and the stopping line is counted. |
| LongMethodDetector.MethodLengthSpec | smelly-code-detector.py:23-28 | The same facts from the declaration's own line on: the count is at most `threshold + 1`, no earlier line closes a block, and the line it stops on is counted. |
| LongMethodDetector.LongMethodIff | smelly-code-detector.py:25-30 | The count reaches the threshold if and only if there are at least `threshold` lines and none of lines 1 to `threshold - 1` opens with `}`. So an early `}` or a text that ends too soon means no report. |
| LongMethodDetector.Declarations | smelly-code-detector.py:17 | The declaration spans lie inside the text. |
| LongMethodDetector.NestedDeclarationExample | smelly-code-detector.py:17 | The scan does not overlap: in `def f(def g(x)` the second `def` starts a declaration, but only the match from the first is found. |
| LongMethodDetector.LongMethodFindings | smelly-code-detector.py:19-31 | There is at most one finding per declaration, each a long method whose count reached the threshold. |
| LongMethodDetector.DetectLongMethods | smelly-code-detector.py:15-32 | The outer loop returns `LongMethodFindings` over all declarations, in order. |
| LongMethodDetector.LongMethodFindingsSpec | smelly-code-detector.py:19-31 | Each finding is a declaration's count with its matched text, and its metric is `threshold` or `threshold + 1`. Every declaration whose count reaches the threshold is reported. |
| LongMethodDetector.LongMethodFindingsSound | smelly-code-detector.py:30-31 | Every finding is the finding of one of the declarations, with metric `threshold` or `threshold + 1`. |
| LongMethodDetector.LongMethodFindingsComplete | smelly-code-detector.py:30-31 | Every declaration whose count reaches the threshold has its finding. |
| LongMethodDetector.LongMethodExcerpts | smelly-code-detector.py:17-31 | Every excerpt is the matched text of one of the declarations, and it starts with `function` or `def`. |
| LongMethodDetector.DeclarationText | smelly-code-detector.py:17 | A declaration's matched text starts with its keyword. |
| NestingDetector.NestingFindings | smelly-code-detector.py:38-41 | Over the first `n` lines there are at most `n` findings, each a deep nesting finding whose metric is a line number from 1 to `n`. Distinct, increasing line numbers are `NestingFindingsOrdered`. |
| NestingDetector.DetectDeepNesting | smelly-code-detector.py:34-42 | The loop over the lines returns `NestingFindings` for all lines. |
| NestingDetector.IndentIsLeadingSpace | smelly-code-detector.py:39 | `len(line) - len(line.lstrip())` is the number of leading whitespace characters. |
| NestingDetector.NestingFindingsSpec | smelly-code-detector.py:38-41 | A line is reported exactly when its leading whitespace divided by 4 reaches the threshold. Metrics are 1-based line numbers in 1..line count, in strictly increasing order, and the excerpt is the stripped line. |
| NestingDetector.NestingFindingsSound | smelly-code-detector.py:40-41 | Every finding names a deep line by its 1-based number, with the line stripped. |
| NestingDetector.NestingFindingsOrdered | smelly-code-detector.py:38-41 | Line numbers strictly increase along the findings. |
| NestingDetector.NestingFindingsComplete | smelly-code-detector.py:38-41 | Every deep line has a finding. |
| NestingDetector.NestingBoundary | smelly-code-detector.py:39-40 | A line with exactly `4 * threshold` leading spaces is deep; one with `4 * threshold - 1` is not. |
| IfElseDetector.ElseIfCount | smelly-code-detector.py:49-50 | The `else if` count is positive exactly when the chain holds `else`, whitespace and `if`. |
| IfElseDetector.DetectLongIfElse | smelly-code-detector.py:44-52 | The loop returns the findings of the selection over the chains, counted by `else if` occurrences. |
| IfElseDetector.IfElseReportedIff | smelly-code-detector.py:50-51 | A chain is reported if and only if its `else if` count is at least the threshold, with that count as metric. |
| IfElseDetector.IfChainsShape | smelly-code-detector.py:46 | Every chain starts with `if` and ends with `{`, only whitespace, and `}`. |
| IfElseDetector.IfChainText | smelly-code-detector.py:46 | A single chain match's text starts with `if` and ends with an empty body. |
| IfElseDetector.ChainsNeedEmptyBody | smelly-code-detector.py:46 | A text with any chain holds an empty brace body, so a text whose every body holds code has no chains. |
| IfElseDetector.CountedElseIfsAreElseIf | smelly-code-detector.py:49 | Every counted occurrence is `else`, only whitespace, then `if`. |
| IfElseDetector.ElseIfsAllCounted | smelly-code-detector.py:49 | Every `else if` occurrence in the chain is exactly one of the counted matches. |
| IfElseDetector.ElseIfNoOverlap | smelly-code-detector.py:49 | Two `else if` occurrences cannot overlap. |
| MagicNumberDetector.MagicLiterals | smelly-code-detector.py:55 | The `findall` list has one literal per match. Each is at least two digits, delimited in the text at its match's position. |
| MagicNumberDetector.GroupsDelimited | smelly-code-detector.py:55 | The group of every match is at least two digits with a non-alphanumeric character directly before and after it. |
| MagicNumberDetector.DetectMagicNumbers | smelly-code-detector.py:54-56 | Every reported value is a run of at least two digits with a non-alphanumeric character on both sides. So it is never a single digit and never at the very start or end of the text. |
| MagicNumberDetector.ScanSpansDelimited | smelly-code-detector.py:55 | Every match has room for two delimiters around at least two digits. |
| MagicNumberDetector.MatchLiteral | smelly-code-detector.py:55 | The group of a match is at least two digits, with a non-alphanumeric character directly before and after it. |
| MagicNumberDetector.RunMatches | smelly-code-detector.py:55 | A delimited run of two or more digits is a match from its leading delimiter to its trailing one. |
| MagicNumberDetector.MagicNumbersComplete | smelly-code-detector.py:55-56 | A delimited run of two or more digits is reported unless its leading delimiter is the trailing delimiter of a previous match. |
| MagicNumberDetector.ConsumedNotMatched | smelly-code-detector.py:55 | A delimiter that ends one match starts no match of the scan, so the run behind it is not matched from there. |
| MagicNumberDetector.LiteralReported | smelly-code-detector.py:55-56 | The literal of every match of the scan is in the reported set. |
| MagicNumberDetector.CoveringMatch | smelly-code-detector.py:55 | Given a delimited run of two or more digits, some match either is exactly that run with its delimiters or ends right after the run's leading delimiter. |
| MagicNumberDetector.InsideMatch | smelly-code-detector.py:55 | Inside a match, only the last character can start another delimited run. |
| MagicNumberDetector.ConsumedDelimiterExample | smelly-code-detector.py:55-56 | In `(12,34)` only `12` is reported. |
| MagicNumberDetector.TextEdgesExample | smelly-code-detector.py:55-56 | In `12+345` nothing is reported: the runs at the start and the end of the text lack a delimiter. |

## Left out

- The file driver (`analyze_file` and `traverse_folder`, lines 58-86) is not part of this model. That covers the directory walk, the extension filter, file reading with ignored decoding errors, and the printed report. The report prints `item[2]` of every finding, but magic number findings are pairs, so the driver as written would fail on them.
- Python's `re` engine in general is left out. Only the seven regular expressions the detectors use are written out: six as matchers in `Patterns`, and `^\s*}` as `IsClosingLine`.
- Lines are split on `'\n'` only. `str.splitlines` also splits on `\r`, `\v`, `\f`, `\x1c`-`\x1e`, `\x85`, `\u2028` and `\u2029`. Whitespace for `\s`, `strip` and `lstrip` is the full `str.isspace` set: tab to carriage return, the separators `\x1c`-`\x1f`, space, `\x85`, `\xa0` and the Unicode spaces and separators. `\d` and `\w` are ASCII only.
- The default thresholds (5, 30, 4 and 4) are not modelled. Every threshold is a parameter of its detector.
- Each `Kind` stands for the label string its findings carry, rather than holding that string.
- DetectMagicNumbers: the result is a set, so the order in which Python iterates `set(matches)` is not modelled. Each magic number finding is its literal, without the constant label "Magic number".
