# A verified model of a small grep regex engine

This project models the regular-expression engine of a Rust `grep` clone.
The engine has three stages, and each stage is one Dafny module:

- **`RegexLexer`** (`lexer.dfy`) models the lexer (`src/regex_lexer.rs`).
  - The cursor over the pattern's characters is `Lexer(chars, pos)`. It holds no character past the end of the pattern.
  - `NextToken` is a pure step function. It returns `Result<(Token, Lexer), LexError>`.
  - Brace quantifiers (`{n}`, `{n,}`, `{n,m}`) and backslash escapes are read by small sub-functions.
  - Every `process::exit` and failed number parse becomes an explicit error.
  - A reference definition of digit runs and their decimal value (`DigitRun`, `DecimalValue`) serves as the partner of `read_number`.
- **`LexerTable`** (`lexer_table.dfy`) derives the token lists of the lexer's test table from the model.
- **`RegexParser`** (`parser.dfy`) models the recursive-descent parser (`src/regex_parser.rs`).
  - The parser pulls tokens lazily through a two-token window (`cur`, `peek`).
  - It threads the lexer state through `build_ast` and builds a `Node` tree.
  - The quirks of the code are kept:
    - After `|`, the right alternative stops at `)`. The caller skips that `)` and goes on appending to the same node list.
    - `Eof` closes a group under number 0.
    - A stray `)` at top level ends the parse, and the text after it is never parsed.
  - `Compile` is the test harness's sequence: `new`, then `build_ast(0)`.
- **`RegexMatcher`** (`matcher.dfy`) models the matcher (`src/regex_matcher.rs`).
  - It works on a set of live text positions.
  - `Matches(node, positions, chars)` returns the boolean answer and the new positions, or `Unsupported` for the `todo!()` arms.
  - `Search` is the pipeline the test harness runs: compile, start at every position, match.
- **`Scenarios`** (`scenarios.dfy`) and **`GroupScenarios`** (`scenarios_groups.dfy`) derive the verdicts of the matcher's test table from the model. `GroupScenarios` holds the rows whose patterns nest groups.
  - They work token by token for the parse and node by node for the match.
  - With three or more alternatives in one group, the `|`/`)` quirk nests each alternation inside the right side of the one before. The text after the `)` then joins the right side of the last `|` but one. `GroupScenarios.AltParse` shows this for `(b|bc|de|fg)d45`.

`wrappers.dfy` (`Option`, `Result`) and `ascii.dfy` (the ASCII character predicates the code uses) are support modules.

## Model

| member | source | states |
|---|---|---|
| RegexLexer.New | src/regex_lexer.rs:54-65 | A new lexer has the cursor on the first character, and that character is absent exactly for the empty pattern. |
| RegexLexer.ReadNumber | src/regex_lexer.rs:85-105 | `read_number` fails, with the cursor position, exactly when no digit is under the cursor; on success the cursor stays inside the pattern. |
| RegexLexer.ReadDigitsValue | src/regex_lexer.rs:88-102 | From any digit of a maximal run, with the earlier digits already folded in, the loop yields the decimal value of the whole run and stops on its last digit. |
| RegexLexer.ReadNumberOfDigits | src/regex_lexer.rs:85-105 | On a maximal run of `k` digits, `read_number` returns their decimal value and leaves the cursor on the last digit. |
| RegexLexer.ReadNumberValue | src/regex_lexer.rs:85-105 | `read_number` reads the maximal digit run under the cursor in decimal, or fails when the run is empty. |
| RegexLexer.ReadBrace | src/regex_lexer.rs:107-138 | A brace quantifier that is read successfully is a `Quantifier` token, with the cursor on a closing `}` further on. |
| RegexLexer.AfterLowerBound | src/regex_lexer.rs:110-136 | After the lower bound, a successful read ends on a `}` at or after the cursor. |
| RegexLexer.UpperBound | src/regex_lexer.rs:120-129 | The upper bound of `{n,m}`, when read successfully, ends on a `}` beyond the cursor. |
| RegexLexer.Escape | src/regex_lexer.rs:158-184 | A successful escape is never `Eof` and ends on a character beyond the backslash, inside the pattern. |
| RegexLexer.Scan | src/regex_lexer.rs:141-188 | `Eof` comes exactly when the cursor is past the end and then leaves the cursor unchanged; any other token ends inside the pattern. |
| RegexLexer.NextToken | src/regex_lexer.rs:140-191 | `next_token` returns `Eof` exactly when the cursor is past the end. Every other token moves the cursor strictly forward and at most to the end of the pattern. |
| RegexLexer.SingleCharacterTokens | src/regex_lexer.rs:144-157 | Each of `\| ( ) [ ] ^ $ .` yields its own token and each of `* + ?` its quantifier. The cursor moves by exactly one. |
| RegexLexer.OrdinaryCharacter | src/regex_lexer.rs:186-190 | Any character other than the special ones is a `Literal` of itself, one character long. |
| RegexLexer.BraceAfterLowerBound | src/regex_lexer.rs:107-110 | A brace continues, after its lower bound, from the character that follows that bound. |
| RegexLexer.UpperBoundAfterComma | src/regex_lexer.rs:116-129 | After `{n,m` the brace is closed exactly when `}` follows, and otherwise fails at that character. |
| RegexLexer.BraceClosedUpperBound | src/regex_lexer.rs:116-137 | `{n,m}` with both bounds read yields `Quantifier(n, Some m)`, and the cursor ends past the `}`. |
| RegexLexer.BraceUnclosedUpperBound | src/regex_lexer.rs:123-128 | `{n,m` not followed by `}` fails at the character after `m`. |
| RegexLexer.BraceExact | src/regex_lexer.rs:112-115 | `{n}` yields `Quantifier(n, Some n)` with `n` the decimal value of the digits. The cursor ends just past `}`. |
| RegexLexer.BraceUnbounded | src/regex_lexer.rs:116-119 | `{n,}` yields `Quantifier(n, None)`, and the cursor ends just past `}`. |
| RegexLexer.BraceRange | src/regex_lexer.rs:120-129 | `{n,m}` yields `Quantifier(n, Some m)` with both bounds read in decimal, and the cursor ends just past `}`. |
| RegexLexer.BraceWithoutBound | src/regex_lexer.rs:104-109 | A `{` not followed by a digit fails at the next character. |
| RegexLexer.BraceBadSeparator | src/regex_lexer.rs:131-134 | A lower bound followed by neither `}` nor `,` fails there. |
| RegexLexer.BraceMissingUpperBound | src/regex_lexer.rs:120-122 | `{n,` followed by neither `}` nor a digit fails where the upper bound should start. |
| RegexLexer.BraceUnclosed | src/regex_lexer.rs:123-128 | `{n,m` not closed by `}` fails, also at the end of the pattern. |
| RegexLexer.ClassEscapes | src/regex_lexer.rs:158-168 | `\w` yields `AlphaNum` and `\d` yields `Digit`, each two characters long. |
| RegexLexer.BackReferenceEscape | src/regex_lexer.rs:169-173 | `\` followed by a digit run yields `BackRef` of the whole run's decimal value, and the cursor ends past the run. |
| RegexLexer.PunctuationEscape | src/regex_lexer.rs:174-179 | `\` followed by ASCII punctuation yields that character as a `Literal`. |
| RegexLexer.BadEscapes | src/regex_lexer.rs:180-183 | A backslash at the end, or before anything other than `w`, `d`, a digit or punctuation, fails. |
| RegexLexer.PastTheEnd | src/regex_lexer.rs:67-75 | Past the end, every further call returns `Eof` and moves the cursor by one. |
| RegexLexer.EofIsSticky | src/regex_lexer.rs:140-142 | Once a call has returned `Eof`, every later call returns `Eof`. |
| RegexLexer.EofWithinLength | src/regex_lexer.rs:186-190 | Unless a lexical error comes first, a pattern of `n` characters yields `Eof` by the `n+1`-th call. |
| RegexLexer.Tokens | src/regex_lexer.rs:212-220 | The test loop collects at most as many tokens as there are characters, and never `Eof`. |
| RegexLexer.TokensAreSuccessiveCalls | src/regex_lexer.rs:212-220 | The collected tokens are exactly the results of the successive `next_token` calls, and the call after them returns `Eof`. |
| RegexLexer.TokensStep | src/regex_lexer.rs:214-219 | The collected tokens are one call's token followed by the tokens after it. |
| RegexLexer.SimpleStep | src/regex_lexer.rs:143-157 | A character other than `\` and `{` is one token of its own, one character long. |
| RegexLexer.TokensOverSimple | src/regex_lexer.rs:143-157 | A stretch without `\` and `{` lexes to one token per character, followed by the tokens of the rest. |
| RegexLexer.SimplePatternTokens | src/regex_lexer.rs:143-157 | A pattern without `\` and `{` lexes to one token per character. |
| LexerTable.OptionalSuffix | src/regex_lexer.rs:201 | `ab?` lexes to two literals and `Quantifier(0, Some 1)`. |
| LexerTable.RangeAndBackReference | src/regex_lexer.rs:202 | `(a\|bc){1,3}\12` lexes to the punctuators and literals, `Quantifier(1, Some 3)` and `BackRef(12)`. |
| LexerTable.DigitClass | src/regex_lexer.rs:203 | `a*\d+` lexes to `a`, `Quantifier(0, None)`, `Digit`, `Quantifier(1, None)`. |
| LexerTable.WordClass | src/regex_lexer.rs:204 | `a*\wb` lexes to `a`, `Quantifier(0, None)`, `AlphaNum`, `b`. |
| LexerTable.ExactBrace | src/regex_lexer.rs:205 | `a{1}b` lexes to `a`, `Quantifier(1, Some 1)`, `b`. |
| LexerTable.OpenBrace | src/regex_lexer.rs:206 | `a{1,}b` lexes to `a`, `Quantifier(1, None)`, `b`. |
| LexerTable.BracketTokens | src/regex_lexer.rs:207 | `a[bwz]b` lexes to literals around `LBracket` and `RBracket`. |
| LexerTable.AnchorsAndWildcard | src/regex_lexer.rs:208 | `^a.b$` lexes to both anchors, two literals and the wildcard. |
| LexerTable.EscapedBrace | src/regex_lexer.rs:209 | `a\{` lexes to the literals `a` and `{`. |
| RegexParser.Advance | src/regex_parser.rs:53-57 | `next_token` shifts `peek` into `cur`, keeps the group counter, and never increases the work left. |
| RegexParser.AdvanceErrors | src/regex_parser.rs:53-57 | `next_token` fails exactly when the lexer does, with the lexer's error wrapped unchanged. Otherwise the lexer's next token enters the window. |
| RegexParser.New | src/regex_parser.rs:39-51 | The new parser's `cur` and `peek` are the lexer's first and second tokens, and its counter is 0. It fails exactly when lexing one of those two tokens fails. |
| RegexParser.BracketItems | src/regex_parser.rs:70-88 | The bracket loop ends on `]` with an `Or`, or a `Not` when negated, of literals only, extending the literals already collected. Any other token, `Eof` included, is the `UnsupportedInBracket` error of the `todo!()` arm. Every failure is that error or a lexical one. |
| RegexParser.BuildBracketGroup | src/regex_parser.rs:60-89 | A bracket group is a `Not` exactly when it starts with `^`, otherwise an `Or`, and it holds literals only. A first token after the optional `^` that is neither a literal nor `]` fails with `UnsupportedInBracket`. Every failure is that error or a lexical one. |
| RegexParser.UnclosedBracket | src/regex_parser.rs:70-88 | `[s` and `[^s` over ordinary characters, never closed, fail with `UnsupportedInBracket(Eof)` for every `s`. |
| RegexParser.BracketRunsOut | src/regex_parser.rs:70-88 | Inside brackets, ordinary characters running to the end of the pattern lead to the `Eof` error, whatever was collected before. |
| RegexParser.WrapLast | src/regex_parser.rs:117-128 | Only the last node is replaced, by its wrapped form. |
| RegexParser.Accumulate | src/regex_parser.rs:96-128 | A literal, `\d`, `\w`, `.` and `^` append `Literal`, `Digit`, `Alphanum`, `Wildcard` and `StartAnchor` respectively, and touch nothing else. A quantifier or `$` wraps the last node. With nothing before them they fail with `MisplacedQuantifier` and `MisplacedEndAnchor`. `]` and a back-reference fail with `UnsupportedToken`. These are the only failures. |
| RegexParser.PipeStep | src/regex_parser.rs:129-136 | `\|` leaves a single `Or` of exactly two alternatives. The left is the group of everything so far under the current number. The right is a group closed by `)` under that number, or by `Eof` under 0. |
| RegexParser.BracketStep | src/regex_parser.rs:137-141 | `[` appends exactly one node and keeps the earlier ones. |
| RegexParser.GroupStep | src/regex_parser.rs:142-147 | `(` appends one group. That group is numbered with the counter plus one when closed by `)`, or 0 at `Eof`, and the counter grows. |
| RegexParser.StepAst | src/regex_parser.rs:94-160 | The loop returns only on `)` or `Eof`, leaving the parser there. A pass that goes on never increases the work left, and leaves the lexer's text and the counter's progress intact. |
| RegexParser.Loop | src/regex_parser.rs:91-162 | `build_ast(group_ref)` returns a `Group` and leaves the parser on `)` or `Eof`. The group's number is `group_ref` on `)` and 0 on `Eof`. |
| RegexParser.Compile | src/regex_parser.rs:151-155 | A compiled pattern is always a group numbered 0. |
| RegexParser.AccumulateShape | src/regex_parser.rs:96-128 | Pushing and wrapping keep the nodes well formed and add no group numbers. |
| RegexParser.PipeShape | src/regex_parser.rs:129-136 | The `Or` built by `\|` is well formed. Its group numbers come from 0, the current number, the nodes already collected, and the numbers the counter hands out meanwhile. |
| RegexParser.BracketShape | src/regex_parser.rs:137-141 | A bracket class adds no group numbers. |
| RegexParser.GroupShape | src/regex_parser.rs:142-147 | A nested group only brings in 0 and numbers the counter hands out while it is parsed. |
| RegexParser.LoopShape | src/regex_parser.rs:91-162 | `build_ast` builds well-formed trees. Every group number in the result is 0, the `group_ref` passed in, or a number the counter handed out during the call. |
| RegexParser.LoopCounted | src/regex_parser.rs:142-146 | In a pattern without `\` and `{`, the counter equals the number of `(` before the current token when `build_ast` starts, and still does when it returns. So the counter grows by exactly the number of `(` the call passes over. |
| RegexParser.GroupNumberedByOpening | src/regex_parser.rs:142-146 | The group opened by the `(` at index `i` and closed by `)` is numbered one more than the number of `(` before `i`. The k-th group to open is group k. |
| RegexParser.CompiledGroupNumbers | src/regex_parser.rs:142-146 | Every group number in a compiled tree is at most the number of `(` in the pattern. |
| RegexParser.CompiledTreesAreWellFormed | src/regex_parser.rs:60-162 | In every compiled tree, `Not` and bracket `Or` hold only literals, and every other `Or` has exactly two alternatives, the first a group. |
| RegexParser.NewOnOneCharTokens | src/regex_parser.rs:39-51 | When the first two tokens are one character each, the primed window holds them and the lexer is at index 2. |
| RegexParser.LoopAccumulates | src/regex_parser.rs:96-128 | The push and wrap arms continue the loop with the window moved by one token. |
| RegexParser.LoopPipe | src/regex_parser.rs:129-136 | After `\|` the loop skips the `)` or `Eof` that ended the right alternative. It continues with the two-alternative `Or` as its only node. |
| RegexParser.LoopGroup | src/regex_parser.rs:142-147 | After `(` the inner group, parsed under the incremented counter, is pushed and its closing token skipped. |
| RegexParser.LoopBracket | src/regex_parser.rs:137-141 | After `[` the class is pushed and its `]` skipped. |
| RegexParser.LoopEnds | src/regex_parser.rs:148-156 | `)` returns the group under the caller's number, `Eof` under 0, and the parser stays on that token. |
| RegexParser.LoopOverOneCharTokens | src/regex_parser.rs:96-128 | A run of one-character push/wrap tokens has the same effect as pushing each in turn; the reference definition is `Pushes`. |
| RegexParser.LoopOverAtoms | src/regex_parser.rs:96-110 | From any index, a run of literal-like characters up to `)` or the end becomes the group's nodes, one per character, in pattern order. |
| RegexParser.AtomsUpTo | src/regex_parser.rs:148-155 | A pattern of atoms, possibly followed by a stray `)`, compiles to the group of its atoms' nodes under 0. |
| RegexParser.AtomPattern | src/regex_parser.rs:96-110 | Literals, `.` and `^` compile to one node each, in pattern order. |
| RegexParser.StrayCloseIgnoresRest | src/regex_parser.rs:148-150 | At top level, a stray `)` ends the parse. The text after it does not change the result, as long as its first token lexes. |
| RegexParser.BracketOverLiterals | src/regex_parser.rs:70-88 | Inside brackets, ordinary characters up to `]` become the class's literals in order. |
| RegexParser.BracketGroupOfLiterals | src/regex_parser.rs:60-89 | An optional `^` and ordinary characters up to `]` build the `Not`, or the `Or`, of those characters' literals. |
| RegexParser.BracketPattern | src/regex_parser.rs:137-141 | `[s]` compiles to an `Or`, and `[^s]` to a `Not`, of the literals of `s` in order. |
| RegexParser.LeadingQuantifier | src/regex_parser.rs:117-121 | A pattern starting with `*`, `+` or `?` fails with "Misplaced quantifier". |
| RegexParser.LeadingEndAnchor | src/regex_parser.rs:111-112 | A pattern starting with `$` fails, where the code unwraps an empty node list. |
| RegexParser.PushPattern | src/regex_parser.rs:96-155 | A pattern whose tokens all take one character and push or wrap a node compiles to group 0 holding exactly the nodes of the reference fold `Pushes` over its tokens. |
| RegexMatcher.Start | src/regex_matcher.rs:18-24 | A new matcher starts from exactly the positions `0..n-1`. |
| RegexMatcher.LeastFrom | src/regex_matcher.rs:151 | The value found is the least live position from the starting index on, or 0 when there is none. |
| RegexMatcher.Matches | src/regex_matcher.rs:25-186 | `matches` never leaves a position beyond the end of the text. |
| RegexMatcher.FilterFirst | src/regex_matcher.rs:26-31 | Only positions before the end matter: every call first drops the others. |
| RegexMatcher.StartAnchorStep | src/regex_matcher.rs:33-41 | `^` is true exactly when 0 is live and the text is not empty. On success it leaves exactly `{0}`; otherwise the filtered positions stay. |
| RegexMatcher.WildcardStep | src/regex_matcher.rs:45-52 | `.` is always true, even with nothing live, and moves every live position by one. |
| RegexMatcher.ClassStepSpec | src/regex_matcher.rs:53-121 | A literal, `\d`, `\w` or negated class keeps exactly `p+1` for each live `p` whose character is in the class. It is true exactly when one such `p` exists. A `Not` holding a non-literal fails. |
| RegexMatcher.NotClassMembers | src/regex_matcher.rs:98-113 | A negated class admits exactly the characters none of its literals stands for. |
| RegexMatcher.MatchAnySpec | src/regex_matcher.rs:126-134 | The alternatives loop errs exactly when one alternative errs. It is true exactly when one accepts, and its positions are the union over the accepting alternatives. |
| RegexMatcher.OrSpec | src/regex_matcher.rs:122-137 | Each alternative runs from the same entry positions. The result is true exactly when one is true, and the positions are the union over those that are true. |
| RegexMatcher.OrOrderIrrelevant | src/regex_matcher.rs:122-137 | The order of the alternatives, and repeated alternatives, make no difference to the outcome. |
| RegexMatcher.ThreadAppend | src/regex_matcher.rs:174-183 | Running a group split in two is running the first part, then the second from where the first left off if it matched. |
| RegexMatcher.GroupSpec | src/regex_matcher.rs:174-183 | Against the reference `Chain`: when every child matches in turn from where the previous one stopped, the group matches with the positions the last child left. When child `i` is the first that does not match, the group gives that child's answer. |
| RegexMatcher.GroupAccepts | src/regex_matcher.rs:174-183 | A group matches exactly when the chain of its children runs to the end. |
| RegexMatcher.EmptyGroup | src/regex_matcher.rs:174-183 | An empty group is true and keeps the filtered positions. |
| RegexMatcher.SingletonGroup | src/regex_matcher.rs:174-183 | A group of one node behaves exactly as that node. |
| RegexMatcher.Repeat | src/regex_matcher.rs:156-169 | The repetition loop never leaves a position beyond the end of the text. |
| RegexMatcher.ReachStuck | src/regex_matcher.rs:166-168 | Once a round fails, no longer sequence of rounds succeeds. |
| RegexMatcher.RoundsSplit | src/regex_matcher.rs:158-169 | A range of round numbers splits into its first round and the rest. |
| RegexMatcher.NoRoundsAfterFailure | src/regex_matcher.rs:166-168 | No round past a failing one succeeds. |
| RegexMatcher.RepeatSpec | src/regex_matcher.rs:156-169 | The loop is true exactly when some number of rounds between `lo` and the cap all succeed. It collects the positions of every such number of rounds, compared against the reference definition `Reach`. |
| RegexMatcher.RoundCap | src/regex_matcher.rs:148-154 | The cap is `max` when given. Unbounded, it is `n - least + 1` for the least live position, which is at least 1 with no underflow, or `n + 1` when nothing is live. |
| RegexMatcher.QuantifierSpec | src/regex_matcher.rs:138-173 | The quantifier is true exactly when `min` is 0 or some number of rounds in `[max(min,1), cap]` succeeds. Its positions are the live ones when `min` is 0, plus those of every such number of rounds. |
| RegexMatcher.OptionalAlwaysMatches | src/regex_matcher.rs:142-146 | With `min` 0 the quantifier is always true and keeps every live position. |
| RegexMatcher.LiteralFromOne | src/regex_matcher.rs:53-66 | A literal from one position moves it on exactly when the character there is that literal. |
| RegexMatcher.LiteralRounds | src/regex_matcher.rs:156-169 | Over a run of `k` copies of a literal, round `j` reaches `p + j` for each round up to the run's end or the cap. |
| RegexMatcher.OnlyOneHolds | src/regex_matcher.rs:53-66 | A literal on live positions of which only one holds it acts as from that one position. |
| RegexMatcher.SameFirstRound | src/regex_matcher.rs:156-169 | The loop sees its entry positions only through the first round. |
| RegexMatcher.QuantifierRounds | src/regex_matcher.rs:138-173 | The quantifier arm is the repetition loop from `max(min,1)` up to the cap, plus the entry positions when `min` is 0. |
| RegexMatcher.QuantifiedLiteral | src/regex_matcher.rs:138-173 | A quantified literal at the start of a run of `k` copies is true exactly when `min` is 0 or the run, cut at the cap, reaches `max(min,1)`. It reaches every run position from the minimum on. |
| RegexMatcher.OrOfTwo | src/regex_matcher.rs:122-137 | An `Or` of two alternatives is true exactly when one of them is. Its positions are the union of the positions of the alternatives that are true. |
| RegexMatcher.ClassFromOne | src/regex_matcher.rs:53-121 | A literal, `\d`, `\w` or negated class from one position moves it on exactly when the character there is in the class, and otherwise leaves nothing. |
| RegexMatcher.LiteralNowhere | src/regex_matcher.rs:53-66 | A literal that no live position holds is false and leaves no position. |
| RegexMatcher.WildcardFromNothing | src/regex_matcher.rs:45-52 | `.` on no positions is still true, and leaves none. |
| RegexMatcher.WildcardFromOne | src/regex_matcher.rs:45-52 | `.` is always true. From a position before the end it moves on by one; from the end it leaves nothing. |
| RegexMatcher.WildcardRoundsFromNothing | src/regex_matcher.rs:156-169 | Repeating `.` from no positions reaches nothing. The loop is true exactly when a round is still allowed and the minimum is within the cap. |
| RegexMatcher.WildcardRounds | src/regex_matcher.rs:156-169 | Rounds of `.` from `p` reach exactly the positions `q` up to the end of the text for which `q - p` rounds are within the cap and reach the minimum. |
| RegexMatcher.WildcardStar | src/regex_matcher.rs:138-173 | `.*` from a position inside the text is true and reaches exactly every position from there to the end. |
| RegexMatcher.WellFormedSupported | src/regex_matcher.rs:97-121 | Every tree the parser builds that holds no `End` avoids the matcher's `todo!()` arms. |
| RegexMatcher.SupportedNeverFails | src/regex_matcher.rs:25-186 | On such a tree the matcher always answers, whatever the positions and the text. |
| RegexMatcher.SupportedAlternatives | src/regex_matcher.rs:126-134 | The alternatives loop answers when every alternative is supported. |
| RegexMatcher.SupportedSequence | src/regex_matcher.rs:176-181 | A group answers when every child is supported. |
| RegexMatcher.SupportedRounds | src/regex_matcher.rs:158-169 | The repetition loop answers when the repeated node is supported. |
| RegexMatcher.EndIsUnsupported | src/regex_matcher.rs:184 | An `End` node at the front of a group makes the match fail with `Unsupported`. |
| RegexMatcher.Search | src/regex_matcher.rs:216-225 | The pipeline answers exactly the matcher's verdict on the compiled tree from every start position, and passes a parse error through. |
| RegexMatcher.SearchDefined | src/regex_matcher.rs:216-225 | Every pattern that compiles and holds no `$` gets an answer on every text. |
| Scenarios.QuantifiedParse | src/regex_matcher.rs:200 | `ba?c+d{2,3}f*g` parses to `b`, `a?`, `c+`, `d{2,3}`, `f*`, `g`. |
| Scenarios.QuantifiedVerdictTrue | src/regex_matcher.rs:200 | `ba?c+d{2,3}f*g` on `bccdddffffffffg` is true. |
| Scenarios.QuantifiedVerdictFalse | src/regex_matcher.rs:201 | `ba?c+d{2,3}f*g` on `bccdffffffffg` is false. |
| Scenarios.AppleParse | src/regex_matcher.rs:202-203 | `Ap[^xy]le` parses to `A`, `p`, the negation of `x` and `y`, `l`, `e`. |
| Scenarios.AppleVerdictFalse | src/regex_matcher.rs:202 | `Ap[^pb]le` on `Apple is good` is false. |
| Scenarios.AppleVerdictTrue | src/regex_matcher.rs:203 | `Ap[^ab]le` on `Apple is good` is true. |
| Scenarios.GroupsParse | src/regex_matcher.rs:206-207 | `^(aa\|bb)(ef)` parses to the anchor and a group 0 holding the `Or` of `aa` and `bb` under 1, then `ef` under 2. This is the shape the `\|`/`)` quirk gives. |
| Scenarios.GroupsVerdictTrue | src/regex_matcher.rs:206 | `^(aa\|bb)(ef)` on `bbefg` is true. |
| Scenarios.GroupsVerdictFalse | src/regex_matcher.rs:207 | `^(aa\|bb)(ef)` on ` bbefg` is false. |
| Scenarios.AnchoredParse | src/regex_matcher.rs:208 | `^aa` parses to the anchor and two literals. |
| Scenarios.AnchoredVerdictFalse | src/regex_matcher.rs:208 | `^aa` on `baa` is false. |
| Scenarios.StarParse | src/regex_matcher.rs:204 | `a.*b` parses to `a`, `.*` and `b`. |
| Scenarios.StarVerdictTrue | src/regex_matcher.rs:204 | `a.*b` on `assgshgsoghsfohgsfoghsfghsgbe` is true. |
| GroupScenarios.OptionalParse | src/regex_matcher.rs:205 | `^aa(wz)?43` parses to the anchor, `a`, `a`, group 1 of `wz` made optional, `4` and `3`. |
| GroupScenarios.OptionalVerdictTrue | src/regex_matcher.rs:205 | `^aa(wz)?43` on `aawz43xuy` is true. |
| GroupScenarios.ClassesParse | src/regex_matcher.rs:198 | `(a(b))\de\w.f` parses to group 1 (holding `a` and group 2 of `b`), then a digit, `e`, a word character, any character and `f`. |
| GroupScenarios.ClassesVerdictTrue | src/regex_matcher.rs:198 | `(a(b))\de\w.f` on `ab5e_%f` is true. |
| GroupScenarios.AltParse | src/regex_matcher.rs:199 | `(b\|bc\|de\|fg)d45` parses to `b` or (`bc` or ((`de` or `fg`) then `d45`)). This is the shape the `\|`/`)` quirk gives with more than two alternatives. |
| GroupScenarios.AltVerdictTrue | src/regex_matcher.rs:199 | `(b\|bc\|de\|fg)d45` on `ded45h_` is true. |

## Left out

- `src/main.rs` (argument parsing, reading the input, the `-E` check, exit codes) is I/O glue and is not part of this model.
- `$` matching is left out because the code has no working arm for it.
  - The parser's wrapping of the previous node in `End` is modelled. So is the failure when nothing precedes `$`.
  - The matcher's arm names a variant that does not exist and calls `todo!()`, and `End` falls into the final `todo!()`. Both are modelled as the `Unsupported` error.
  - The `$` tests are commented out in the source.
- Back-references are left out of parsing and matching. The lexer's `BackRef` token is modelled, but the parser's `todo!()` on it (src/regex_parser.rs:157) becomes an `UnsupportedToken` error.
- `RegexLexer.ReadNumber` does not model the `usize` overflow of `parse::<usize>()` for very long digit runs: numbers are unbounded naturals.
- `HashSet` mechanics, clones, `dbg!` and `println!` output, and run time are left out.
- Characters are opaque apart from the ASCII predicates the code uses. There is no Unicode-specific behaviour.
- `process::exit`, `unwrap` panics and `todo!()` are modelled as error results that carry no message text.
- `RegexMatcher.StartAnchorStep` follows the code, not the prose description. When 0 is not live, the code leaves the filtered positions as they are; it does not clear them.
- The lexer's table rows are derived for the model's `Tokens` loop. The test's `assert_eq!` on `Vec<RegexToken>` is not modelled separately.
- RegexParser.LoopCounted, RegexParser.GroupNumberedByOpening and RegexParser.CompiledGroupNumbers are stated only for patterns without `\` and `{`.
  - In those patterns every token is one character, so the window sits at a fixed offset from the lexer's cursor and each `(` character is an `LParen` token.
  - With escapes and brace quantifiers, tokens span several characters, and an escaped `\(` is a literal that the counter does not count.
  - For such patterns, group numbering is stated through the counter bounds of `RegexParser.LoopShape` and the derived test rows.
