/** The verdicts of the test table of src/regex_matcher.rs whose patterns
    hold groups, derived from the model the same way as in `Scenarios`: the
    pattern is parsed a run of tokens at a time, then the tree is matched a
    node at a time. */
module GroupScenarios {
  import opened Wrappers
  import Lex = RegexLexer
  import opened RegexParser
  import opened RegexMatcher
  import opened Scenarios

  // ---------------------------------------------------------------------------
  // ^aa(wz)?43

  const OptionalText: string := "^aa(wz)?43"

  const OptionalGroup: Node := Group([Literal('w'), Literal('z')], 1)

  const OptionalFrontNodes: seq<Node> := [StartAnchor, Literal('a'), Literal('a'), Quantifier(OptionalGroup, 0, Some(1))]

  const OptionalTree: Node :=
    Group([StartAnchor, Literal('a'), Literal('a'), Quantifier(OptionalGroup, 0, Some(1)), Literal('4'), Literal('3')], 0)

  /** How `^aa(wz)?43` lexes: one token per character. */
  predicate OptionalTokens(chars: string) {
    && OneCharTokenAt(chars, 5) && OneCharTokenAt(chars, 8) && OneCharTokenAt(chars, 9)
    && TokenAt(chars, 3) == Lex.LParen && TokenAt(chars, 4) == Lex.Literal('w') && TokenAt(chars, 5) == Lex.Literal('z')
    && TokenAt(chars, 6) == Lex.RParen && TokenAt(chars, 7) == Lex.Quantifier(0, Some(1))
    && TokenAt(chars, 8) == Lex.Literal('4') && TokenAt(chars, 9) == Lex.Literal('3')
    && TokenAt(chars, 10) == Lex.Eof && TokenAt(chars, 11) == Lex.Eof
  }

  /** The runs `^aa`, `wz` and `43`. */
  predicate OptionalRuns(chars: string) {
    OneCharRun(chars, 0, 3) && OneCharRun(chars, 4, 6) && OneCharRun(chars, 8, 10)
  }

  predicate OptionalRunTokens(chars: string) {
    && TokensAt(chars, 0, 3) == [Lex.StartAnchor, Lex.Literal('a'), Lex.Literal('a')]
    && TokensAt(chars, 4, 6) == [Lex.Literal('w'), Lex.Literal('z')]
    && TokensAt(chars, 8, 10) == [Lex.Literal('4'), Lex.Literal('3')]
  }

  /** What each run pushes. */
  predicate OptionalPushed(chars: string) {
    && Pushes(TokensAt(chars, 0, 3), []).Ok?
    && Pushes(TokensAt(chars, 0, 3), []).value == [StartAnchor, Literal('a'), Literal('a')]
    && Pushes(TokensAt(chars, 4, 6), []).Ok? && Pushes(TokensAt(chars, 4, 6), []).value == OptionalGroup.nodes
    && Pushes(TokensAt(chars, 8, 10), OptionalFrontNodes).Ok?
    && Pushes(TokensAt(chars, 8, 10), OptionalFrontNodes).value == OptionalTree.nodes
  }

  lemma OptionalLexesTokens(chars: string)
    requires chars == OptionalText
    ensures OptionalTokens(chars)
  {
  }

  lemma OptionalLexesRuns(chars: string)
    requires chars == OptionalText
    ensures OptionalRuns(chars)
  {
  }

  lemma OptionalLexesRunTokens(chars: string)
    requires OptionalRuns(chars) && OptionalTokens(chars)
    requires TokenAt(chars, 0) == Lex.StartAnchor && TokenAt(chars, 1) == Lex.Literal('a')
    requires TokenAt(chars, 2) == Lex.Literal('a')
    ensures OptionalRunTokens(chars)
  {
    assert TokensAt(chars, 0, 3)[0] == TokenAt(chars, 0) && TokensAt(chars, 0, 3)[1] == TokenAt(chars, 1);
    assert TokensAt(chars, 0, 3)[2] == TokenAt(chars, 2);
    assert TokensAt(chars, 4, 6)[0] == TokenAt(chars, 4) && TokensAt(chars, 4, 6)[1] == TokenAt(chars, 5);
    assert TokensAt(chars, 8, 10)[0] == TokenAt(chars, 8) && TokensAt(chars, 8, 10)[1] == TokenAt(chars, 9);
  }

  lemma OptionalPushes(chars: string)
    requires OptionalRunTokens(chars)
    ensures OptionalPushed(chars)
  {
    var e: seq<Node> := [];
    var r0 := Pushes([Lex.StartAnchor, Lex.Literal('a'), Lex.Literal('a')], e);
    assert r0.Ok? && r0.value == [StartAnchor, Literal('a'), Literal('a')];
    var r1 := Pushes([Lex.Literal('w'), Lex.Literal('z')], e);
    assert r1.Ok? && r1.value == [Literal('w'), Literal('z')];
    var r2 := Pushes([Lex.Literal('4'), Lex.Literal('3')], OptionalFrontNodes);
    assert r2.Ok? && r2.value == OptionalFrontNodes + [Literal('4'), Literal('3')];
  }

  /** `^aa` is pushed; `(` is next. */
  lemma OptionalHead(chars: string)
    requires OneCharRun(chars, 0, 3)
    requires Pushes(TokensAt(chars, 0, 3), []).Ok?
    requires Pushes(TokensAt(chars, 0, 3), []).value == [StartAnchor, Literal('a'), Literal('a')]
    requires TokenAt(chars, 3) == Lex.LParen && TokenAt(chars, 4) == Lex.Literal('w')
    ensures Loop(Parser(Lex.Lexer(chars, 2), TokenAt(chars, 0), TokenAt(chars, 1), 0), 0, []) ==
            Loop(Parser(Lex.Lexer(chars, 5), Lex.LParen, Lex.Literal('w'), 0), 0,
                 [StartAnchor, Literal('a'), Literal('a')])
  {
    RunStep(chars, 0, 1, 2, 3, 4, 5, 0, 0, []);
  }

  /** Inside the group, `wz` is pushed and `)` closes it as group 1, with
      `?` behind it. */
  lemma OptionalInner(chars: string)
    requires OneCharRun(chars, 4, 6)
    requires Pushes(TokensAt(chars, 4, 6), []).Ok? && Pushes(TokensAt(chars, 4, 6), []).value == OptionalGroup.nodes
    requires TokenAt(chars, 4) == Lex.Literal('w') && TokenAt(chars, 5) == Lex.Literal('z')
    requires TokenAt(chars, 6) == Lex.RParen && TokenAt(chars, 7) == Lex.Quantifier(0, Some(1))
    ensures Loop(Parser(Lex.Lexer(chars, 6), Lex.Literal('w'), Lex.Literal('z'), 1), 1, []) ==
            Ok((OptionalGroup, Parser(Lex.Lexer(chars, 8), Lex.RParen, Lex.Quantifier(0, Some(1)), 1)))
  {
    RunStep(chars, 4, 5, 6, 6, 7, 8, 1, 1, []);
    LoopEnds(Parser(Lex.Lexer(chars, 8), Lex.RParen, Lex.Quantifier(0, Some(1)), 1), 1, OptionalGroup.nodes);
  }

  /** `(` takes number 1 for the group; the `)` that closed it is skipped
      and `?` is next. */
  lemma OptionalOpen(chars: string)
    requires OneCharTokenAt(chars, 5) && TokenAt(chars, 5) == Lex.Literal('z')
    requires OneCharTokenAt(chars, 8) && TokenAt(chars, 8) == Lex.Literal('4')
    requires Loop(Parser(Lex.Lexer(chars, 6), Lex.Literal('w'), Lex.Literal('z'), 1), 1, []) ==
             Ok((OptionalGroup, Parser(Lex.Lexer(chars, 8), Lex.RParen, Lex.Quantifier(0, Some(1)), 1)))
    ensures Loop(Parser(Lex.Lexer(chars, 5), Lex.LParen, Lex.Literal('w'), 0), 0,
                 [StartAnchor, Literal('a'), Literal('a')]) ==
            Loop(Parser(Lex.Lexer(chars, 9), Lex.Quantifier(0, Some(1)), Lex.Literal('4'), 1), 0,
                 [StartAnchor, Literal('a'), Literal('a')] + [OptionalGroup])
  {
    var p := Parser(Lex.Lexer(chars, 5), Lex.LParen, Lex.Literal('w'), 0);
    AdvanceStep(p.(groupRef := 1), chars, 5, 6);
    TokenStep(chars, 8, 9);
    LoopGroup(p, 0, [StartAnchor, Literal('a'), Literal('a')], 1,
              Parser(Lex.Lexer(chars, 6), Lex.Literal('w'), Lex.Literal('z'), 1), OptionalGroup,
              Parser(Lex.Lexer(chars, 8), Lex.RParen, Lex.Quantifier(0, Some(1)), 1),
              Lex.Literal('4'), Lex.Lexer(chars, 9));
  }

  /** `?` wraps the group; `4` is next. */
  lemma OptionalQuestion(chars: string)
    requires OneCharTokenAt(chars, 9) && TokenAt(chars, 9) == Lex.Literal('3')
    ensures Loop(Parser(Lex.Lexer(chars, 9), Lex.Quantifier(0, Some(1)), Lex.Literal('4'), 1), 0,
                 [StartAnchor, Literal('a'), Literal('a')] + [OptionalGroup]) ==
            Loop(Parser(Lex.Lexer(chars, 10), Lex.Literal('4'), Lex.Literal('3'), 1), 0, OptionalFrontNodes)
  {
    TokenStep(chars, 9, 10);
    WrapStep(chars, 9, 10, 0, Some(1), Lex.Literal('4'), Lex.Literal('3'), 1, 0,
             [StartAnchor, Literal('a'), Literal('a')], OptionalGroup);
    assert [StartAnchor, Literal('a'), Literal('a')] + [Quantifier(OptionalGroup, 0, Some(1))] == OptionalFrontNodes;
  }

  /** `43` is pushed and the parse reaches the end. */
  lemma OptionalTail(chars: string)
    requires OneCharRun(chars, 8, 10)
    requires Pushes(TokensAt(chars, 8, 10), OptionalFrontNodes).Ok?
    requires Pushes(TokensAt(chars, 8, 10), OptionalFrontNodes).value == OptionalTree.nodes
    requires TokenAt(chars, 8) == Lex.Literal('4') && TokenAt(chars, 9) == Lex.Literal('3')
    requires TokenAt(chars, 10) == Lex.Eof && TokenAt(chars, 11) == Lex.Eof
    ensures Loop(Parser(Lex.Lexer(chars, 10), Lex.Literal('4'), Lex.Literal('3'), 1), 0, OptionalFrontNodes) ==
            Ok((OptionalTree, Parser(Lex.Lexer(chars, 12), Lex.Eof, Lex.Eof, 1)))
  {
    RunStep(chars, 8, 9, 10, 10, 11, 12, 1, 0, OptionalFrontNodes);
    LoopEnds(Parser(Lex.Lexer(chars, 12), Lex.Eof, Lex.Eof, 1), 0, OptionalTree.nodes);
  }

  lemma OptionalParseFromLayout(chars: string)
    requires OptionalTokens(chars) && OptionalRuns(chars) && OptionalPushed(chars)
    requires TokenAt(chars, 0) == Lex.StartAnchor && TokenAt(chars, 1) == Lex.Literal('a')
    ensures Compile(chars) == Ok(OptionalTree)
  {
    NewOnOneCharTokens(chars);
    OptionalHead(chars);
    OptionalInner(chars);
    OptionalOpen(chars);
    OptionalQuestion(chars);
    OptionalTail(chars);
    CompileFrom(chars, Parser(Lex.Lexer(chars, 2), TokenAt(chars, 0), TokenAt(chars, 1), 0));
  }

  /** `^aa(wz)?43` parses to the anchor, `a`, `a`, group 1 of `wz` made
      optional, `4` and `3`. */
  lemma OptionalParse(chars: string)
    requires chars == OptionalText
    ensures Compile(chars) == Ok(OptionalTree)
  {
    OptionalLexesTokens(chars);
    OptionalLexesRuns(chars);
    OptionalLexesRunTokens(chars);
    OptionalPushes(chars);
    OptionalParseFromLayout(chars);
  }

  const OptionalYes: string := "aawz43xuy"

  predicate OptionalYesLayout(text: string) {
    && |text| == 9 && text[0] == 'a' && text[1] == 'a' && text[2] == 'w' && text[3] == 'z'
    && text[4] == '4' && text[5] == '3'
  }

  lemma OptionalYesLayoutHolds(text: string)
    requires text == OptionalYes
    ensures OptionalYesLayout(text)
  {
  }

  /** `(wz)?` from 2 either skips the group or takes it to 4. */
  lemma OptionalGroupMatches(text: string)
    requires OptionalYesLayout(text)
    ensures Matches(Quantifier(OptionalGroup, 0, Some(1)), {2}, text) == Ok(Outcome(true, {2, 4}))
  {
    assert RoundCap(Some(1), {2}, 9) == 1;
    PairMatches('w', 'z', 1, 2, text);
    assert Repeat(OptionalGroup, {4}, text, 1, 1, 1) == Ok((false, {}));
    assert Repeat(OptionalGroup, {2}, text, 1, 1, 0) == Ok((true, {4} + {}));
    QuantifierRounds(OptionalGroup, 0, Some(1), {2}, text);
    assert {2} + ({4} + {}) == {2, 4};
  }

  /** The anchor keeps 0 and `aa` takes it to 2. */
  lemma OptionalFront(text: string)
    requires OptionalYesLayout(text)
    ensures Thread(OptionalTree.nodes, Start(|text|), text) == Thread(OptionalTree.nodes[3..], {2}, text)
  {
    var ns, n := OptionalTree.nodes, |text|;
    StartAnchorStep(Start(n), text);
    assert 0 in Start(n);
    ThreadOn(ns, Start(n), text);
    LiteralFromOne('a', 0, text);
    ThreadOn(ns[1..], {0}, text);
    LiteralFromOne('a', 1, text);
    ThreadOn(ns[2..], {1}, text);
  }

  /** `(wz)?` leaves 2 and 4; only 4 holds the `4`, and `3` follows it. */
  lemma OptionalBack(text: string)
    requires OptionalYesLayout(text)
    ensures Thread(OptionalTree.nodes[3..], {2}, text) == Ok(Outcome(true, {6}))
  {
    var ns := OptionalTree.nodes[3..];
    OptionalGroupMatches(text);
    ThreadOn(ns, {2}, text);
    OnlyOneHolds('4', {2, 4}, 4, text);
    LiteralFromOne('4', 4, text);
    ThreadOn(ns[1..], {2, 4}, text);
    LiteralFromOne('3', 5, text);
    ThreadOn(ns[2..], {5}, text);
    assert ns[2..][1..] == [];
  }

  /** `^aa(wz)?43` matches `aawz43xuy`, ending after the `3`. */
  lemma OptionalMatch(text: string)
    requires OptionalYesLayout(text)
    ensures Matches(OptionalTree, Start(|text|), text) == Ok(Outcome(true, {6}))
  {
    assert Live(Start(|text|), |text|) == Start(|text|);
    GroupThreads(OptionalTree.nodes, 0, Start(|text|), text);
    OptionalFront(text);
    OptionalBack(text);
  }

  /** `^aa(wz)?43` on `aawz43xuy`: true, as the test table says. */
  lemma OptionalVerdictTrue(pattern: string, text: string)
    requires pattern == OptionalText && text == OptionalYes
    ensures Search(pattern, text).Ok? && Search(pattern, text).value
  {
    OptionalParse(pattern);
    OptionalYesLayoutHolds(text);
    OptionalMatch(text);
  }

  // ---------------------------------------------------------------------------
  // (a(b))\de\w.f

  const ClassesText: string := "(a(b))\\de\\w.f"

  const ClassesFirst: Node := Group([Literal('a'), Group([Literal('b')], 2)], 1)

  const ClassesTree: Node :=
    Group([ClassesFirst, Digit, Literal('e'), Alphanum, Wildcard, Literal('f')], 0)

  /** How `(a(b))\de\w.f` lexes: one token per character except the two
      escapes at 6 and 9. */
  predicate ClassesGroupTokens(chars: string) {
    && OneCharTokenAt(chars, 0) && OneCharTokenAt(chars, 1) && OneCharTokenAt(chars, 2)
    && OneCharTokenAt(chars, 3) && OneCharTokenAt(chars, 4) && OneCharTokenAt(chars, 5)
    && TokenAt(chars, 0) == Lex.LParen && TokenAt(chars, 1) == Lex.Literal('a')
    && TokenAt(chars, 2) == Lex.LParen && TokenAt(chars, 3) == Lex.Literal('b')
    && TokenAt(chars, 4) == Lex.RParen && TokenAt(chars, 5) == Lex.RParen
  }

  predicate ClassesTailTokens(chars: string) {
    && |chars| == 13 && chars[6] == '\\' && chars[7] == 'd' && chars[9] == '\\' && chars[10] == 'w'
    && OneCharTokenAt(chars, 8) && OneCharTokenAt(chars, 11) && OneCharTokenAt(chars, 12)
    && OneCharTokenAt(chars, 13) && OneCharTokenAt(chars, 14)
    && TokenAt(chars, 8) == Lex.Literal('e') && TokenAt(chars, 11) == Lex.Wildcard
    && TokenAt(chars, 12) == Lex.Literal('f') && TokenAt(chars, 13) == Lex.Eof && TokenAt(chars, 14) == Lex.Eof
  }

  lemma ClassesLexesGroups(chars: string)
    requires chars == ClassesText
    ensures ClassesGroupTokens(chars)
  {
  }

  lemma ClassesLexesTail(chars: string)
    requires chars == ClassesText
    ensures ClassesTailTokens(chars)
  {
  }

  /** Group 2 holds `b` alone and is closed by the `)` at 4. */
  lemma ClassesInnerGroup(chars: string)
    requires OneCharTokenAt(chars, 5) && TokenAt(chars, 5) == Lex.RParen
    ensures Loop(Parser(Lex.Lexer(chars, 5), Lex.Literal('b'), Lex.RParen, 2), 2, []) ==
            Ok((Group([Literal('b')], 2), Parser(Lex.Lexer(chars, 6), Lex.RParen, Lex.RParen, 2)))
  {
    var e: seq<Node> := [];
    PushStep(chars, 5, 'b', Lex.RParen, Lex.RParen, 2, 2, e);
    assert e + [Literal('b')] == [Literal('b')];
    LoopEnds(Parser(Lex.Lexer(chars, 6), Lex.RParen, Lex.RParen, 2), 2, [Literal('b')]);
  }

  /** The `(` at 2 opens group 2; after it the loop of group 1 goes on with
      the `)` at 5 and the `\d` behind it. */
  lemma ClassesInner(chars: string, nodes: seq<Node>)
    requires 7 < |chars| && chars[6] == '\\' && chars[7] == 'd'
    requires OneCharTokenAt(chars, 4) && TokenAt(chars, 4) == Lex.RParen
    requires Loop(Parser(Lex.Lexer(chars, 5), Lex.Literal('b'), Lex.RParen, 2), 2, []) ==
             Ok((Group([Literal('b')], 2), Parser(Lex.Lexer(chars, 6), Lex.RParen, Lex.RParen, 2)))
    ensures Loop(Parser(Lex.Lexer(chars, 4), Lex.LParen, Lex.Literal('b'), 1), 1, nodes) ==
            Loop(Parser(Lex.Lexer(chars, 8), Lex.RParen, Lex.Digit, 2), 1, nodes + [Group([Literal('b')], 2)])
  {
    var p := Parser(Lex.Lexer(chars, 4), Lex.LParen, Lex.Literal('b'), 1);
    AdvanceStep(p.(groupRef := 2), chars, 4, 5);
    Lex.ClassEscapes(chars, 6);
    LoopGroup(p, 1, nodes, 2, Parser(Lex.Lexer(chars, 5), Lex.Literal('b'), Lex.RParen, 2),
              Group([Literal('b')], 2), Parser(Lex.Lexer(chars, 6), Lex.RParen, Lex.RParen, 2),
              Lex.Digit, Lex.Lexer(chars, 8));
  }

  /** Group 1: `a` is pushed, then group 2, and the `)` at 5 closes it. */
  lemma ClassesOuter(chars: string)
    requires ClassesGroupTokens(chars) && 7 < |chars| && chars[6] == '\\' && chars[7] == 'd'
    ensures Loop(Parser(Lex.Lexer(chars, 3), Lex.Literal('a'), Lex.LParen, 1), 1, []) ==
            Ok((ClassesFirst, Parser(Lex.Lexer(chars, 8), Lex.RParen, Lex.Digit, 2)))
  {
    var e: seq<Node> := [];
    PushStep(chars, 3, 'a', Lex.LParen, Lex.Literal('b'), 1, 1, e);
    ClassesInnerGroup(chars);
    ClassesInner(chars, e + [Literal('a')]);
    ClassesFirstNodes(e);
    LoopEnds(Parser(Lex.Lexer(chars, 8), Lex.RParen, Lex.Digit, 2), 1, ClassesFirst.nodes);
  }

  lemma ClassesFirstNodes(e: seq<Node>)
    requires e == []
    ensures e + [Literal('a')] + [Group([Literal('b')], 2)] == ClassesFirst.nodes
  {
  }

  /** The pattern opens with group 1; `\d` is next. */
  lemma ClassesHead(chars: string)
    requires OneCharTokenAt(chars, 2) && TokenAt(chars, 2) == Lex.LParen
    requires OneCharTokenAt(chars, 8) && TokenAt(chars, 8) == Lex.Literal('e')
    requires Loop(Parser(Lex.Lexer(chars, 3), Lex.Literal('a'), Lex.LParen, 1), 1, []) ==
             Ok((ClassesFirst, Parser(Lex.Lexer(chars, 8), Lex.RParen, Lex.Digit, 2)))
    ensures Loop(Parser(Lex.Lexer(chars, 2), Lex.LParen, Lex.Literal('a'), 0), 0, []) ==
            Loop(Parser(Lex.Lexer(chars, 9), Lex.Digit, Lex.Literal('e'), 2), 0, [] + [ClassesFirst])
  {
    var p := Parser(Lex.Lexer(chars, 2), Lex.LParen, Lex.Literal('a'), 0);
    AdvanceStep(p.(groupRef := 1), chars, 2, 3);
    TokenStep(chars, 8, 9);
    LoopGroup(p, 0, [], 1, Parser(Lex.Lexer(chars, 3), Lex.Literal('a'), Lex.LParen, 1), ClassesFirst,
              Parser(Lex.Lexer(chars, 8), Lex.RParen, Lex.Digit, 2), Lex.Literal('e'), Lex.Lexer(chars, 9));
  }

  /** `\d` is pushed; `e` is next. */
  lemma ClassesDigit(chars: string, nodes: seq<Node>)
    requires 10 < |chars| && chars[9] == '\\' && chars[10] == 'w'
    ensures Loop(Parser(Lex.Lexer(chars, 9), Lex.Digit, Lex.Literal('e'), 2), 0, nodes) ==
            Loop(Parser(Lex.Lexer(chars, 11), Lex.Literal('e'), Lex.AlphaNum, 2), 0, nodes + [Digit])
  {
    Lex.ClassEscapes(chars, 9);
    LoopAccumulates(Parser(Lex.Lexer(chars, 9), Lex.Digit, Lex.Literal('e'), 2), 0, nodes,
                    Lex.AlphaNum, Lex.Lexer(chars, 11));
  }

  /** `\w` is pushed; `.` is next. */
  lemma ClassesWord(chars: string, nodes: seq<Node>)
    requires OneCharTokenAt(chars, 12) && TokenAt(chars, 12) == Lex.Literal('f')
    ensures Loop(Parser(Lex.Lexer(chars, 12), Lex.AlphaNum, Lex.Wildcard, 2), 0, nodes) ==
            Loop(Parser(Lex.Lexer(chars, 13), Lex.Wildcard, Lex.Literal('f'), 2), 0, nodes + [Alphanum])
  {
    TokenStep(chars, 12, 13);
    LoopAccumulates(Parser(Lex.Lexer(chars, 12), Lex.AlphaNum, Lex.Wildcard, 2), 0, nodes,
                    Lex.Literal('f'), Lex.Lexer(chars, 13));
  }

  /** `.` is pushed; `f` is next. */
  lemma ClassesDot(chars: string, nodes: seq<Node>)
    requires OneCharTokenAt(chars, 13) && TokenAt(chars, 13) == Lex.Eof
    ensures Loop(Parser(Lex.Lexer(chars, 13), Lex.Wildcard, Lex.Literal('f'), 2), 0, nodes) ==
            Loop(Parser(Lex.Lexer(chars, 14), Lex.Literal('f'), Lex.Eof, 2), 0, nodes + [Wildcard])
  {
    TokenStep(chars, 13, 14);
    LoopAccumulates(Parser(Lex.Lexer(chars, 13), Lex.Wildcard, Lex.Literal('f'), 2), 0, nodes,
                    Lex.Eof, Lex.Lexer(chars, 14));
  }

  /** `\d`, `e` and `\w` are pushed; `.` is next. */
  lemma ClassesMiddle(chars: string, nodes: seq<Node>)
    requires 10 < |chars| && chars[9] == '\\' && chars[10] == 'w'
    requires OneCharTokenAt(chars, 11) && TokenAt(chars, 11) == Lex.Wildcard
    requires OneCharTokenAt(chars, 12) && TokenAt(chars, 12) == Lex.Literal('f')
    ensures Loop(Parser(Lex.Lexer(chars, 9), Lex.Digit, Lex.Literal('e'), 2), 0, nodes) ==
            Loop(Parser(Lex.Lexer(chars, 13), Lex.Wildcard, Lex.Literal('f'), 2), 0,
                 nodes + [Digit] + [Literal('e')] + [Alphanum])
  {
    ClassesDigit(chars, nodes);
    PushStep(chars, 11, 'e', Lex.AlphaNum, Lex.Wildcard, 2, 0, nodes + [Digit]);
    ClassesWord(chars, nodes + [Digit] + [Literal('e')]);
  }

  /** `.` and `f` are pushed and the parse reaches the end. */
  lemma ClassesEnd(chars: string, nodes: seq<Node>)
    requires OneCharTokenAt(chars, 13) && TokenAt(chars, 13) == Lex.Eof
    requires OneCharTokenAt(chars, 14) && TokenAt(chars, 14) == Lex.Eof
    ensures Loop(Parser(Lex.Lexer(chars, 13), Lex.Wildcard, Lex.Literal('f'), 2), 0, nodes) ==
            Ok((Group(nodes + [Wildcard] + [Literal('f')], 0), Parser(Lex.Lexer(chars, 15), Lex.Eof, Lex.Eof, 2)))
  {
    ClassesDot(chars, nodes);
    PushStep(chars, 14, 'f', Lex.Eof, Lex.Eof, 2, 0, nodes + [Wildcard]);
    LoopEnds(Parser(Lex.Lexer(chars, 15), Lex.Eof, Lex.Eof, 2), 0, nodes + [Wildcard] + [Literal('f')]);
  }

  /** `\d`, `e`, `\w`, `.` and `f` are pushed and the parse reaches the end. */
  lemma ClassesTail(chars: string)
    requires ClassesTailTokens(chars)
    ensures Loop(Parser(Lex.Lexer(chars, 9), Lex.Digit, Lex.Literal('e'), 2), 0, [] + [ClassesFirst]) ==
            Ok((ClassesTree, Parser(Lex.Lexer(chars, 15), Lex.Eof, Lex.Eof, 2)))
  {
    var n0: seq<Node> := [] + [ClassesFirst];
    var n3 := n0 + [Digit] + [Literal('e')] + [Alphanum];
    ClassesMiddle(chars, n0);
    ClassesEnd(chars, n3);
    ClassesTreeNodes(n0, n3);
  }

  lemma ClassesTreeNodes(n0: seq<Node>, n3: seq<Node>)
    requires n0 == [] + [ClassesFirst] && n3 == n0 + [Digit] + [Literal('e')] + [Alphanum]
    ensures n3 + [Wildcard] + [Literal('f')] == ClassesTree.nodes
  {
  }

  lemma ClassesParseFromLayout(chars: string)
    requires ClassesGroupTokens(chars) && ClassesTailTokens(chars)
    ensures Compile(chars) == Ok(ClassesTree)
  {
    NewOnOneCharTokens(chars);
    ClassesOuter(chars);
    ClassesHead(chars);
    ClassesTail(chars);
    CompileFrom(chars, Parser(Lex.Lexer(chars, 2), TokenAt(chars, 0), TokenAt(chars, 1), 0));
  }

  /** `(a(b))\de\w.f` parses to group 1 (holding `a` and group 2 of `b`),
      then a digit, `e`, a word character, any character and `f`. */
  lemma ClassesParse(chars: string)
    requires chars == ClassesText
    ensures Compile(chars) == Ok(ClassesTree)
  {
    ClassesLexesGroups(chars);
    ClassesLexesTail(chars);
    ClassesParseFromLayout(chars);
  }

  const ClassesYes: string := "ab5e_%f"

  /** Its only `a` is at 0; then `b`, a digit, `e`, `_`, and `f` last. */
  predicate ClassesYesLayout(text: string) {
    && |text| == 7 && text[1] == 'b' && text[2] == '5' && text[3] == 'e' && text[4] == '_' && text[6] == 'f'
    && (forall q :: 0 <= q < 7 ==> (text[q] == 'a' <==> q == 0))
  }

  lemma ClassesYesLayoutHolds(text: string)
    requires text == ClassesYes
    ensures ClassesYesLayout(text)
  {
  }

  /** Group 1 from every position: only 0 holds the `a`, and group 2 takes
      1 to 2. */
  lemma ClassesFirstMatches(text: string)
    requires ClassesYesLayout(text)
    ensures Matches(ClassesFirst, Start(|text|), text) == Ok(Outcome(true, {2}))
  {
    var ns, n := ClassesFirst.nodes, |text|;
    assert Live(Start(n), n) == Start(n);
    GroupThreads(ns, 1, Start(n), text);
    OnlyOneHolds('a', Start(n), 0, text);
    LiteralFromOne('a', 0, text);
    ThreadOn(ns, Start(n), text);
    SingletonGroup(Literal('b'), 2, {1}, text);
    LiteralFromOne('b', 1, text);
    ThreadOn(ns[1..], {1}, text);
    assert ns[1..][1..] == [];
  }

  /** From 2: a digit and `e` take it to 4. */
  lemma ClassesBack(text: string)
    requires ClassesYesLayout(text)
    ensures Thread(ClassesTree.nodes[1..], {2}, text) == Thread(ClassesTree.nodes[3..], {4}, text)
  {
    var ns := ClassesTree.nodes[1..];
    ClassFromOne(Digit, 2, text);
    ThreadOn(ns, {2}, text);
    LiteralFromOne('e', 3, text);
    ThreadOn(ns[1..], {3}, text);
    assert ns[1..][1..] == ClassesTree.nodes[3..];
  }

  /** From 4: a word character, any character and `f` take it to the end. */
  lemma ClassesLast(text: string)
    requires ClassesYesLayout(text)
    ensures Thread(ClassesTree.nodes[3..], {4}, text) == Ok(Outcome(true, {7}))
  {
    var ns := ClassesTree.nodes[3..];
    ClassFromOne(Alphanum, 4, text);
    ThreadOn(ns, {4}, text);
    WildcardFromOne(5, text);
    ThreadOn(ns[1..], {5}, text);
    LiteralFromOne('f', 6, text);
    ThreadOn(ns[2..], {6}, text);
    assert ns[2..][1..] == [];
  }

  /** `(a(b))\de\w.f` matches `ab5e_%f`, ending at its end. */
  lemma ClassesMatch(text: string)
    requires ClassesYesLayout(text)
    ensures Matches(ClassesTree, Start(|text|), text) == Ok(Outcome(true, {7}))
  {
    var ns, n := ClassesTree.nodes, |text|;
    assert Live(Start(n), n) == Start(n);
    GroupThreads(ns, 0, Start(n), text);
    ClassesFirstMatches(text);
    ThreadOn(ns, Start(n), text);
    ClassesBack(text);
    ClassesLast(text);
  }

  /** `(a(b))\de\w.f` on `ab5e_%f`: true, as the test table says. */
  lemma ClassesVerdictTrue(pattern: string, text: string)
    requires pattern == ClassesText && text == ClassesYes
    ensures Search(pattern, text).Ok? && Search(pattern, text).value
  {
    ClassesParse(pattern);
    ClassesYesLayoutHolds(text);
    ClassesMatch(text);
  }

  // ---------------------------------------------------------------------------
  // (b|bc|de|fg)d45
  //
  // Each `|` takes everything up to the end of its group as its right side,
  // and the `)` that ends that side is skipped; so the first `)` closes the
  // innermost alternation and `d45` joins the right side of the second `|`.

  const AltText: string := "(b|bc|de|fg)d45"

  const AltOr1: Node := Or([Group([Literal('d'), Literal('e')], 1), Group([Literal('f'), Literal('g')], 1)])

  const AltRight2: Node := Group([AltOr1, Literal('d'), Literal('4'), Literal('5')], 0)

  const AltOr2: Node := Or([Group([Literal('b'), Literal('c')], 1), AltRight2])

  const AltOr3: Node := Or([Group([Literal('b')], 1), Group([AltOr2], 0)])

  const AltTree: Node := Group([Group([AltOr3], 0)], 0)

  /** How `(b|bc|de|fg)d45` lexes: one token per character. */
  predicate AltFrontTokens(chars: string) {
    && OneCharTokenAt(chars, 0) && OneCharTokenAt(chars, 1) && OneCharTokenAt(chars, 2)
    && OneCharTokenAt(chars, 3) && OneCharTokenAt(chars, 4) && OneCharTokenAt(chars, 5)
    && OneCharTokenAt(chars, 6) && OneCharTokenAt(chars, 7)
    && TokenAt(chars, 0) == Lex.LParen && TokenAt(chars, 1) == Lex.Literal('b') && TokenAt(chars, 2) == Lex.Pipe
    && TokenAt(chars, 3) == Lex.Literal('b') && TokenAt(chars, 4) == Lex.Literal('c') && TokenAt(chars, 5) == Lex.Pipe
    && TokenAt(chars, 6) == Lex.Literal('d') && TokenAt(chars, 7) == Lex.Literal('e')
  }

  predicate AltBackTokens(chars: string) {
    && OneCharTokenAt(chars, 8) && OneCharTokenAt(chars, 9) && OneCharTokenAt(chars, 10)
    && OneCharTokenAt(chars, 11) && OneCharTokenAt(chars, 12) && OneCharTokenAt(chars, 13)
    && OneCharTokenAt(chars, 14)
    && TokenAt(chars, 8) == Lex.Pipe && TokenAt(chars, 9) == Lex.Literal('f') && TokenAt(chars, 10) == Lex.Literal('g')
    && TokenAt(chars, 11) == Lex.RParen && TokenAt(chars, 12) == Lex.Literal('d')
    && TokenAt(chars, 13) == Lex.Literal('4') && TokenAt(chars, 14) == Lex.Literal('5')
  }

  /** Past the end every position lexes to `Eof`. */
  predicate AltEndTokens(chars: string) {
    && |chars| == 15
    && OneCharTokenAt(chars, 15) && OneCharTokenAt(chars, 16) && OneCharTokenAt(chars, 17)
    && OneCharTokenAt(chars, 18) && OneCharTokenAt(chars, 19)
    && TokenAt(chars, 15) == Lex.Eof && TokenAt(chars, 16) == Lex.Eof && TokenAt(chars, 17) == Lex.Eof
    && TokenAt(chars, 18) == Lex.Eof && TokenAt(chars, 19) == Lex.Eof
  }

  lemma AltLexesFront(chars: string)
    requires chars == AltText
    ensures AltFrontTokens(chars)
  {
  }

  lemma AltLexesBack(chars: string)
    requires chars == AltText
    ensures AltBackTokens(chars)
  {
  }

  lemma AltLexesEnd(chars: string)
    requires chars == AltText
    ensures AltEndTokens(chars)
  {
  }

  /** Two literals pushed in a row at the start of a group or alternative. */
  lemma PairStep(chars: string, i: nat, i1: nat, i2: nat, c: char, d: char, next1: Lex.Token, next2: Lex.Token,
                 counter: nat, groupRef: nat)
    requires i1 == i + 1 && i2 == i + 2
    requires OneCharTokenAt(chars, i) && TokenAt(chars, i) == next1
    requires OneCharTokenAt(chars, i1) && TokenAt(chars, i1) == next2
    ensures Loop(Parser(Lex.Lexer(chars, i), Lex.Literal(c), Lex.Literal(d), counter), groupRef, []) ==
            Loop(Parser(Lex.Lexer(chars, i2), next1, next2, counter), groupRef, [Literal(c), Literal(d)])
  {
    var e: seq<Node> := [];
    PushStep(chars, i, c, Lex.Literal(d), next1, counter, groupRef, e);
    PushStep(chars, i1, d, next1, next2, counter, groupRef, e + [Literal(c)]);
    assert e + [Literal(c)] + [Literal(d)] == [Literal(c), Literal(d)];
  }

  /** `fg`, the right side of the third `|`, runs up to the `)` at 11. */
  lemma AltFG(chars: string)
    requires OneCharTokenAt(chars, 11) && TokenAt(chars, 11) == Lex.RParen
    requires OneCharTokenAt(chars, 12) && TokenAt(chars, 12) == Lex.Literal('d')
    ensures Loop(Parser(Lex.Lexer(chars, 11), Lex.Literal('f'), Lex.Literal('g'), 1), 1, []) ==
            Ok((Group([Literal('f'), Literal('g')], 1), Parser(Lex.Lexer(chars, 13), Lex.RParen, Lex.Literal('d'), 1)))
  {
    PairStep(chars, 11, 12, 13, 'f', 'g', Lex.RParen, Lex.Literal('d'), 1, 1);
    LoopEnds(Parser(Lex.Lexer(chars, 13), Lex.RParen, Lex.Literal('d'), 1), 1, [Literal('f'), Literal('g')]);
  }

  /** The third `|` makes the `Or` of `de` and `fg`, and the `)` that ended
      `fg` is skipped. */
  lemma AltThirdPipe(chars: string)
    requires OneCharTokenAt(chars, 10) && TokenAt(chars, 10) == Lex.Literal('g')
    requires OneCharTokenAt(chars, 13) && TokenAt(chars, 13) == Lex.Literal('4')
    requires Loop(Parser(Lex.Lexer(chars, 11), Lex.Literal('f'), Lex.Literal('g'), 1), 1, []) ==
             Ok((Group([Literal('f'), Literal('g')], 1), Parser(Lex.Lexer(chars, 13), Lex.RParen, Lex.Literal('d'), 1)))
    ensures Loop(Parser(Lex.Lexer(chars, 10), Lex.Pipe, Lex.Literal('f'), 1), 1, [Literal('d'), Literal('e')]) ==
            Loop(Parser(Lex.Lexer(chars, 14), Lex.Literal('d'), Lex.Literal('4'), 1), 1, [AltOr1])
  {
    var p := Parser(Lex.Lexer(chars, 10), Lex.Pipe, Lex.Literal('f'), 1);
    AdvanceStep(p, chars, 10, 11);
    TokenStep(chars, 13, 14);
    LoopPipe(p, 1, [Literal('d'), Literal('e')], Parser(Lex.Lexer(chars, 11), Lex.Literal('f'), Lex.Literal('g'), 1),
             Group([Literal('f'), Literal('g')], 1), Parser(Lex.Lexer(chars, 13), Lex.RParen, Lex.Literal('d'), 1),
             Lex.Literal('4'), Lex.Lexer(chars, 14));
  }

  /** After that `Or`, `d` and `4` are pushed. */
  lemma AltDigits(chars: string, nodes: seq<Node>)
    requires OneCharTokenAt(chars, 14) && TokenAt(chars, 14) == Lex.Literal('5')
    requires OneCharTokenAt(chars, 15) && TokenAt(chars, 15) == Lex.Eof
    ensures Loop(Parser(Lex.Lexer(chars, 14), Lex.Literal('d'), Lex.Literal('4'), 1), 1, nodes) ==
            Loop(Parser(Lex.Lexer(chars, 16), Lex.Literal('5'), Lex.Eof, 1), 1, nodes + [Literal('d')] + [Literal('4')])
  {
    PushStep(chars, 14, 'd', Lex.Literal('4'), Lex.Literal('5'), 1, 1, nodes);
    PushStep(chars, 15, '4', Lex.Literal('5'), Lex.Eof, 1, 1, nodes + [Literal('d')]);
  }

  /** `5` is pushed and `Eof` ends the right side of the second `|`, under
      number 0. */
  lemma AltFive(chars: string, nodes: seq<Node>)
    requires OneCharTokenAt(chars, 16) && TokenAt(chars, 16) == Lex.Eof
    ensures Loop(Parser(Lex.Lexer(chars, 16), Lex.Literal('5'), Lex.Eof, 1), 1, nodes) ==
            Ok((Group(nodes + [Literal('5')], 0), Parser(Lex.Lexer(chars, 17), Lex.Eof, Lex.Eof, 1)))
  {
    PushStep(chars, 16, '5', Lex.Eof, Lex.Eof, 1, 1, nodes);
    LoopEnds(Parser(Lex.Lexer(chars, 17), Lex.Eof, Lex.Eof, 1), 1, nodes + [Literal('5')]);
  }

  lemma AltRight2Nodes(nodes: seq<Node>)
    requires nodes == [AltOr1]
    ensures nodes + [Literal('d')] + [Literal('4')] + [Literal('5')] == AltRight2.nodes
  {
  }

  /** The right side of the second `|`: `de|fg` and then `d45`, up to the
      end of the pattern. */
  lemma AltSecondRight(chars: string)
    requires AltFrontTokens(chars) && AltBackTokens(chars) && AltEndTokens(chars)
    ensures Loop(Parser(Lex.Lexer(chars, 8), Lex.Literal('d'), Lex.Literal('e'), 1), 1, []) ==
            Ok((AltRight2, Parser(Lex.Lexer(chars, 17), Lex.Eof, Lex.Eof, 1)))
  {
    PairStep(chars, 8, 9, 10, 'd', 'e', Lex.Pipe, Lex.Literal('f'), 1, 1);
    AltFG(chars);
    AltThirdPipe(chars);
    AltDigits(chars, [AltOr1]);
    AltFive(chars, [AltOr1] + [Literal('d')] + [Literal('4')]);
    AltRight2Nodes([AltOr1]);
  }

  /** The second `|` makes the `Or` of `bc` and the rest, and `Eof` ends
      the right side of the first `|`. */
  lemma AltSecondPipe(chars: string)
    requires OneCharTokenAt(chars, 7) && TokenAt(chars, 7) == Lex.Literal('e')
    requires OneCharTokenAt(chars, 17) && TokenAt(chars, 17) == Lex.Eof
    requires Loop(Parser(Lex.Lexer(chars, 8), Lex.Literal('d'), Lex.Literal('e'), 1), 1, []) ==
             Ok((AltRight2, Parser(Lex.Lexer(chars, 17), Lex.Eof, Lex.Eof, 1)))
    ensures Loop(Parser(Lex.Lexer(chars, 7), Lex.Pipe, Lex.Literal('d'), 1), 1, [Literal('b'), Literal('c')]) ==
            Ok((Group([AltOr2], 0), Parser(Lex.Lexer(chars, 18), Lex.Eof, Lex.Eof, 1)))
  {
    var p := Parser(Lex.Lexer(chars, 7), Lex.Pipe, Lex.Literal('d'), 1);
    AdvanceStep(p, chars, 7, 8);
    TokenStep(chars, 17, 18);
    LoopPipe(p, 1, [Literal('b'), Literal('c')], Parser(Lex.Lexer(chars, 8), Lex.Literal('d'), Lex.Literal('e'), 1),
             AltRight2, Parser(Lex.Lexer(chars, 17), Lex.Eof, Lex.Eof, 1), Lex.Eof, Lex.Lexer(chars, 18));
    LoopEnds(Parser(Lex.Lexer(chars, 18), Lex.Eof, Lex.Eof, 1), 1, [AltOr2]);
  }

  /** The first `|` makes the `Or` of `b` and the rest, and `Eof` ends the
      group opened at 0 under number 0. */
  lemma AltFirstPipe(chars: string)
    requires OneCharTokenAt(chars, 4) && TokenAt(chars, 4) == Lex.Literal('c')
    requires OneCharTokenAt(chars, 18) && TokenAt(chars, 18) == Lex.Eof
    requires Loop(Parser(Lex.Lexer(chars, 5), Lex.Literal('b'), Lex.Literal('c'), 1), 1, []) ==
             Ok((Group([AltOr2], 0), Parser(Lex.Lexer(chars, 18), Lex.Eof, Lex.Eof, 1)))
    ensures Loop(Parser(Lex.Lexer(chars, 4), Lex.Pipe, Lex.Literal('b'), 1), 1, [Literal('b')]) ==
            Ok((Group([AltOr3], 0), Parser(Lex.Lexer(chars, 19), Lex.Eof, Lex.Eof, 1)))
  {
    var p := Parser(Lex.Lexer(chars, 4), Lex.Pipe, Lex.Literal('b'), 1);
    AdvanceStep(p, chars, 4, 5);
    TokenStep(chars, 18, 19);
    LoopPipe(p, 1, [Literal('b')], Parser(Lex.Lexer(chars, 5), Lex.Literal('b'), Lex.Literal('c'), 1),
             Group([AltOr2], 0), Parser(Lex.Lexer(chars, 18), Lex.Eof, Lex.Eof, 1), Lex.Eof, Lex.Lexer(chars, 19));
    LoopEnds(Parser(Lex.Lexer(chars, 19), Lex.Eof, Lex.Eof, 1), 1, [AltOr3]);
  }

  /** `b` is pushed before the first `|`. */
  lemma AltGroup(chars: string)
    requires OneCharTokenAt(chars, 3) && TokenAt(chars, 3) == Lex.Literal('b')
    requires Loop(Parser(Lex.Lexer(chars, 4), Lex.Pipe, Lex.Literal('b'), 1), 1, [Literal('b')]) ==
             Ok((Group([AltOr3], 0), Parser(Lex.Lexer(chars, 19), Lex.Eof, Lex.Eof, 1)))
    ensures Loop(Parser(Lex.Lexer(chars, 3), Lex.Literal('b'), Lex.Pipe, 1), 1, []) ==
            Ok((Group([AltOr3], 0), Parser(Lex.Lexer(chars, 19), Lex.Eof, Lex.Eof, 1)))
  {
    var e: seq<Node> := [];
    PushStep(chars, 3, 'b', Lex.Pipe, Lex.Literal('b'), 1, 1, e);
    assert e + [Literal('b')] == [Literal('b')];
  }

  /** The `(` at 0 opens group 1, which runs to the end of the pattern. */
  lemma AltOuter(chars: string)
    requires OneCharTokenAt(chars, 2) && TokenAt(chars, 2) == Lex.Pipe
    requires OneCharTokenAt(chars, 19) && TokenAt(chars, 19) == Lex.Eof
    requires Loop(Parser(Lex.Lexer(chars, 3), Lex.Literal('b'), Lex.Pipe, 1), 1, []) ==
             Ok((Group([AltOr3], 0), Parser(Lex.Lexer(chars, 19), Lex.Eof, Lex.Eof, 1)))
    ensures Loop(Parser(Lex.Lexer(chars, 2), Lex.LParen, Lex.Literal('b'), 0), 0, []) ==
            Ok((AltTree, Parser(Lex.Lexer(chars, 20), Lex.Eof, Lex.Eof, 1)))
  {
    var e: seq<Node> := [];
    var p := Parser(Lex.Lexer(chars, 2), Lex.LParen, Lex.Literal('b'), 0);
    AdvanceStep(p.(groupRef := 1), chars, 2, 3);
    TokenStep(chars, 19, 20);
    LoopGroup(p, 0, e, 1, Parser(Lex.Lexer(chars, 3), Lex.Literal('b'), Lex.Pipe, 1), Group([AltOr3], 0),
              Parser(Lex.Lexer(chars, 19), Lex.Eof, Lex.Eof, 1), Lex.Eof, Lex.Lexer(chars, 20));
    assert e + [Group([AltOr3], 0)] == AltTree.nodes;
    LoopEnds(Parser(Lex.Lexer(chars, 20), Lex.Eof, Lex.Eof, 1), 0, AltTree.nodes);
  }

  lemma AltParseFromLayout(chars: string)
    requires AltFrontTokens(chars) && AltBackTokens(chars) && AltEndTokens(chars)
    ensures Compile(chars) == Ok(AltTree)
  {
    NewOnOneCharTokens(chars);
    AltSecondRight(chars);
    AltSecondPipe(chars);
    PairStep(chars, 5, 6, 7, 'b', 'c', Lex.Pipe, Lex.Literal('d'), 1, 1);
    AltFirstPipe(chars);
    AltGroup(chars);
    AltOuter(chars);
    CompileFrom(chars, Parser(Lex.Lexer(chars, 2), TokenAt(chars, 0), TokenAt(chars, 1), 0));
  }

  /** `(b|bc|de|fg)d45` parses to nested alternations: `b` or (`bc` or
      ((`de` or `fg`) followed by `d45`)). */
  lemma AltParse(chars: string)
    requires chars == AltText
    ensures Compile(chars) == Ok(AltTree)
  {
    AltLexesFront(chars);
    AltLexesBack(chars);
    AltLexesEnd(chars);
    AltParseFromLayout(chars);
  }

  const AltYes: string := "ded45h_"

  /** Its `d`s are at 0 and 2; it holds no `b` and no `f`. */
  predicate AltYesLayout(text: string) {
    && |text| == 7 && text[1] == 'e' && text[3] == '4' && text[4] == '5'
    && (forall q :: 0 <= q < 7 ==> (text[q] == 'd' <==> q == 0 || q == 2))
    && (forall q :: 0 <= q < 7 ==> text[q] != 'b' && text[q] != 'f')
  }

  lemma AltYesLayoutHolds(text: string)
    requires text == AltYes
    ensures AltYesLayout(text)
  {
  }

  /** `d` from every position moves 0 and 2 on. */
  lemma AltD(text: string)
    requires AltYesLayout(text)
    ensures Matches(Literal('d'), Start(|text|), text) == Ok(Outcome(true, {1, 3}))
  {
    var n := |text|;
    ClassStepSpec(Literal('d'), Start(n), text);
    var r := Matches(Literal('d'), Start(n), text).value;
    var zero, two: nat := 0, 2;
    assert zero + 1 in r.positions && two + 1 in r.positions;
    forall q | q in r.positions ensures q == 1 || q == 3 {
      var p: nat := q - 1;
      assert p + 1 in r.positions;
    }
    assert r.positions == {1, 3};
  }

  /** `de` from every position reaches 2 only. */
  lemma AltDE(text: string)
    requires AltYesLayout(text)
    ensures Matches(Group([Literal('d'), Literal('e')], 1), Start(|text|), text) == Ok(Outcome(true, {2}))
  {
    var ns, n := [Literal('d'), Literal('e')], |text|;
    assert Live(Start(n), n) == Start(n);
    GroupThreads(ns, 1, Start(n), text);
    AltD(text);
    ThreadOn(ns, Start(n), text);
    OnlyOneHolds('e', {1, 3}, 1, text);
    LiteralFromOne('e', 1, text);
    ThreadOn(ns[1..], {1, 3}, text);
    assert ns[1..][1..] == [];
  }

  /** A pair whose first letter the text never holds fails. */
  lemma AltPairFails(c: char, d: char, text: string)
    requires forall q :: 0 <= q < |text| ==> text[q] != c
    ensures Matches(Group([Literal(c), Literal(d)], 1), Start(|text|), text) == Ok(Outcome(false, {}))
  {
    var n := |text|;
    assert Live(Start(n), n) == Start(n);
    GroupThreads([Literal(c), Literal(d)], 1, Start(n), text);
    LiteralNowhere(c, Start(n), text);
  }

  /** `de|fg`: only `de` matches. */
  lemma AltFirstOr(text: string)
    requires AltYesLayout(text)
    ensures Matches(AltOr1, Start(|text|), text) == Ok(Outcome(true, {2}))
  {
    AltDE(text);
    AltPairFails('f', 'g', text);
    OrOfTwo(Group([Literal('d'), Literal('e')], 1), Group([Literal('f'), Literal('g')], 1), Start(|text|), text);
    assert {2} + {} == {2};
  }

  /** `(de|fg)d45` takes every position to 5. */
  lemma AltRest(text: string)
    requires AltYesLayout(text)
    ensures Matches(AltRight2, Start(|text|), text) == Ok(Outcome(true, {5}))
  {
    var ns, n := AltRight2.nodes, |text|;
    assert Live(Start(n), n) == Start(n);
    GroupThreads(ns, 0, Start(n), text);
    AltFirstOr(text);
    ThreadOn(ns, Start(n), text);
    LiteralFromOne('d', 2, text);
    ThreadOn(ns[1..], {2}, text);
    LiteralFromOne('4', 3, text);
    ThreadOn(ns[2..], {3}, text);
    LiteralFromOne('5', 4, text);
    ThreadOn(ns[3..], {4}, text);
    assert ns[3..][1..] == [];
  }

  /** The two outer alternations: `b` and `bc` fail, the rest reaches 5. */
  lemma AltOrs(text: string)
    requires AltYesLayout(text)
    ensures Matches(AltOr3, Start(|text|), text) == Ok(Outcome(true, {5}))
  {
    var n := |text|;
    AltRest(text);
    AltPairFails('b', 'c', text);
    OrOfTwo(Group([Literal('b'), Literal('c')], 1), AltRight2, Start(n), text);
    assert {} + {5} == {5};
    SingletonGroup(Literal('b'), 1, Start(n), text);
    LiteralNowhere('b', Start(n), text);
    SingletonGroup(AltOr2, 0, Start(n), text);
    OrOfTwo(Group([Literal('b')], 1), Group([AltOr2], 0), Start(n), text);
  }

  /** `(b|bc|de|fg)d45` matches `ded45h_`, ending after the `5`. */
  lemma AltMatch(text: string)
    requires AltYesLayout(text)
    ensures Matches(AltTree, Start(|text|), text) == Ok(Outcome(true, {5}))
  {
    AltOrs(text);
    SingletonGroup(AltOr3, 0, Start(|text|), text);
    SingletonGroup(Group([AltOr3], 0), 0, Start(|text|), text);
  }

  /** `(b|bc|de|fg)d45` on `ded45h_`: true, as the test table says. */
  lemma AltVerdictTrue(pattern: string, text: string)
    requires pattern == AltText && text == AltYes
    ensures Search(pattern, text).Ok? && Search(pattern, text).value
  {
    AltParse(pattern);
    AltYesLayoutHolds(text);
    AltMatch(text);
  }
}
