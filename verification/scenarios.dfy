/** The verdicts of the test table of src/regex_matcher.rs, derived from the
    model: each pattern is parsed a run of tokens at a time, and each tree is
    matched against its text a node at a time. The pattern and the text are
    parameters fixed by a precondition, so that each step is taken by a lemma
    about a single token, a single node or a single run. */
module Scenarios {
  import opened Wrappers
  import Lex = RegexLexer
  import opened RegexParser
  import opened RegexMatcher

  // ---------------------------------------------------------------------------
  // Parsing steps

  /** The loop over a one-character literal token: the literal is pushed
      and the token after it, `next`, enters the window. */
  lemma PushStep(chars: seq<char>, i: nat, c: char, peek: Lex.Token, next: Lex.Token, counter: nat,
                 groupRef: nat, nodes: seq<Node>)
    requires OneCharTokenAt(chars, i) && TokenAt(chars, i) == next
    ensures Loop(Parser(Lex.Lexer(chars, i), Lex.Literal(c), peek, counter), groupRef, nodes) ==
            Loop(Parser(Lex.Lexer(chars, i + 1), peek, next, counter), groupRef, nodes + [Literal(c)])
  {
    OneCharToken(chars, i);
    LoopAccumulates(Parser(Lex.Lexer(chars, i), Lex.Literal(c), peek, counter), groupRef, nodes, next, Lex.Lexer(chars, i + 1));
  }

  /** The loop over a run of one-character tokens from `i` up to `k` (see
      `LoopOverOneCharTokens`), with the positions around the run named. */
  lemma RunStep(chars: seq<char>, i: nat, i1: nat, i2: nat, k: nat, k1: nat, k2: nat, counter: nat,
                groupRef: nat, nodes: seq<Node>)
    requires i1 == i + 1 && i2 == i + 2 && k1 == k + 1 && k2 == k + 2
    requires OneCharRun(chars, i, k)
    requires Pushes(TokensAt(chars, i, k), nodes).Ok?
    ensures Loop(Parser(Lex.Lexer(chars, i2), TokenAt(chars, i), TokenAt(chars, i1), counter), groupRef, nodes) ==
            Loop(Parser(Lex.Lexer(chars, k2), TokenAt(chars, k), TokenAt(chars, k1), counter), groupRef,
                 Pushes(TokensAt(chars, i, k), nodes).value)
  {
    LoopOverOneCharTokens(chars, i, k, counter, groupRef, nodes);
  }

  /** A one-character token at `i`, with the position after it named. */
  lemma TokenStep(chars: seq<char>, i: nat, i1: nat)
    requires i1 == i + 1 && OneCharTokenAt(chars, i)
    ensures Lex.NextToken(Lex.Lexer(chars, i)) == Ok((TokenAt(chars, i), Lex.Lexer(chars, i1)))
  {
    OneCharToken(chars, i);
  }

  /** Advancing over a one-character token at `i`, with the position after
      it named. */
  lemma AdvanceStep(p: Parser, chars: seq<char>, i: nat, i1: nat)
    requires i1 == i + 1 && p.lexer == Lex.Lexer(chars, i) && OneCharTokenAt(chars, i)
    ensures Advance(p) == Ok(Parser(Lex.Lexer(chars, i1), p.peek, TokenAt(chars, i), p.groupRef))
  {
    AdvanceOneChar(p, chars, i);
  }

  /** The loop over a quantifier token: the last node is wrapped and the
      token after it, `next` (which ends on `j`), enters the window. */
  lemma WrapStep(chars: seq<char>, i: nat, j: nat, min: nat, max: Option<nat>, peek: Lex.Token, next: Lex.Token,
                 counter: nat, groupRef: nat, nodes: seq<Node>, last: Node)
    requires Lex.NextToken(Lex.Lexer(chars, i)) == Ok((next, Lex.Lexer(chars, j)))
    ensures Loop(Parser(Lex.Lexer(chars, i), Lex.Quantifier(min, max), peek, counter), groupRef, nodes + [last]) ==
            Loop(Parser(Lex.Lexer(chars, j), peek, next, counter), groupRef, nodes + [Quantifier(last, min, max)])
  {
    var r := Accumulate(Lex.Quantifier(min, max), nodes + [last]).value;
    assert r == nodes + [Quantifier(last, min, max)] by {
      assert r[..|nodes|] == (nodes + [last])[..|nodes|] == nodes;
    }
    LoopAccumulates(Parser(Lex.Lexer(chars, i), Lex.Quantifier(min, max), peek, counter), groupRef, nodes + [last],
                    next, Lex.Lexer(chars, j));
  }

  // ---------------------------------------------------------------------------
  // ba?c+d{2,3}f*g

  const QuantifiedText: string := "ba?c+d{2,3}f*g"

  const QuantifiedTree: Node :=
    Group([Literal('b'), Quantifier(Literal('a'), 0, Some(1)), Quantifier(Literal('c'), 1, None),
           Quantifier(Literal('d'), 2, Some(3)), Quantifier(Literal('f'), 0, None), Literal('g')], 0)

  /** How `ba?c+d{2,3}f*g` lexes: one-character tokens up to index 6, where
      `{2,3}` runs to index 11, and one-character tokens from there on. */
  predicate QuantifiedHeadLayout(chars: string) {
    && OneCharTokenAt(chars, 0) && OneCharTokenAt(chars, 1) && OneCharRun(chars, 0, 4)
    && TokensAt(chars, 0, 4) == [Lex.Literal('b'), Lex.Literal('a'), Lex.Quantifier(0, Some(1)), Lex.Literal('c')]
    && TokenAt(chars, 4) == Lex.Quantifier(1, None) && TokenAt(chars, 5) == Lex.Literal('d')
  }

  predicate QuantifiedBraceLayout(chars: string) {
    && Lex.NextToken(Lex.Lexer(chars, 6)) == Ok((Lex.Quantifier(2, Some(3)), Lex.Lexer(chars, 11)))
    && OneCharTokenAt(chars, 11) && TokenAt(chars, 11) == Lex.Literal('f')
    && OneCharTokenAt(chars, 12) && TokenAt(chars, 12) == Lex.Quantifier(0, None)
  }

  predicate QuantifiedTailLayout(chars: string) {
    && OneCharRun(chars, 11, 14)
    && TokensAt(chars, 11, 14) == [Lex.Literal('f'), Lex.Quantifier(0, None), Lex.Literal('g')]
    && TokenAt(chars, 14) == Lex.Eof && TokenAt(chars, 15) == Lex.Eof
  }

  lemma QuantifiedLexesHead(chars: string)
    requires chars == QuantifiedText
    ensures QuantifiedHeadLayout(chars)
  {
  }

  lemma QuantifiedLexesBrace(chars: string)
    requires chars == QuantifiedText
    ensures QuantifiedBraceLayout(chars)
  {
    QuantifiedBraceChars(chars);
    QuantifiedBraceToken(chars);
  }

  lemma QuantifiedBraceChars(chars: string)
    requires chars == QuantifiedText
    ensures |chars| == 14 && chars[6] == '{' && chars[7] == '2' && chars[8] == ',' && chars[9] == '3' && chars[10] == '}'
    ensures OneCharTokenAt(chars, 11) && TokenAt(chars, 11) == Lex.Literal('f')
    ensures OneCharTokenAt(chars, 12) && TokenAt(chars, 12) == Lex.Quantifier(0, None)
  {
  }

  /** `{2,3}` runs from index 6 to index 11. */
  lemma QuantifiedBraceToken(chars: string)
    requires |chars| == 14 && chars[6] == '{' && chars[7] == '2' && chars[8] == ',' && chars[9] == '3' && chars[10] == '}'
    ensures Lex.NextToken(Lex.Lexer(chars, 6)) == Ok((Lex.Quantifier(2, Some(3)), Lex.Lexer(chars, 11)))
  {
    assert Lex.DigitsAt(chars, 7, 1) && Lex.DigitsAt(chars, 9, 1);
    assert Lex.DecimalValue(chars, 7, 8) == 2 && Lex.DecimalValue(chars, 9, 10) == 3;
    Lex.BraceRange(chars, 6, 1, 1);
  }

  lemma QuantifiedLexesTail(chars: string)
    requires chars == QuantifiedText
    ensures QuantifiedTailLayout(chars)
  {
  }

  const QuantifiedHeadNodes: seq<Node> := [Literal('b'), Quantifier(Literal('a'), 0, Some(1)), Literal('c')]

  const QuantifiedMiddleNodes: seq<Node> :=
    [Literal('b'), Quantifier(Literal('a'), 0, Some(1)), Quantifier(Literal('c'), 1, None),
     Quantifier(Literal('d'), 2, Some(3))]

  lemma QuantifiedHeadPushes(chars: string)
    requires TokensAt(chars, 0, 4) == [Lex.Literal('b'), Lex.Literal('a'), Lex.Quantifier(0, Some(1)), Lex.Literal('c')]
    ensures Pushes(TokensAt(chars, 0, 4), []).Ok? && Pushes(TokensAt(chars, 0, 4), []).value == QuantifiedHeadNodes
  {
    var e: seq<Node> := [];
    var r := Pushes([Lex.Literal('b'), Lex.Literal('a'), Lex.Quantifier(0, Some(1)), Lex.Literal('c')], e);
    assert r.Ok? && r.value == [Literal('b'), Quantifier(Literal('a'), 0, Some(1)), Literal('c')];
  }

  /** `b`, `a`, `?` and `c` are folded in; `+` is next. */
  lemma QuantifiedHead(chars: string)
    requires OneCharRun(chars, 0, 4)
    requires Pushes(TokensAt(chars, 0, 4), []).Ok? && Pushes(TokensAt(chars, 0, 4), []).value == QuantifiedHeadNodes
    requires TokenAt(chars, 4) == Lex.Quantifier(1, None) && TokenAt(chars, 5) == Lex.Literal('d')
    ensures Loop(Parser(Lex.Lexer(chars, 2), TokenAt(chars, 0), TokenAt(chars, 1), 0), 0, []) ==
            Loop(Parser(Lex.Lexer(chars, 6), Lex.Quantifier(1, None), Lex.Literal('d'), 0), 0, QuantifiedHeadNodes)
  {
    RunStep(chars, 0, 1, 2, 4, 5, 6, 0, 0, []);
  }

  /** `+` wraps `c`; `d` is next. */
  lemma QuantifiedPlus(chars: string)
    requires QuantifiedBraceLayout(chars)
    ensures Loop(Parser(Lex.Lexer(chars, 6), Lex.Quantifier(1, None), Lex.Literal('d'), 0), 0, QuantifiedHeadNodes) ==
            Loop(Parser(Lex.Lexer(chars, 11), Lex.Literal('d'), Lex.Quantifier(2, Some(3)), 0), 0,
                 [Literal('b'), Quantifier(Literal('a'), 0, Some(1)), Quantifier(Literal('c'), 1, None)])
  {
    var n1 := [Literal('b'), Quantifier(Literal('a'), 0, Some(1))];
    assert QuantifiedHeadNodes == n1 + [Literal('c')];
    WrapStep(chars, 6, 11, 1, None, Lex.Literal('d'), Lex.Quantifier(2, Some(3)), 0, 0, n1, Literal('c'));
    assert n1 + [Quantifier(Literal('c'), 1, None)] ==
           [Literal('b'), Quantifier(Literal('a'), 0, Some(1)), Quantifier(Literal('c'), 1, None)];
  }

  /** `d` is pushed and `{2,3}` wraps it; `f` is next. */
  lemma QuantifiedBrace(chars: string)
    requires QuantifiedBraceLayout(chars)
    ensures Loop(Parser(Lex.Lexer(chars, 11), Lex.Literal('d'), Lex.Quantifier(2, Some(3)), 0), 0,
                 [Literal('b'), Quantifier(Literal('a'), 0, Some(1)), Quantifier(Literal('c'), 1, None)]) ==
            Loop(Parser(Lex.Lexer(chars, 13), Lex.Literal('f'), Lex.Quantifier(0, None), 0), 0, QuantifiedMiddleNodes)
  {
    var n2 := [Literal('b'), Quantifier(Literal('a'), 0, Some(1)), Quantifier(Literal('c'), 1, None)];
    PushStep(chars, 11, 'd', Lex.Quantifier(2, Some(3)), Lex.Literal('f'), 0, 0, n2);
    OneCharToken(chars, 12);
    WrapStep(chars, 12, 13, 2, Some(3), Lex.Literal('f'), Lex.Quantifier(0, None), 0, 0, n2, Literal('d'));
    assert n2 + [Quantifier(Literal('d'), 2, Some(3))] == QuantifiedMiddleNodes;
  }

  lemma QuantifiedTailPushes(chars: string)
    requires TokensAt(chars, 11, 14) == [Lex.Literal('f'), Lex.Quantifier(0, None), Lex.Literal('g')]
    ensures Pushes(TokensAt(chars, 11, 14), QuantifiedMiddleNodes).Ok?
    ensures Pushes(TokensAt(chars, 11, 14), QuantifiedMiddleNodes).value == QuantifiedTree.nodes
  {
    var r := Pushes([Lex.Literal('f'), Lex.Quantifier(0, None), Lex.Literal('g')],
                    [Literal('b'), Quantifier(Literal('a'), 0, Some(1)), Quantifier(Literal('c'), 1, None),
                     Quantifier(Literal('d'), 2, Some(3))]);
    assert r.Ok? && r.value == [Literal('b'), Quantifier(Literal('a'), 0, Some(1)), Quantifier(Literal('c'), 1, None),
                                Quantifier(Literal('d'), 2, Some(3)), Quantifier(Literal('f'), 0, None), Literal('g')];
  }

  /** `f`, `*` and `g` are folded in and the parse reaches the end. */
  lemma QuantifiedTail(chars: string)
    requires OneCharRun(chars, 11, 14)
    requires Pushes(TokensAt(chars, 11, 14), QuantifiedMiddleNodes).Ok?
    requires Pushes(TokensAt(chars, 11, 14), QuantifiedMiddleNodes).value == QuantifiedTree.nodes
    requires TokenAt(chars, 11) == Lex.Literal('f') && TokenAt(chars, 12) == Lex.Quantifier(0, None)
    requires TokenAt(chars, 14) == Lex.Eof && TokenAt(chars, 15) == Lex.Eof
    ensures Loop(Parser(Lex.Lexer(chars, 13), Lex.Literal('f'), Lex.Quantifier(0, None), 0), 0, QuantifiedMiddleNodes) ==
            Ok((QuantifiedTree, Parser(Lex.Lexer(chars, 16), Lex.Eof, Lex.Eof, 0)))
  {
    RunStep(chars, 11, 12, 13, 14, 15, 16, 0, 0, QuantifiedMiddleNodes);
    LoopEnds(Parser(Lex.Lexer(chars, 16), Lex.Eof, Lex.Eof, 0), 0, QuantifiedTree.nodes);
  }

  lemma QuantifiedParseFromLayout(chars: string)
    requires QuantifiedHeadLayout(chars) && QuantifiedBraceLayout(chars) && QuantifiedTailLayout(chars)
    ensures Compile(chars) == Ok(QuantifiedTree)
  {
    NewOnOneCharTokens(chars);
    var p := Parser(Lex.Lexer(chars, 2), TokenAt(chars, 0), TokenAt(chars, 1), 0);
    QuantifiedHeadPushes(chars);
    QuantifiedTailPushes(chars);
    QuantifiedHead(chars);
    QuantifiedPlus(chars);
    QuantifiedBrace(chars);
    QuantifiedTail(chars);
    CompileFrom(chars, p);
  }

  /** `ba?c+d{2,3}f*g` parses to the group of `b`, `a?`, `c+`, `d{2,3}`, `f*`
      and `g`, in that order. */
  lemma QuantifiedParse(chars: string)
    requires chars == QuantifiedText
    ensures Compile(chars) == Ok(QuantifiedTree)
  {
    QuantifiedLexesHead(chars);
    QuantifiedLexesBrace(chars);
    QuantifiedLexesTail(chars);
    QuantifiedParseFromLayout(chars);
  }

  /** The positions `lo` up to, not including, `hi`. */
  function Span(lo: nat, hi: nat): (r: set<nat>)
    ensures forall q: int :: q in r <==> lo <= q < hi
    decreases hi
  {
    if hi <= lo then {} else Span(lo, hi - 1) + {hi - 1}
  }

  /** Both texts of the table for `ba?c+d{2,3}f*g` start with a `b` (the
      only one), no `a`, two `c`s and a `d`. */
  predicate QuantifiedFrontLayout(text: string) {
    && 4 <= |text|
    && (forall q :: 0 <= q < |text| ==> (text[q] == 'b' <==> q == 0))
    && RunOf(text, 'a', 1, 0) && RunOf(text, 'c', 1, 2) && text[2] != 'd'
  }

  /** `b` from every position: only position 0 holds a `b`. */
  lemma QuantifiedB(text: string)
    requires QuantifiedFrontLayout(text)
    ensures Accepts(Literal('b'), Start(|text|), text)
    ensures Matches(Literal('b'), Start(|text|), text).value.positions == {1}
  {
    ClassStepSpec(Literal('b'), Start(|text|), text);
    assert 0 in Start(|text|);
  }

  /** `a?` finds no `a` and keeps position 1. */
  lemma QuantifiedA(text: string)
    requires QuantifiedFrontLayout(text)
    ensures Accepts(Quantifier(Literal('a'), 0, Some(1)), {1}, text)
    ensures Matches(Quantifier(Literal('a'), 0, Some(1)), {1}, text).value.positions == {1}
  {
    QuantifiedLiteral('a', 0, Some(1), {1}, 1, 0, text);
  }

  /** `c+` takes one or both `c`s. */
  lemma QuantifiedC(text: string)
    requires QuantifiedFrontLayout(text)
    ensures Accepts(Quantifier(Literal('c'), 1, None), {1}, text)
    ensures Matches(Quantifier(Literal('c'), 1, None), {1}, text).value.positions == {2, 3}
  {
    assert RoundCap(None, {1}, |text|) == |text|;
    assert RunRounds(None, {1}, |text|, 2) == 2;
    QuantifiedLiteral('c', 1, None, {1}, 1, 2, text);
    var m := Matches(Quantifier(Literal('c'), 1, None), {1}, text);
    assert forall q: nat :: q in m.value.positions <==> q == 2 || q == 3;
  }

  lemma QuantifiedFront(text: string)
    requires QuantifiedFrontLayout(text)
    ensures Thread(QuantifiedTree.nodes, Start(|text|), text) == Thread(QuantifiedTree.nodes[3..], {2, 3}, text)
  {
    var ns := QuantifiedTree.nodes;
    QuantifiedB(text);
    ThreadOn(ns, Start(|text|), text);
    QuantifiedA(text);
    ThreadOn(ns[1..], {1}, text);
    QuantifiedC(text);
    ThreadOn(ns[2..], {1}, text);
  }

  /** The text that `ba?c+d{2,3}f*g` matches: `b`, no `a`, two `c`s, three
      `d`s, eight `f`s and a `g`. */
  const QuantifiedYes: string := "bccdddffffffffg"

  predicate QuantifiedYesLayout(text: string) {
    && |text| == 15 && QuantifiedFrontLayout(text)
    && RunOf(text, 'd', 3, 3) && text[5] != 'f' && RunOf(text, 'f', 6, 8)
    && (forall q :: 0 <= q < 15 ==> (text[q] == 'g' <==> q == 14))
  }

  lemma QuantifiedYesLayoutHolds(text: string)
    requires text == QuantifiedYes
    ensures QuantifiedYesLayout(text)
  {
  }

  /** `d{2,3}` takes two or three `d`s. */
  lemma QuantifiedYesD(text: string)
    requires QuantifiedYesLayout(text)
    ensures Accepts(Quantifier(Literal('d'), 2, Some(3)), {2, 3}, text)
    ensures Matches(Quantifier(Literal('d'), 2, Some(3)), {2, 3}, text).value.positions == {5, 6}
  {
    assert RunRounds(Some(3), {2, 3}, 15, 3) == 3;
    QuantifiedLiteral('d', 2, Some(3), {2, 3}, 3, 3, text);
    var m := Matches(Quantifier(Literal('d'), 2, Some(3)), {2, 3}, text);
    assert forall q: nat :: q in m.value.positions <==> q == 5 || q == 6;
  }

  /** From 5 an unbounded quantifier may run 11 rounds; the run of `f`s
      stops it after 8. */
  lemma QuantifiedYesFRounds()
    ensures RunRounds(None, {5, 6}, 15, 8) == 8
  {
    assert RoundCap(None, {5, 6}, 15) == 11;
  }

  /** `f*` keeps 5 and 6 and takes any number of the `f`s. */
  lemma QuantifiedYesF(text: string)
    requires |text| == 15 && text[5] != 'f' && RunOf(text, 'f', 6, 8)
    ensures Accepts(Quantifier(Literal('f'), 0, None), {5, 6}, text)
    ensures Matches(Quantifier(Literal('f'), 0, None), {5, 6}, text).value.positions == Span(5, 15)
  {
    QuantifiedYesFRounds();
    QuantifiedLiteral('f', 0, None, {5, 6}, 6, 8, text);
    var m := Matches(Quantifier(Literal('f'), 0, None), {5, 6}, text);
    assert forall q: nat :: q in m.value.positions <==> q in {5, 6} || 6 < q <= 14;
    assert forall q: nat :: q in m.value.positions <==> 5 <= q < 15;
  }

  /** `g` is found at 14 only. */
  lemma QuantifiedYesG(text: string)
    requires |text| == 15 && forall q :: 0 <= q < 15 ==> (text[q] == 'g' <==> q == 14)
    ensures Accepts(Literal('g'), Span(5, 15), text)
    ensures Matches(Literal('g'), Span(5, 15), text).value.positions == {15}
  {
    OnlyOneHolds('g', Span(5, 15), 14, text);
    LiteralFromOne('g', 14, text);
  }

  lemma QuantifiedYesBack(text: string)
    requires QuantifiedYesLayout(text)
    ensures Thread(QuantifiedTree.nodes[3..], {2, 3}, text) == Ok(Outcome(true, {15}))
  {
    var ns := QuantifiedTree.nodes[3..];
    QuantifiedYesD(text);
    ThreadOn(ns, {2, 3}, text);
    QuantifiedYesF(text);
    ThreadOn(ns[1..], {5, 6}, text);
    QuantifiedYesG(text);
    ThreadOn(ns[2..], Span(5, 15), text);
  }

  /** `ba?c+d{2,3}f*g` matches `bccdddffffffffg`, ending at the end of the
      text. */
  lemma QuantifiedYesMatch(text: string)
    requires QuantifiedYesLayout(text)
    ensures Matches(QuantifiedTree, Start(|text|), text).Ok?
    ensures Matches(QuantifiedTree, Start(|text|), text).value == Outcome(true, {15})
  {
    assert Live(Start(15), 15) == Start(15);
    GroupThreads(QuantifiedTree.nodes, 0, Start(15), text);
    QuantifiedFront(text);
    QuantifiedYesBack(text);
  }

  /** `ba?c+d{2,3}f*g` on `bccdddffffffffg`: true, as the test table says. */
  lemma QuantifiedVerdictTrue(pattern: string, text: string)
    requires pattern == QuantifiedText && text == QuantifiedYes
    ensures Search(pattern, text).Ok? && Search(pattern, text).value
  {
    QuantifiedParse(pattern);
    QuantifiedYesLayoutHolds(text);
    QuantifiedYesMatch(text);
  }

  /** The text with one `d` only: `b`, two `c`s, a `d`, eight `f`s and a
      `g`. */
  const QuantifiedNo: string := "bccdffffffffg"

  predicate QuantifiedNoLayout(text: string) {
    |text| == 13 && QuantifiedFrontLayout(text) && RunOf(text, 'd', 3, 1)
  }

  lemma QuantifiedNoLayoutHolds(text: string)
    requires text == QuantifiedNo
    ensures QuantifiedNoLayout(text)
  {
  }

  /** `d{2,3}` finds a single `d` at 3 and fails. */
  lemma QuantifiedNoD(text: string)
    requires QuantifiedNoLayout(text)
    ensures Matches(Quantifier(Literal('d'), 2, Some(3)), {2, 3}, text).Ok?
    ensures !Matches(Quantifier(Literal('d'), 2, Some(3)), {2, 3}, text).value.matched
  {
    assert RunRounds(Some(3), {2, 3}, 13, 1) == 1;
    QuantifiedLiteral('d', 2, Some(3), {2, 3}, 3, 1, text);
  }

  /** `ba?c+d{2,3}f*g` on `bccdffffffffg`: false, as the test table says. */
  lemma QuantifiedVerdictFalse(pattern: string, text: string)
    requires pattern == QuantifiedText && text == QuantifiedNo
    ensures Search(pattern, text).Ok? && !Search(pattern, text).value
  {
    QuantifiedParse(pattern);
    QuantifiedNoLayoutHolds(text);
    QuantifiedNoMatch(text);
  }

  /** `ba?c+d{2,3}f*g` does not match `bccdffffffffg`. */
  lemma QuantifiedNoMatch(text: string)
    requires QuantifiedNoLayout(text)
    ensures Matches(QuantifiedTree, Start(|text|), text).Ok?
    ensures !Matches(QuantifiedTree, Start(|text|), text).value.matched
  {
    assert Live(Start(13), 13) == Start(13);
    GroupThreads(QuantifiedTree.nodes, 0, Start(13), text);
    QuantifiedFront(text);
    QuantifiedNoD(text);
  }

  // ---------------------------------------------------------------------------
  // Ap[^xy]le, for the two rows of the table: [^pb] and [^ab]

  /** The pattern `Ap[^xy]le`. */
  function AppleText(x: char, y: char): string {
    "Ap[^" + [x, y] + "]le"
  }

  function AppleClass(x: char, y: char): Node {
    Not([Literal(x), Literal(y)])
  }

  function AppleTree(x: char, y: char): Node {
    Group([Literal('A'), Literal('p'), AppleClass(x, y), Literal('l'), Literal('e')], 0)
  }

  function AppleFrontNodes(x: char, y: char): seq<Node> {
    [Literal('A'), Literal('p'), AppleClass(x, y)]
  }

  /** How `Ap[^xy]le` lexes: one-character tokens throughout; the bracket
      runs from index 2 to the `]` at index 6. */
  predicate AppleHeadLayout(chars: string) {
    && OneCharTokenAt(chars, 0) && OneCharTokenAt(chars, 1) && OneCharRun(chars, 0, 2)
    && TokensAt(chars, 0, 2) == [Lex.Literal('A'), Lex.Literal('p')]
    && TokenAt(chars, 2) == Lex.LBracket && TokenAt(chars, 3) == Lex.StartAnchor
  }

  predicate AppleBracketLayout(chars: string, x: char, y: char) {
    && 6 < |chars| && chars[3] == '^' && chars[6] == ']' && chars[4..6] == [x, y]
    && (forall j :: 4 <= j < 6 ==> !Lex.IsSpecial(chars[j]))
    && OneCharTokenAt(chars, 4) && OneCharTokenAt(chars, 7) && OneCharTokenAt(chars, 8)
    && TokenAt(chars, 3) == Lex.StartAnchor
    && TokenAt(chars, 7) == Lex.Literal('l') && TokenAt(chars, 8) == Lex.Literal('e')
  }

  predicate AppleTailLayout(chars: string) {
    && OneCharRun(chars, 7, 9)
    && TokensAt(chars, 7, 9) == [Lex.Literal('l'), Lex.Literal('e')]
    && TokenAt(chars, 9) == Lex.Eof && TokenAt(chars, 10) == Lex.Eof
  }

  /** The characters of `Ap[^xy]le`. */
  lemma AppleChars(chars: string, x: char, y: char)
    requires chars == AppleText(x, y)
    ensures |chars| == 9 && chars[0] == 'A' && chars[1] == 'p' && chars[2] == '[' && chars[3] == '^'
    ensures chars[4] == x && chars[5] == y && chars[6] == ']' && chars[7] == 'l' && chars[8] == 'e'
  {
  }

  lemma AppleLexes(chars: string, x: char, y: char)
    requires chars == AppleText(x, y) && !Lex.IsSpecial(x) && !Lex.IsSpecial(y)
    ensures AppleHeadLayout(chars) && AppleBracketLayout(chars, x, y) && AppleTailLayout(chars)
  {
    AppleChars(chars, x, y);
    AppleLexesHead(chars);
    AppleLexesBracket(chars, x, y);
    AppleLexesTail(chars);
  }

  lemma AppleLexesHead(chars: string)
    requires |chars| == 9 && chars[0] == 'A' && chars[1] == 'p' && chars[2] == '[' && chars[3] == '^'
    ensures AppleHeadLayout(chars)
  {
  }

  lemma AppleLexesBracket(chars: string, x: char, y: char)
    requires !Lex.IsSpecial(x) && !Lex.IsSpecial(y)
    requires |chars| == 9 && chars[3] == '^' && chars[4] == x && chars[5] == y && chars[6] == ']'
    requires chars[7] == 'l' && chars[8] == 'e'
    ensures AppleBracketLayout(chars, x, y)
  {
  }

  lemma AppleLexesTail(chars: string)
    requires |chars| == 9 && chars[7] == 'l' && chars[8] == 'e'
    ensures AppleTailLayout(chars)
  {
  }

  lemma AppleHeadPushes(chars: string)
    requires TokensAt(chars, 0, 2) == [Lex.Literal('A'), Lex.Literal('p')]
    ensures Pushes(TokensAt(chars, 0, 2), []).Ok? && Pushes(TokensAt(chars, 0, 2), []).value == [Literal('A'), Literal('p')]
  {
    var e: seq<Node> := [];
    var r := Pushes([Lex.Literal('A'), Lex.Literal('p')], e);
    assert r.Ok? && r.value == [Literal('A'), Literal('p')];
  }

  /** `A` and `p` are pushed; `[` is next. */
  lemma AppleHead(chars: string)
    requires OneCharRun(chars, 0, 2)
    requires Pushes(TokensAt(chars, 0, 2), []).Ok? && Pushes(TokensAt(chars, 0, 2), []).value == [Literal('A'), Literal('p')]
    requires TokenAt(chars, 2) == Lex.LBracket && TokenAt(chars, 3) == Lex.StartAnchor
    ensures Loop(Parser(Lex.Lexer(chars, 2), TokenAt(chars, 0), TokenAt(chars, 1), 0), 0, []) ==
            Loop(Parser(Lex.Lexer(chars, 4), Lex.LBracket, Lex.StartAnchor, 0), 0, [Literal('A'), Literal('p')])
  {
    RunStep(chars, 0, 1, 2, 2, 3, 4, 0, 0, []);
  }

  /** Inside the bracket: `^`, `x` and `y` up to the `]`. */
  lemma AppleBracketGroup(chars: string, x: char, y: char)
    requires AppleBracketLayout(chars, x, y)
    ensures BuildBracketGroup(Parser(Lex.Lexer(chars, 5), Lex.StartAnchor, TokenAt(chars, 4), 0)) ==
            Ok((AppleClass(x, y), Parser(Lex.Lexer(chars, 8), Lex.RBracket, Lex.Literal('l'), 0)))
  {
    BracketGroupOfLiterals(chars, 3, 6, Parser(Lex.Lexer(chars, 5), Lex.StartAnchor, TokenAt(chars, 4), 0), true);
    AppleBracketItems(x, y);
  }

  lemma AppleBracketItems(x: char, y: char)
    requires !Lex.IsSpecial(x) && !Lex.IsSpecial(y)
    ensures AtomNodes([x, y]) == [Literal(x), Literal(y)]
  {
    var items := AtomNodes([x, y]);
    assert items[0] == AtomNode(x) && items[1] == AtomNode(y);
  }

  /** `[^xy]` becomes the negation of `x` and `y`; `l` is next. */
  lemma AppleBracket(chars: string, x: char, y: char)
    requires OneCharTokenAt(chars, 4) && OneCharTokenAt(chars, 8) && TokenAt(chars, 8) == Lex.Literal('e')
    requires BuildBracketGroup(Parser(Lex.Lexer(chars, 5), Lex.StartAnchor, TokenAt(chars, 4), 0)) ==
             Ok((AppleClass(x, y), Parser(Lex.Lexer(chars, 8), Lex.RBracket, Lex.Literal('l'), 0)))
    ensures Loop(Parser(Lex.Lexer(chars, 4), Lex.LBracket, Lex.StartAnchor, 0), 0, [Literal('A'), Literal('p')]) ==
            Loop(Parser(Lex.Lexer(chars, 9), Lex.Literal('l'), Lex.Literal('e'), 0), 0, AppleFrontNodes(x, y))
  {
    var p := Parser(Lex.Lexer(chars, 4), Lex.LBracket, Lex.StartAnchor, 0);
    AdvanceStep(p, chars, 4, 5);
    var p2 := Parser(Lex.Lexer(chars, 8), Lex.RBracket, Lex.Literal('l'), 0);
    TokenStep(chars, 8, 9);
    var nodes := [Literal('A'), Literal('p')];
    LoopBracket(p, 0, nodes, Parser(Lex.Lexer(chars, 5), Lex.StartAnchor, TokenAt(chars, 4), 0),
                AppleClass(x, y), p2, Lex.Literal('e'), Lex.Lexer(chars, 9));
    assert nodes + [AppleClass(x, y)] == AppleFrontNodes(x, y);
  }

  lemma AppleTailPushes(chars: string, x: char, y: char)
    requires TokensAt(chars, 7, 9) == [Lex.Literal('l'), Lex.Literal('e')]
    ensures Pushes(TokensAt(chars, 7, 9), AppleFrontNodes(x, y)).Ok?
    ensures Pushes(TokensAt(chars, 7, 9), AppleFrontNodes(x, y)).value == AppleTree(x, y).nodes
  {
    var r := Pushes([Lex.Literal('l'), Lex.Literal('e')], AppleFrontNodes(x, y));
    assert r.Ok? && r.value == AppleFrontNodes(x, y) + [Literal('l'), Literal('e')];
  }

  /** `l` and `e` are pushed and the parse reaches the end. */
  lemma AppleTail(chars: string, x: char, y: char)
    requires OneCharRun(chars, 7, 9)
    requires Pushes(TokensAt(chars, 7, 9), AppleFrontNodes(x, y)).Ok?
    requires Pushes(TokensAt(chars, 7, 9), AppleFrontNodes(x, y)).value == AppleTree(x, y).nodes
    requires TokenAt(chars, 7) == Lex.Literal('l') && TokenAt(chars, 8) == Lex.Literal('e')
    requires TokenAt(chars, 9) == Lex.Eof && TokenAt(chars, 10) == Lex.Eof
    ensures Loop(Parser(Lex.Lexer(chars, 9), Lex.Literal('l'), Lex.Literal('e'), 0), 0, AppleFrontNodes(x, y)) ==
            Ok((AppleTree(x, y), Parser(Lex.Lexer(chars, 11), Lex.Eof, Lex.Eof, 0)))
  {
    RunStep(chars, 7, 8, 9, 9, 10, 11, 0, 0, AppleFrontNodes(x, y));
    LoopEnds(Parser(Lex.Lexer(chars, 11), Lex.Eof, Lex.Eof, 0), 0, AppleTree(x, y).nodes);
  }

  lemma AppleParseFromLayout(chars: string, x: char, y: char)
    requires AppleHeadLayout(chars) && AppleBracketLayout(chars, x, y) && AppleTailLayout(chars)
    ensures Compile(chars) == Ok(AppleTree(x, y))
  {
    NewOnOneCharTokens(chars);
    AppleHeadPushes(chars);
    AppleTailPushes(chars, x, y);
    AppleHead(chars);
    AppleBracketGroup(chars, x, y);
    AppleBracket(chars, x, y);
    AppleTail(chars, x, y);
    CompileFrom(chars, Parser(Lex.Lexer(chars, 2), TokenAt(chars, 0), TokenAt(chars, 1), 0));
  }

  /** `Ap[^xy]le` parses to `A`, `p`, the negation of `x` and `y`, `l` and
      `e`, in that order, whenever `x` and `y` stand for themselves. */
  lemma AppleParse(chars: string, x: char, y: char)
    requires chars == AppleText(x, y) && !Lex.IsSpecial(x) && !Lex.IsSpecial(y)
    ensures Compile(chars) == Ok(AppleTree(x, y))
  {
    AppleLexes(chars, x, y);
    AppleParseFromLayout(chars, x, y);
  }

  const AppleYes: string := "Apple is good"

  /** `A` only at 0, then `pple`. */
  predicate AppleMatchLayout(text: string) {
    && |text| == 13
    && (forall q :: 0 <= q < 13 ==> (text[q] == 'A' <==> q == 0))
    && text[1] == 'p' && text[2] == 'p' && text[3] == 'l' && text[4] == 'e'
  }

  lemma AppleMatchLayoutHolds(text: string)
    requires text == AppleYes
    ensures AppleMatchLayout(text)
  {
  }

  /** `A` and `p` take the text to 2, where `[^xy]` meets the second `p`. */
  lemma AppleFront(text: string, x: char, y: char)
    requires AppleMatchLayout(text)
    ensures Thread(AppleTree(x, y).nodes, Start(13), text) == Thread(AppleTree(x, y).nodes[2..], {2}, text)
  {
    var ns := AppleTree(x, y).nodes;
    ClassStepSpec(Literal('A'), Start(13), text);
    assert 0 in Start(13);
    assert Matches(Literal('A'), Start(13), text).value.positions == {1};
    ThreadOn(ns, Start(13), text);
    LiteralFromOne('p', 1, text);
    ThreadOn(ns[1..], {1}, text);
  }

  /** A negated class from a single position moves it on exactly when the
      character there is none of the class's letters. */
  lemma AppleClassFromOne(x: char, y: char, p: nat, text: string)
    requires p < |text|
    ensures var r := Matches(AppleClass(x, y), {p}, text);
      && r.Ok?
      && (r.value.matched <==> text[p] != x && text[p] != y)
      && r.value.positions == if r.value.matched then {p + 1} else {}
  {
    var node := AppleClass(x, y);
    var r := Matches(node, {p}, text);
    ClassStepSpec(node, {p}, text);
    NotClassMembers(node.nodes, text[p]);
    assert node.nodes[0].c == x && node.nodes[1].c == y;
    assert forall q :: q in r.value.positions ==> q == p + 1;
    if text[p] != x && text[p] != y {
      assert p + 1 in r.value.positions;
      assert r.value.positions == {p + 1};
    } else {
      assert p + 1 !in r.value.positions;
      assert r.value.positions == {};
    }
  }

  /** The class excludes the `p` at 2: the match fails there. */
  lemma AppleNoMatch(text: string, x: char, y: char)
    requires AppleMatchLayout(text) && (x == 'p' || y == 'p')
    ensures Matches(AppleTree(x, y), Start(|text|), text).Ok?
    ensures !Matches(AppleTree(x, y), Start(|text|), text).value.matched
  {
    assert Live(Start(13), 13) == Start(13);
    GroupThreads(AppleTree(x, y).nodes, 0, Start(13), text);
    AppleFront(text, x, y);
    AppleClassFromOne(x, y, 2, text);
  }

  /** The class admits the `p` at 2, and `le` follows: the match succeeds. */
  lemma AppleMatch(text: string, x: char, y: char)
    requires AppleMatchLayout(text) && x != 'p' && y != 'p'
    ensures Matches(AppleTree(x, y), Start(|text|), text).Ok?
    ensures Matches(AppleTree(x, y), Start(|text|), text).value.matched
  {
    assert Live(Start(13), 13) == Start(13);
    GroupThreads(AppleTree(x, y).nodes, 0, Start(13), text);
    AppleFront(text, x, y);
    AppleClassFromOne(x, y, 2, text);
    AppleRest(text, x, y);
  }

  lemma AppleRest(text: string, x: char, y: char)
    requires AppleMatchLayout(text) && Accepts(AppleClass(x, y), {2}, text)
    requires Matches(AppleClass(x, y), {2}, text).value.positions == {3}
    ensures Thread(AppleTree(x, y).nodes[2..], {2}, text) == Ok(Outcome(true, {5}))
  {
    var ns := AppleTree(x, y).nodes[2..];
    assert ns == [AppleClass(x, y), Literal('l'), Literal('e')];
    ThreadOn(ns, {2}, text);
    LiteralFromOne('l', 3, text);
    ThreadOn(ns[1..], {3}, text);
    LiteralFromOne('e', 4, text);
    ThreadOn(ns[1..][1..], {4}, text);
    assert ns[1..][1..][1..] == [];
  }

  /** `Ap[^pb]le` on `Apple is good`: false, as the test table says. */
  lemma AppleVerdictFalse(pattern: string, text: string)
    requires pattern == AppleText('p', 'b') && text == AppleYes
    ensures Search(pattern, text).Ok? && !Search(pattern, text).value
  {
    AppleParse(pattern, 'p', 'b');
    AppleMatchLayoutHolds(text);
    AppleNoMatch(text, 'p', 'b');
  }

  /** `Ap[^ab]le` on `Apple is good`: true, as the test table says. */
  lemma AppleVerdictTrue(pattern: string, text: string)
    requires pattern == AppleText('a', 'b') && text == AppleYes
    ensures Search(pattern, text).Ok? && Search(pattern, text).value
  {
    AppleParse(pattern, 'a', 'b');
    AppleMatchLayoutHolds(text);
    AppleMatch(text, 'a', 'b');
  }

  // ---------------------------------------------------------------------------
  // a.*b

  const StarText: string := "a.*b"

  const StarTree: Node := Group([Literal('a'), Quantifier(Wildcard, 0, None), Literal('b')], 0)

  lemma StarLexes(chars: string)
    requires chars == StarText
    ensures OneCharRun(chars, 0, |chars|)
    ensures TokensAt(chars, 0, |chars|) == [Lex.Literal('a'), Lex.Wildcard, Lex.Quantifier(0, None), Lex.Literal('b')]
  {
    StarTokens(chars);
  }

  lemma StarTokens(chars: string)
    requires |chars| == 4 && chars[0] == 'a' && chars[1] == '.' && chars[2] == '*' && chars[3] == 'b'
    ensures OneCharRun(chars, 0, |chars|)
    ensures TokensAt(chars, 0, |chars|) == [Lex.Literal('a'), Lex.Wildcard, Lex.Quantifier(0, None), Lex.Literal('b')]
  {
    var toks := TokensAt(chars, 0, 4);
    assert toks[0] == TokenAt(chars, 0) && toks[1] == TokenAt(chars, 1);
    assert toks[2] == TokenAt(chars, 2) && toks[3] == TokenAt(chars, 3);
  }

  lemma StarPushes(toks: seq<Lex.Token>)
    requires toks == [Lex.Literal('a'), Lex.Wildcard, Lex.Quantifier(0, None), Lex.Literal('b')]
    ensures Pushes(toks, []).Ok? && Pushes(toks, []).value == StarTree.nodes
  {
    var e: seq<Node> := [];
    var r := Pushes([Lex.Literal('a'), Lex.Wildcard, Lex.Quantifier(0, None), Lex.Literal('b')], e);
    assert r.Ok? && r.value == [Literal('a'), Quantifier(Wildcard, 0, None), Literal('b')];
  }

  /** `a.*b` parses to `a`, `.*` and `b`. */
  lemma StarParse(chars: string)
    requires chars == StarText
    ensures Compile(chars) == Ok(StarTree)
  {
    StarLexes(chars);
    StarPushes(TokensAt(chars, 0, |chars|));
    PushPattern(chars);
  }

  /** The text of the table for `a.*b`: its only `a` is at 0 and its only
      `b` at 27, one before its last character. */
  const StarYes: string := "assgshgsoghsfohgsfoghsfghsgbe"

  predicate StarYesLayout(text: string) {
    && |text| == 29
    && (forall q :: 0 <= q < 29 ==> (text[q] == 'a' <==> q == 0))
    && (forall q :: 0 <= q < 29 ==> (text[q] == 'b' <==> q == 27))
  }

  lemma StarYesLayoutHolds(text: string)
    requires text == StarYes
    ensures StarYesLayout(text)
  {
  }

  /** `a` from every position: only position 0 holds an `a`. */
  lemma StarA(text: string)
    requires StarYesLayout(text)
    ensures Matches(Literal('a'), Start(|text|), text) == Ok(Outcome(true, {1}))
  {
    OnlyOneHolds('a', Start(|text|), 0, text);
    LiteralFromOne('a', 0, text);
  }

  /** `.*` from 1 reaches every position up to the end of the text. */
  lemma StarDots(text: string)
    requires 1 < |text|
    ensures Matches(Quantifier(Wildcard, 0, None), {1}, text) == Ok(Outcome(true, Span(1, |text| + 1)))
  {
    WildcardStar(1, text);
    var m := Matches(Quantifier(Wildcard, 0, None), {1}, text);
    assert m.value.positions == Span(1, |text| + 1);
  }

  /** `b` from every position from 1 on: only position 27 holds a `b`. */
  lemma StarB(text: string)
    requires StarYesLayout(text)
    ensures Matches(Literal('b'), Span(1, |text| + 1), text) == Ok(Outcome(true, {28}))
  {
    var n := |text|;
    FilterFirst(Literal('b'), Span(1, n + 1), text);
    assert Live(Span(1, n + 1), n) == Span(1, n);
    OnlyOneHolds('b', Span(1, n), 27, text);
    LiteralFromOne('b', 27, text);
  }

  /** `a.*b` matches the text, ending just after its `b`. */
  lemma StarMatch(text: string)
    requires StarYesLayout(text)
    ensures Matches(StarTree, Start(|text|), text) == Ok(Outcome(true, {28}))
  {
    var ns, n := StarTree.nodes, |text|;
    assert Live(Start(n), n) == Start(n);
    GroupThreads(ns, 0, Start(n), text);
    StarA(text);
    ThreadOn(ns, Start(n), text);
    StarDots(text);
    ThreadOn(ns[1..], {1}, text);
    StarB(text);
    ThreadOn(ns[2..], Span(1, n + 1), text);
    assert ns[2..][1..] == [];
  }

  /** `a.*b` on `assgshgsoghsfohgsfoghsfghsgbe`: true, as the test table
      says. */
  lemma StarVerdictTrue(pattern: string, text: string)
    requires pattern == StarText && text == StarYes
    ensures Search(pattern, text).Ok? && Search(pattern, text).value
  {
    StarParse(pattern);
    StarYesLayoutHolds(text);
    StarMatch(text);
  }

  // ---------------------------------------------------------------------------
  // ^aa

  const AnchoredText: string := "^aa"

  const AnchoredTree: Node := Group([StartAnchor, Literal('a'), Literal('a')], 0)

  /** `^aa` is made of atoms only: the anchor and two literals. */
  lemma AnchoredAtoms(chars: string)
    requires chars == AnchoredText
    ensures forall j :: 0 <= j < |chars| ==> IsAtom(chars[j])
    ensures AtomNodes(chars) == AnchoredTree.nodes
  {
    var nodes := AtomNodes(chars);
    assert nodes[0] == AtomNode('^') && nodes[1] == AtomNode('a') && nodes[2] == AtomNode('a');
  }

  lemma AnchoredParseFromAtoms(chars: string)
    requires forall j :: 0 <= j < |chars| ==> IsAtom(chars[j])
    requires AtomNodes(chars) == AnchoredTree.nodes
    ensures Compile(chars) == Ok(AnchoredTree)
  {
    AtomPattern(chars);
  }

  /** `^aa` parses to the anchor followed by two `a`s. */
  lemma AnchoredParse(chars: string)
    requires chars == AnchoredText
    ensures Compile(chars) == Ok(AnchoredTree)
  {
    AnchoredAtoms(chars);
    AnchoredParseFromAtoms(chars);
  }

  /** `^aa` on `baa`: false, as the test table says. The anchor keeps only
      position 0, where the text holds a `b`. */
  lemma AnchoredVerdictFalse(pattern: string, text: string)
    requires pattern == AnchoredText && text == "baa"
    ensures Search(pattern, text).Ok? && !Search(pattern, text).value
  {
    AnchoredParse(pattern);
    AnchoredNoMatch(text);
  }

  /** `^aa` does not match a text of length three that starts with `b`. */
  lemma AnchoredNoMatch(text: string)
    requires |text| == 3 && text[0] == 'b'
    ensures Matches(AnchoredTree, Start(|text|), text).Ok?
    ensures !Matches(AnchoredTree, Start(|text|), text).value.matched
  {
    assert Live(Start(3), 3) == Start(3);
    GroupThreads(AnchoredTree.nodes, 0, Start(3), text);
    StartAnchorStep(Start(3), text);
    assert 0 in Start(3);
    ThreadOn(AnchoredTree.nodes, Start(3), text);
    LiteralFromOne('a', 0, text);
  }

  // ---------------------------------------------------------------------------
  // ^(aa|bb)(ef)

  const GroupsText: string := "^(aa|bb)(ef)"

  const GroupsAlternatives: Node :=
    Or([Group([Literal('a'), Literal('a')], 1), Group([Literal('b'), Literal('b')], 1)])

  /** The group `(aa|bb)` is closed by the `)` at 7 while the right side of
      `|` is being parsed; the `(ef)` after it is therefore parsed into the
      same group as the `Or`, and `Eof` closes that group under number 0. */
  const GroupsInner: Node := Group([GroupsAlternatives, Group([Literal('e'), Literal('f')], 2)], 0)

  const GroupsTree: Node := Group([StartAnchor, GroupsInner], 0)

  /** How `^(aa|bb)(ef)` lexes: one token per character. */
  predicate GroupsTokens(chars: string) {
    && OneCharTokenAt(chars, 0) && OneCharTokenAt(chars, 1) && OneCharTokenAt(chars, 3) && OneCharTokenAt(chars, 6)
    && OneCharTokenAt(chars, 9) && OneCharTokenAt(chars, 10) && OneCharTokenAt(chars, 13) && OneCharTokenAt(chars, 14)
    && TokenAt(chars, 0) == Lex.StartAnchor && TokenAt(chars, 1) == Lex.LParen
    && TokenAt(chars, 2) == Lex.Literal('a') && TokenAt(chars, 3) == Lex.Literal('a')
    && TokenAt(chars, 4) == Lex.Pipe
    && TokenAt(chars, 5) == Lex.Literal('b') && TokenAt(chars, 6) == Lex.Literal('b')
    && TokenAt(chars, 7) == Lex.RParen && TokenAt(chars, 8) == Lex.LParen
    && TokenAt(chars, 9) == Lex.Literal('e') && TokenAt(chars, 10) == Lex.Literal('f')
    && TokenAt(chars, 11) == Lex.RParen
    && TokenAt(chars, 12) == Lex.Eof && TokenAt(chars, 13) == Lex.Eof && TokenAt(chars, 14) == Lex.Eof
  }

  /** The runs `^`, `aa`, `bb` and `ef` between the brackets and the bar. */
  predicate GroupsRuns(chars: string) {
    && OneCharRun(chars, 0, 1) && OneCharRun(chars, 2, 4) && OneCharRun(chars, 5, 7) && OneCharRun(chars, 9, 11)
  }

  /** The same runs as token lists. */
  predicate GroupsRunTokens(chars: string) {
    && TokensAt(chars, 0, 1) == [Lex.StartAnchor]
    && TokensAt(chars, 2, 4) == [Lex.Literal('a'), Lex.Literal('a')]
    && TokensAt(chars, 5, 7) == [Lex.Literal('b'), Lex.Literal('b')]
    && TokensAt(chars, 9, 11) == [Lex.Literal('e'), Lex.Literal('f')]
  }

  /** What each run pushes. */
  predicate GroupsPushed(chars: string) {
    && Pushes(TokensAt(chars, 0, 1), []).Ok? && Pushes(TokensAt(chars, 0, 1), []).value == [StartAnchor]
    && Pushes(TokensAt(chars, 2, 4), []).Ok? && Pushes(TokensAt(chars, 2, 4), []).value == [Literal('a'), Literal('a')]
    && Pushes(TokensAt(chars, 5, 7), []).Ok? && Pushes(TokensAt(chars, 5, 7), []).value == [Literal('b'), Literal('b')]
    && Pushes(TokensAt(chars, 9, 11), []).Ok? && Pushes(TokensAt(chars, 9, 11), []).value == [Literal('e'), Literal('f')]
  }

  lemma GroupsLexesTokens(chars: string)
    requires chars == GroupsText
    ensures GroupsTokens(chars)
  {
  }

  lemma GroupsLexesRuns(chars: string)
    requires chars == GroupsText
    ensures GroupsRuns(chars)
  {
  }

  lemma GroupsLexesRunTokens(chars: string)
    requires GroupsTokens(chars)
    ensures GroupsRunTokens(chars)
  {
    assert TokensAt(chars, 0, 1)[0] == TokenAt(chars, 0);
    assert TokensAt(chars, 2, 4)[0] == TokenAt(chars, 2) && TokensAt(chars, 2, 4)[1] == TokenAt(chars, 3);
    assert TokensAt(chars, 5, 7)[0] == TokenAt(chars, 5) && TokensAt(chars, 5, 7)[1] == TokenAt(chars, 6);
    assert TokensAt(chars, 9, 11)[0] == TokenAt(chars, 9) && TokensAt(chars, 9, 11)[1] == TokenAt(chars, 10);
  }

  lemma GroupsPushes(chars: string)
    requires GroupsRunTokens(chars)
    ensures GroupsPushed(chars)
  {
    var e: seq<Node> := [];
    var r0 := Pushes([Lex.StartAnchor], e);
    assert r0.Ok? && r0.value == [StartAnchor];
    var r1 := Pushes([Lex.Literal('a'), Lex.Literal('a')], e);
    assert r1.Ok? && r1.value == [Literal('a'), Literal('a')];
    var r2 := Pushes([Lex.Literal('b'), Lex.Literal('b')], e);
    assert r2.Ok? && r2.value == [Literal('b'), Literal('b')];
    var r3 := Pushes([Lex.Literal('e'), Lex.Literal('f')], e);
    assert r3.Ok? && r3.value == [Literal('e'), Literal('f')];
  }

  /** `^` is pushed; `(` is next. */
  lemma GroupsAnchor(chars: string)
    requires OneCharRun(chars, 0, 1)
    requires Pushes(TokensAt(chars, 0, 1), []).Ok? && Pushes(TokensAt(chars, 0, 1), []).value == [StartAnchor]
    requires TokenAt(chars, 1) == Lex.LParen && TokenAt(chars, 2) == Lex.Literal('a')
    ensures Loop(Parser(Lex.Lexer(chars, 2), TokenAt(chars, 0), TokenAt(chars, 1), 0), 0, []) ==
            Loop(Parser(Lex.Lexer(chars, 3), Lex.LParen, Lex.Literal('a'), 0), 0, [StartAnchor])
  {
    RunStep(chars, 0, 1, 2, 1, 2, 3, 0, 0, []);
  }

  /** `aa` is pushed inside the first group; `|` is next. */
  lemma GroupsLeft(chars: string)
    requires OneCharRun(chars, 2, 4)
    requires Pushes(TokensAt(chars, 2, 4), []).Ok? && Pushes(TokensAt(chars, 2, 4), []).value == [Literal('a'), Literal('a')]
    requires TokenAt(chars, 2) == Lex.Literal('a') && TokenAt(chars, 3) == Lex.Literal('a')
    requires TokenAt(chars, 4) == Lex.Pipe && TokenAt(chars, 5) == Lex.Literal('b')
    ensures Loop(Parser(Lex.Lexer(chars, 4), Lex.Literal('a'), Lex.Literal('a'), 1), 1, []) ==
            Loop(Parser(Lex.Lexer(chars, 6), Lex.Pipe, Lex.Literal('b'), 1), 1, [Literal('a'), Literal('a')])
  {
    RunStep(chars, 2, 3, 4, 4, 5, 6, 1, 1, []);
  }

  /** The right side of `|`: `bb`, up to the `)` at 7. */
  lemma GroupsRight(chars: string)
    requires OneCharRun(chars, 5, 7)
    requires Pushes(TokensAt(chars, 5, 7), []).Ok? && Pushes(TokensAt(chars, 5, 7), []).value == [Literal('b'), Literal('b')]
    requires TokenAt(chars, 5) == Lex.Literal('b') && TokenAt(chars, 6) == Lex.Literal('b')
    requires TokenAt(chars, 7) == Lex.RParen && TokenAt(chars, 8) == Lex.LParen
    ensures Loop(Parser(Lex.Lexer(chars, 7), Lex.Literal('b'), Lex.Literal('b'), 1), 1, []) ==
            Ok((Group([Literal('b'), Literal('b')], 1), Parser(Lex.Lexer(chars, 9), Lex.RParen, Lex.LParen, 1)))
  {
    RunStep(chars, 5, 6, 7, 7, 8, 9, 1, 1, []);
    LoopEnds(Parser(Lex.Lexer(chars, 9), Lex.RParen, Lex.LParen, 1), 1, [Literal('b'), Literal('b')]);
  }

  /** `|` makes the `Or` of `aa` and `bb`; the `)` that ended `bb` is
      skipped and the `(` at 8 is next, still inside the first group. */
  lemma GroupsPipe(chars: string)
    requires OneCharTokenAt(chars, 6) && TokenAt(chars, 6) == Lex.Literal('b')
    requires OneCharTokenAt(chars, 9) && TokenAt(chars, 9) == Lex.Literal('e')
    requires Loop(Parser(Lex.Lexer(chars, 7), Lex.Literal('b'), Lex.Literal('b'), 1), 1, []) ==
             Ok((Group([Literal('b'), Literal('b')], 1), Parser(Lex.Lexer(chars, 9), Lex.RParen, Lex.LParen, 1)))
    ensures Loop(Parser(Lex.Lexer(chars, 6), Lex.Pipe, Lex.Literal('b'), 1), 1, [Literal('a'), Literal('a')]) ==
            Loop(Parser(Lex.Lexer(chars, 10), Lex.LParen, Lex.Literal('e'), 1), 1, [GroupsAlternatives])
  {
    var p := Parser(Lex.Lexer(chars, 6), Lex.Pipe, Lex.Literal('b'), 1);
    AdvanceStep(p, chars, 6, 7);
    TokenStep(chars, 9, 10);
    LoopPipe(p, 1, [Literal('a'), Literal('a')], Parser(Lex.Lexer(chars, 7), Lex.Literal('b'), Lex.Literal('b'), 1),
             Group([Literal('b'), Literal('b')], 1), Parser(Lex.Lexer(chars, 9), Lex.RParen, Lex.LParen, 1),
             Lex.Literal('e'), Lex.Lexer(chars, 10));
  }

  /** `(ef)` is group 2. */
  lemma GroupsSecond(chars: string)
    requires OneCharRun(chars, 9, 11)
    requires Pushes(TokensAt(chars, 9, 11), []).Ok? && Pushes(TokensAt(chars, 9, 11), []).value == [Literal('e'), Literal('f')]
    requires TokenAt(chars, 9) == Lex.Literal('e') && TokenAt(chars, 10) == Lex.Literal('f')
    requires TokenAt(chars, 11) == Lex.RParen && TokenAt(chars, 12) == Lex.Eof
    ensures Loop(Parser(Lex.Lexer(chars, 11), Lex.Literal('e'), Lex.Literal('f'), 2), 2, []) ==
            Ok((Group([Literal('e'), Literal('f')], 2), Parser(Lex.Lexer(chars, 13), Lex.RParen, Lex.Eof, 2)))
  {
    RunStep(chars, 9, 10, 11, 11, 12, 13, 2, 2, []);
    LoopEnds(Parser(Lex.Lexer(chars, 13), Lex.RParen, Lex.Eof, 2), 2, [Literal('e'), Literal('f')]);
  }

  /** After the `Or`, `(ef)` is pushed into the first group. */
  lemma GroupsRest(chars: string)
    requires OneCharTokenAt(chars, 10) && TokenAt(chars, 10) == Lex.Literal('f')
    requires OneCharTokenAt(chars, 13) && TokenAt(chars, 13) == Lex.Eof
    requires Loop(Parser(Lex.Lexer(chars, 11), Lex.Literal('e'), Lex.Literal('f'), 2), 2, []) ==
             Ok((Group([Literal('e'), Literal('f')], 2), Parser(Lex.Lexer(chars, 13), Lex.RParen, Lex.Eof, 2)))
    ensures Loop(Parser(Lex.Lexer(chars, 10), Lex.LParen, Lex.Literal('e'), 1), 1, [GroupsAlternatives]) ==
            Loop(Parser(Lex.Lexer(chars, 14), Lex.Eof, Lex.Eof, 2), 1,
                 [GroupsAlternatives] + [Group([Literal('e'), Literal('f')], 2)])
  {
    var p := Parser(Lex.Lexer(chars, 10), Lex.LParen, Lex.Literal('e'), 1);
    AdvanceStep(p.(groupRef := 2), chars, 10, 11);
    TokenStep(chars, 13, 14);
    LoopGroup(p, 1, [GroupsAlternatives], 2, Parser(Lex.Lexer(chars, 11), Lex.Literal('e'), Lex.Literal('f'), 2),
              Group([Literal('e'), Literal('f')], 2), Parser(Lex.Lexer(chars, 13), Lex.RParen, Lex.Eof, 2),
              Lex.Eof, Lex.Lexer(chars, 14));
  }

  /** `Eof` ends the first group under number 0. */
  lemma GroupsInnerEnds(chars: string, nodes: seq<Node>)
    requires nodes == [GroupsAlternatives] + [Group([Literal('e'), Literal('f')], 2)]
    ensures Loop(Parser(Lex.Lexer(chars, 14), Lex.Eof, Lex.Eof, 2), 1, nodes) ==
            Ok((GroupsInner, Parser(Lex.Lexer(chars, 14), Lex.Eof, Lex.Eof, 2)))
  {
    assert nodes == GroupsInner.nodes;
    LoopEnds(Parser(Lex.Lexer(chars, 14), Lex.Eof, Lex.Eof, 2), 1, GroupsInner.nodes);
  }

  /** The group opened at 1 runs to the end. */
  lemma GroupsOuter(chars: string)
    requires OneCharTokenAt(chars, 3) && TokenAt(chars, 3) == Lex.Literal('a')
    requires OneCharTokenAt(chars, 14) && TokenAt(chars, 14) == Lex.Eof
    requires Loop(Parser(Lex.Lexer(chars, 4), Lex.Literal('a'), Lex.Literal('a'), 1), 1, []) ==
             Ok((GroupsInner, Parser(Lex.Lexer(chars, 14), Lex.Eof, Lex.Eof, 2)))
    ensures Loop(Parser(Lex.Lexer(chars, 3), Lex.LParen, Lex.Literal('a'), 0), 0, [StartAnchor]) ==
            Loop(Parser(Lex.Lexer(chars, 15), Lex.Eof, Lex.Eof, 2), 0, [StartAnchor] + [GroupsInner])
  {
    var p := Parser(Lex.Lexer(chars, 3), Lex.LParen, Lex.Literal('a'), 0);
    AdvanceStep(p.(groupRef := 1), chars, 3, 4);
    TokenStep(chars, 14, 15);
    LoopGroup(p, 0, [StartAnchor], 1, Parser(Lex.Lexer(chars, 4), Lex.Literal('a'), Lex.Literal('a'), 1), GroupsInner,
              Parser(Lex.Lexer(chars, 14), Lex.Eof, Lex.Eof, 2), Lex.Eof, Lex.Lexer(chars, 15));
  }

  /** `Eof` ends the outer group under number 0. */
  lemma GroupsOuterEnds(chars: string, nodes: seq<Node>)
    requires nodes == [StartAnchor] + [GroupsInner]
    ensures Loop(Parser(Lex.Lexer(chars, 15), Lex.Eof, Lex.Eof, 2), 0, nodes) ==
            Ok((GroupsTree, Parser(Lex.Lexer(chars, 15), Lex.Eof, Lex.Eof, 2)))
  {
    assert nodes == GroupsTree.nodes;
    LoopEnds(Parser(Lex.Lexer(chars, 15), Lex.Eof, Lex.Eof, 2), 0, GroupsTree.nodes);
  }

  lemma GroupsParseFromLayout(chars: string)
    requires GroupsTokens(chars) && GroupsRuns(chars) && GroupsPushed(chars)
    ensures Compile(chars) == Ok(GroupsTree)
  {
    NewOnOneCharTokens(chars);
    GroupsAnchor(chars);
    GroupsLeft(chars);
    GroupsRight(chars);
    GroupsPipe(chars);
    GroupsSecond(chars);
    GroupsRest(chars);
    GroupsInnerEnds(chars, [GroupsAlternatives] + [Group([Literal('e'), Literal('f')], 2)]);
    GroupsOuter(chars);
    GroupsOuterEnds(chars, [StartAnchor] + [GroupsInner]);
    CompileFrom(chars, Parser(Lex.Lexer(chars, 2), TokenAt(chars, 0), TokenAt(chars, 1), 0));
  }

  /** `^(aa|bb)(ef)` parses to the anchor followed by a group 0 holding the
      `Or` of groups 1 and then group 2. */
  lemma GroupsParse(chars: string)
    requires chars == GroupsText
    ensures Compile(chars) == Ok(GroupsTree)
  {
    GroupsLexesTokens(chars);
    GroupsLexesRuns(chars);
    GroupsLexesRunTokens(chars);
    GroupsPushes(chars);
    GroupsParseFromLayout(chars);
  }

  const GroupsYes: string := "bbefg"

  predicate GroupsYesLayout(text: string) {
    |text| == 5 && text[0] == 'b' && text[1] == 'b' && text[2] == 'e' && text[3] == 'f'
  }

  lemma GroupsYesLayoutHolds(text: string)
    requires text == GroupsYes
    ensures GroupsYesLayout(text)
  {
  }

  /** Two letters from a single position move it on by two when the text
      holds them there. */
  lemma PairMatches(c: char, d: char, groupRef: nat, p: nat, text: string)
    requires p + 1 < |text| && text[p] == c && text[p + 1] == d
    ensures Matches(Group([Literal(c), Literal(d)], groupRef), {p}, text) == Ok(Outcome(true, {p + 2}))
  {
    var ns := [Literal(c), Literal(d)];
    assert Live({p}, |text|) == {p};
    GroupThreads(ns, groupRef, {p}, text);
    LiteralFromOne(c, p, text);
    ThreadOn(ns, {p}, text);
    LiteralFromOne(d, p + 1, text);
    ThreadOn(ns[1..], {p + 1}, text);
    assert ns[1..][1..] == [];
  }

  /** From position 0 of `bbefg` only the `bb` alternative matches, and it
      reaches 2. */
  lemma GroupsOrTakesSecond(text: string)
    requires |text| == 5 && text[0] == 'b' && text[1] == 'b'
    ensures var r := Matches(GroupsInner.nodes[0], {0}, text);
      r.Ok? && r.value.matched && r.value.positions == {2}
  {
    var ns := [Group([Literal('a'), Literal('a')], 1), Group([Literal('b'), Literal('b')], 1)];
    assert GroupsInner.nodes[0] == Or(ns);
    GroupsPairFails('a', text);
    PairMatches('b', 'b', 1, 0, text);
    OrSpec(ns, {0}, text);
    OrReachesSecond(ns, text);
  }

  lemma OrReachesSecond(ns: seq<Node>, text: string)
    requires |ns| == 2 && Matches(ns[0], {0}, text).Ok? && !Accepts(ns[0], {0}, text)
    requires Matches(ns[1], {0}, text) == Ok(Outcome(true, {2}))
    requires var r := Matches(Or(ns), {0}, text);
      && (r.Err? <==> exists i :: 0 <= i < |ns| && Matches(ns[i], {0}, text).Err?)
      && (r.Ok? ==>
            && (r.value.matched <==> exists i :: 0 <= i < |ns| && Accepts(ns[i], {0}, text))
            && (forall q :: q in r.value.positions <==> exists i :: 0 <= i < |ns| && Reaches(ns[i], {0}, text, q)))
    ensures var r := Matches(Or(ns), {0}, text);
      r.Ok? && r.value.matched && r.value.positions == {2}
  {
    var r := Matches(Or(ns), {0}, text);
    assert Accepts(ns[1], {0}, text);
    forall q | q in r.value.positions ensures q == 2 {
      var i :| 0 <= i < |ns| && Reaches(ns[i], {0}, text, q);
      assert i == 1;
    }
    assert Reaches(ns[1], {0}, text, 2);
  }

  /** The anchor keeps position 0, `bb` takes it to 2 and `ef` to 4: the
      whole match succeeds. */
  lemma GroupsMatch(text: string)
    requires GroupsYesLayout(text)
    ensures Matches(GroupsTree, Start(|text|), text).Ok?
    ensures Matches(GroupsTree, Start(|text|), text).value.matched
  {
    assert Live(Start(5), 5) == Start(5);
    GroupThreads(GroupsTree.nodes, 0, Start(5), text);
    StartAnchorStep(Start(5), text);
    assert 0 in Start(5);
    ThreadOn(GroupsTree.nodes, Start(5), text);
    GroupsInnerMatches(text);
  }

  lemma GroupsInnerMatches(text: string)
    requires |text| == 5 && text[0] == 'b' && text[1] == 'b' && text[2] == 'e' && text[3] == 'f'
    ensures Matches(GroupsInner, {0}, text) == Ok(Outcome(true, {4}))
  {
    assert Live({0}, 5) == {0};
    GroupThreads(GroupsInner.nodes, 0, {0}, text);
    GroupsOrTakesSecond(text);
    ThreadOn(GroupsInner.nodes, {0}, text);
    PairMatches('e', 'f', 2, 2, text);
    assert GroupsInner.nodes[1..][0] == Group([Literal('e'), Literal('f')], 2);
    ThreadOn(GroupsInner.nodes[1..], {2}, text);
    assert GroupsInner.nodes[1..][1..] == [];
  }

  /** `^(aa|bb)(ef)` on `bbefg`: true, as the test table says. */
  lemma GroupsVerdictTrue(pattern: string, text: string)
    requires pattern == GroupsText && text == GroupsYes
    ensures Search(pattern, text).Ok? && Search(pattern, text).value
  {
    GroupsParse(pattern);
    GroupsYesLayoutHolds(text);
    GroupsMatch(text);
  }

  const GroupsNo: string := " bbefg"

  /** A doubled letter from position 0 fails when the text does not start
      with that letter. */
  lemma GroupsPairFails(c: char, text: string)
    requires 0 < |text| && text[0] != c
    ensures Matches(Group([Literal(c), Literal(c)], 1), {0}, text).Ok?
    ensures !Accepts(Group([Literal(c), Literal(c)], 1), {0}, text)
  {
    assert Live({0}, |text|) == {0};
    GroupThreads([Literal(c), Literal(c)], 1, {0}, text);
    LiteralFromOne(c, 0, text);
  }

  /** Neither `aa` nor `bb` matches at 0, so the `Or` fails. */
  lemma GroupsOrFails(text: string)
    requires 0 < |text| && text[0] == ' '
    ensures Matches(GroupsInner.nodes[0], {0}, text).Ok?
    ensures !Matches(GroupsInner.nodes[0], {0}, text).value.matched
  {
    var ns := [Group([Literal('a'), Literal('a')], 1), Group([Literal('b'), Literal('b')], 1)];
    assert GroupsInner.nodes[0] == Or(ns);
    GroupsPairFails('a', text);
    GroupsPairFails('b', text);
    OrSpec(ns, {0}, text);
    assert forall i :: 0 <= i < |ns| ==> !Accepts(ns[i], {0}, text) && Matches(ns[i], {0}, text).Ok?;
  }

  /** The anchor keeps position 0 only, where the text holds a space: the
      whole match fails. */
  lemma GroupsNoMatch(text: string)
    requires |text| == 6 && text[0] == ' '
    ensures Matches(GroupsTree, Start(|text|), text).Ok?
    ensures !Matches(GroupsTree, Start(|text|), text).value.matched
  {
    assert Live(Start(6), 6) == Start(6);
    GroupThreads(GroupsTree.nodes, 0, Start(6), text);
    StartAnchorStep(Start(6), text);
    assert 0 in Start(6);
    ThreadOn(GroupsTree.nodes, Start(6), text);
    assert Live({0}, 6) == {0};
    GroupThreads(GroupsInner.nodes, 0, {0}, text);
    GroupsOrFails(text);
  }

  /** `^(aa|bb)(ef)` on ` bbefg`: false, as the test table says. */
  lemma GroupsVerdictFalse(pattern: string, text: string)
    requires pattern == GroupsText && text == GroupsNo
    ensures Search(pattern, text).Ok? && !Search(pattern, text).value
  {
    GroupsParse(pattern);
    GroupsNoMatch(text);
  }
}
