/** The recursive-descent parser of src/regex_parser.rs. It pulls tokens from
    the lexer lazily through a two-token window and builds a `Node` tree. */
module RegexParser {
  import opened Wrappers
  import Lex = RegexLexer

  /** `Node`. A bracket expression is an `Or` (or, negated, a `Not`) of
      `Literal`s; an alternation is an `Or` of two alternatives; `End` is the
      wrapper the parser puts around the node before a `$`. */
  datatype Node =
    | Or(nodes: seq<Node>)
    | Not(nodes: seq<Node>)
    | Literal(c: char)
    | StartAnchor
    | Digit
    | Alphanum
    | Wildcard
    | Group(nodes: seq<Node>, groupRef: nat)
    | Quantifier(node: Node, min: nat, max: Option<nat>)
    | End(node: Node)

  /** Every way the parser can fail. The source returns the lexer's errors and
      "Misplaced quantifier" as errors and panics in the other cases. */
  datatype ParseError =
    | LexFailure(error: Lex.LexError)
    | MisplacedQuantifier                  // a quantifier with nothing before it
    | MisplacedEndAnchor                   // `$` with nothing before it (`unwrap` on `None`)
    | UnsupportedInBracket(token: Lex.Token) // a token other than a literal or `]` inside `[...]`
    | UnsupportedToken(token: Lex.Token)   // `]` outside brackets, or a back-reference

  /** `RegexParser`: the lexer, the current and the next token, and the
      counter of opened capture groups. */
  datatype Parser = Parser(lexer: Lex.Lexer, cur: Lex.Token, peek: Lex.Token, groupRef: nat)

  /** A bound on the work left: the non-`Eof` tokens in the window plus the
      characters the lexer has not read yet. */
  function Measure(p: Parser): nat {
    (if p.cur != Lex.Eof then 1 else 0) + (if p.peek != Lex.Eof then 1 else 0) + p.lexer.Remaining()
  }

  /** `next_token`: shift the window by one token. It never increases the
      measure, and decreases it while the current token is not `Eof`. */
  function Advance(p: Parser): (r: Result<Parser, ParseError>)
    ensures r.Ok? ==> && r.value.cur == p.peek && r.value.groupRef == p.groupRef
                      && r.value.lexer.chars == p.lexer.chars
                      && Measure(r.value) + (if p.cur != Lex.Eof then 1 else 0) <= Measure(p)
  {
    match Lex.NextToken(p.lexer)
    case Err(e) => Err(LexFailure(e))
    case Ok((tok, lx)) => Ok(p.(lexer := lx, cur := p.peek, peek := tok))
  }

  /** A lexical error surfaces unchanged, as the `?` after `next_token`
      does; otherwise the window takes in the lexer's next token. */
  lemma AdvanceErrors(p: Parser)
    ensures Advance(p).Err? <==> Lex.NextToken(p.lexer).Err?
    ensures Advance(p).Err? ==> Advance(p).error == LexFailure(Lex.NextToken(p.lexer).error)
    ensures Advance(p).Ok? ==> Advance(p).value.peek == Lex.NextToken(p.lexer).value.0
                               && Advance(p).value.lexer == Lex.NextToken(p.lexer).value.1
  {
  }

  /** `RegexParser::new`: prime the window with the lexer's first two tokens;
      a lexical error in either is returned. */
  function New(lexer: Lex.Lexer): (r: Result<Parser, ParseError>)
    ensures r.Err? <==> Lex.NthToken(lexer, 1).Err?
    ensures r.Ok? ==>
      && r.value.cur == Lex.NthToken(lexer, 0).value.0
      && r.value.peek == Lex.NthToken(lexer, 1).value.0
      && r.value.lexer == Lex.NthToken(lexer, 1).value.1
      && r.value.groupRef == 0
  {
    var p1 :- Advance(Parser(lexer, Lex.Eof, Lex.Eof, 0));
    Advance(p1)
  }

  // ---------------------------------------------------------------------------
  // Bracket expressions

  predicate AllLiterals(nodes: seq<Node>) {
    forall i :: 0 <= i < |nodes| ==> nodes[i].Literal?
  }

  /** The class node a bracket expression builds from its literals. */
  function ClassNode(negated: bool, items: seq<Node>): Node {
    if negated then Not(items) else Or(items)
  }

  /** The loop of `build_bracket_group`: collect literal tokens up to `]`. The
      parser is left on the `]`. */
  function BracketItems(p: Parser, negated: bool, nodes: seq<Node>): (r: Result<(Node, Parser), ParseError>)
    requires AllLiterals(nodes)
    ensures r.Ok? ==> var (node, p') := r.value;
      && p'.cur == Lex.RBracket && p'.groupRef == p.groupRef && p'.lexer.chars == p.lexer.chars
      && Measure(p') <= Measure(p)
      && (if negated then node.Not? else node.Or?)
      && AllLiterals(node.nodes) && nodes <= node.nodes
    ensures !p.cur.Literal? && p.cur != Lex.RBracket ==> r == Err(UnsupportedInBracket(p.cur))
    ensures r.Err? ==> r.error.LexFailure? || (r.error.UnsupportedInBracket? && !r.error.token.Literal? && r.error.token != Lex.RBracket)
    decreases Measure(p)
  {
    match p.cur
    case Literal(x) =>
      var p' :- Advance(p);
      BracketItems(p', negated, nodes + [Literal(x)])
    case RBracket =>
      Ok((ClassNode(negated, nodes), p))
    case _ => Err(UnsupportedInBracket(p.cur))
  }

  /** `build_bracket_group`, entered on the token after `[`: a leading `^`
      negates the class. */
  function BuildBracketGroup(p: Parser): (r: Result<(Node, Parser), ParseError>)
    ensures r.Ok? ==> var (node, p') := r.value;
      && p'.cur == Lex.RBracket && p'.groupRef == p.groupRef && p'.lexer.chars == p.lexer.chars
      && Measure(p') <= Measure(p)
      && (node.Not? <==> p.cur == Lex.StartAnchor)
      && (node.Or? || node.Not?) && AllLiterals(node.nodes)
    ensures p.cur != Lex.StartAnchor && !p.cur.Literal? && p.cur != Lex.RBracket ==>
      r == Err(UnsupportedInBracket(p.cur))
    ensures p.cur == Lex.StartAnchor && Advance(p).Ok? && !p.peek.Literal? && p.peek != Lex.RBracket ==>
      r == Err(UnsupportedInBracket(p.peek))
    ensures r.Err? ==> r.error.LexFailure? || (r.error.UnsupportedInBracket? && !r.error.token.Literal? && r.error.token != Lex.RBracket)
  {
    if p.cur == Lex.StartAnchor then
      var p1 :- Advance(p);
      BracketItems(p1, true, [])
    else
      BracketItems(p, false, [])
  }

  // ---------------------------------------------------------------------------
  // build_ast

  /** What one pass of `build_ast`'s loop body leaves behind: either the call
      returns, or the loop goes on with new accumulated nodes (after the
      `next_token` at the end of the body). */
  datatype Step = Done(node: Node, parser: Parser) | Next(nodes: seq<Node>, parser: Parser)

  /** The tokens `build_ast` pushes a node of its own for, and that node. */
  function PushedNode(tok: Lex.Token): Option<Node> {
    match tok
    case Literal(c) => Some(Literal(c))
    case Digit => Some(Digit)
    case AlphaNum => Some(Alphanum)
    case Wildcard => Some(Wildcard)
    case StartAnchor => Some(StartAnchor)
    case _ => None
  }

  /** Replace the last accumulated node by `wrap` of it. */
  function WrapLast(nodes: seq<Node>, wrap: Node -> Node): (r: seq<Node>)
    requires nodes != []
    ensures |r| == |nodes| && r[..|r| - 1] == nodes[..|nodes| - 1] && r[|r| - 1] == wrap(nodes[|nodes| - 1])
  {
    nodes[..|nodes| - 1] + [wrap(nodes[|nodes| - 1])]
  }

  /** The arms of `build_ast` that only rewrite the accumulated nodes: the
      five one-node tokens append their node, `$` and a quantifier wrap the
      last node, and every token without an arm (`]`, a back-reference) is an
      error. Only the last accumulated node is ever touched. */
  function Accumulate(tok: Lex.Token, nodes: seq<Node>): (r: Result<seq<Node>, ParseError>)
    ensures r.Err? <==>
      || ((tok.EndAnchor? || tok.Quantifier?) && nodes == [])
      || tok.BackRef? || tok.RBracket? || tok.Pipe? || tok.LBracket? || tok.LParen?
      || tok.RParen? || tok.Eof?
    ensures r.Ok? ==> 0 < |r.value| && |nodes| <= |r.value| <= |nodes| + 1
    ensures r.Ok? ==> forall i :: 0 <= i < |r.value| - 1 ==> r.value[i] == nodes[i]
    ensures r.Ok? && (tok.Quantifier? || tok.EndAnchor?) ==>
      && |r.value| == |nodes|
      && r.value[|nodes| - 1] ==
           if tok.Quantifier? then Quantifier(nodes[|nodes| - 1], tok.min, tok.max) else End(nodes[|nodes| - 1])
    ensures r.Ok? && (tok.Quantifier? || tok.EndAnchor?) ==> r.value[..|nodes| - 1] == nodes[..|nodes| - 1]
    ensures r.Ok? && !tok.Quantifier? && !tok.EndAnchor? ==>
      |r.value| == |nodes| + 1 && r.value == nodes + [r.value[|nodes|]]
    ensures PushedNode(tok).Some? ==> r == Ok(nodes + [PushedNode(tok).value])
    ensures nodes == [] && (tok.Quantifier? || tok.EndAnchor?) ==>
      r == Err(if tok.Quantifier? then MisplacedQuantifier else MisplacedEndAnchor)
    ensures tok.BackRef? || tok.RBracket? ==> r == Err(UnsupportedToken(tok))
  {
    match tok
    case Literal(x) => Ok(nodes + [Literal(x)])
    case Digit => Ok(nodes + [Digit])
    case AlphaNum => Ok(nodes + [Alphanum])
    case Wildcard => Ok(nodes + [Wildcard])
    case StartAnchor => Ok(nodes + [StartAnchor])
    case EndAnchor =>
      if nodes == [] then Err(MisplacedEndAnchor)
      else Ok(WrapLast(nodes, n => End(n)))
    case Quantifier(min, max) =>
      if nodes == [] then Err(MisplacedQuantifier)
      else Ok(WrapLast(nodes, n => Quantifier(n, min, max)))
    case _ => Err(UnsupportedToken(tok))
  }

  /** The `|` arm: everything so far becomes the left alternative, the rest of
      the group (up to its `)` or `Eof`) the right one. */
  function PipeStep(p: Parser, groupRef: nat, nodes: seq<Node>): (r: Result<Step, ParseError>)
    requires p.cur == Lex.Pipe
    ensures r.Ok? ==> && r.value.Next? && |r.value.nodes| == 1 && r.value.nodes[0].Or?
                      && var alternatives := r.value.nodes[0].nodes;
                      && |alternatives| == 2 && alternatives[0] == Group(nodes, groupRef)
                      && alternatives[1].Group?
                      && (r.value.parser.cur == Lex.RParen || r.value.parser.cur == Lex.Eof)
                      && alternatives[1].groupRef == (if r.value.parser.cur == Lex.RParen then groupRef else 0)
                      && Measure(r.value.parser) < Measure(p)
                      && r.value.parser.lexer.chars == p.lexer.chars && r.value.parser.groupRef >= p.groupRef
    decreases Measure(p), 0
  {
    var p1 :- Advance(p);
    var (right, p2) :- Loop(p1, groupRef, []);
    Ok(Next([Or([Group(nodes, groupRef), right])], p2))
  }

  /** The `[` arm. */
  function BracketStep(p: Parser, nodes: seq<Node>): (r: Result<Step, ParseError>)
    requires p.cur == Lex.LBracket
    ensures r.Ok? ==> && r.value.Next? && |r.value.nodes| == |nodes| + 1 && nodes <= r.value.nodes
                      && Measure(r.value.parser) < Measure(p)
                      && r.value.parser.lexer.chars == p.lexer.chars && r.value.parser.groupRef == p.groupRef
  {
    var p1 :- Advance(p);
    var (node, p2) :- BuildBracketGroup(p1);
    Ok(Next(nodes + [node], p2))
  }

  /** The `(` arm: the counter is incremented first, and the group is parsed
      under the new count. */
  function GroupStep(p: Parser, nodes: seq<Node>): (r: Result<Step, ParseError>)
    requires p.cur == Lex.LParen
    ensures r.Ok? ==> && r.value.Next? && |r.value.nodes| == |nodes| + 1 && nodes <= r.value.nodes
                      && r.value.nodes[|nodes|].Group?
                      && (r.value.parser.cur == Lex.RParen || r.value.parser.cur == Lex.Eof)
                      && r.value.nodes[|nodes|].groupRef == (if r.value.parser.cur == Lex.RParen then p.groupRef + 1 else 0)
                      && Measure(r.value.parser) < Measure(p)
                      && r.value.parser.lexer.chars == p.lexer.chars && r.value.parser.groupRef > p.groupRef
    decreases Measure(p), 0
  {
    var p1 :- Advance(p.(groupRef := p.groupRef + 1));
    var (node, p2) :- Loop(p1, p1.groupRef, []);
    Ok(Next(nodes + [node], p2))
  }

  /** One pass of the loop body of `build_ast(group_ref)` on the current token. */
  function StepAst(p: Parser, groupRef: nat, nodes: seq<Node>): (r: Result<Step, ParseError>)
    ensures r.Ok? && r.value.Next? ==>
      Measure(r.value.parser) + (if r.value.parser.cur == Lex.Eof then 1 else 0) <= Measure(p)
    ensures r.Ok? ==> r.value.parser.lexer.chars == p.lexer.chars && r.value.parser.groupRef >= p.groupRef
    ensures r.Ok? && r.value.Done? ==> r.value.parser == p && (p.cur == Lex.RParen || p.cur == Lex.Eof)
    decreases Measure(p), 1
  {
    match p.cur
    case Pipe => PipeStep(p, groupRef, nodes)
    case LBracket => BracketStep(p, nodes)
    case LParen => GroupStep(p, nodes)
    case RParen => Ok(Done(Group(nodes, groupRef), p))
    case Eof => Ok(Done(Group(nodes, 0), p))
    case _ =>
      match Accumulate(p.cur, nodes)
      case Err(e) => Err(e)
      case Ok(nodes') => Ok(Next(nodes', p))
  }

  /** The loop of `build_ast(group_ref)` with `nodes` accumulated so far. It
      returns a `Group` on `)`, under the caller's `group_ref`, or at `Eof`,
      under 0; the parser is left on that token. */
  function Loop(p: Parser, groupRef: nat, nodes: seq<Node>): (r: Result<(Node, Parser), ParseError>)
    ensures r.Ok? ==> var (node, p') := r.value;
      && Measure(p') <= Measure(p)
      && p'.lexer.chars == p.lexer.chars && p'.groupRef >= p.groupRef
      && node.Group?
      && (p'.cur == Lex.RParen || p'.cur == Lex.Eof)
      && (p'.cur == Lex.RParen ==> node.groupRef == groupRef)
      && (p'.cur == Lex.Eof ==> node.groupRef == 0)
    decreases Measure(p), 2
  {
    var s :- StepAst(p, groupRef, nodes);
    match s
    case Done(node, p') => Ok((node, p'))
    case Next(nodes', p') =>
      var p'' :- Advance(p');
      Loop(p'', groupRef, nodes')
  }

  /** `build_ast(group_ref)`. */
  function BuildAst(p: Parser, groupRef: nat): (r: Result<(Node, Parser), ParseError>) {
    Loop(p, groupRef, [])
  }

  /** Lexing and parsing a whole pattern, as the callers of the parser do:
      `build_ast(0)` on a fresh parser. The result is always a group under 0. */
  function Compile(pattern: string): (r: Result<Node, ParseError>)
    ensures r.Ok? ==> r.value.Group? && r.value.groupRef == 0
  {
    var p :- New(Lex.New(pattern));
    var (node, _) :- BuildAst(p, 0);
    Ok(node)
  }

  // ---------------------------------------------------------------------------
  // Shape of the trees the parser builds

  /** The shapes `build_ast` can produce: `Not`, and an `Or` built from a
      bracket, hold only `Literal`s; an `Or` built from `|` holds exactly two
      alternatives, the first a `Group`. */
  predicate WellFormed(n: Node) {
    match n
    case Or(ns) =>
      AllLiterals(ns) || (|ns| == 2 && ns[0].Group? && WellFormed(ns[0]) && WellFormed(ns[1]))
    case Not(ns) => AllLiterals(ns)
    case Group(ns, _) => AllWellFormed(ns)
    case Quantifier(child, _, _) => WellFormed(child)
    case End(child) => WellFormed(child)
    case _ => true
  }

  predicate AllWellFormed(ns: seq<Node>) {
    forall i :: 0 <= i < |ns| ==> WellFormed(ns[i])
  }

  /** The capture-group numbers that occur in a tree. */
  function Refs(n: Node): set<nat> {
    match n
    case Group(ns, r) => {r} + RefsOf(ns)
    case Or(ns) => RefsOf(ns)
    case Not(ns) => RefsOf(ns)
    case Quantifier(child, _, _) => Refs(child)
    case End(child) => Refs(child)
    case _ => {}
  }

  function RefsOf(ns: seq<Node>): set<nat> {
    if ns == [] then {} else RefsOf(ns[..|ns| - 1]) + Refs(ns[|ns| - 1])
  }

  /** The group numbers a call may hand out: those above `lo` up to `hi`. */
  function Between(lo: nat, hi: nat): set<nat>
    decreases hi
  {
    if hi <= lo then {} else Between(lo, hi - 1) + {hi}
  }

  lemma {:induction false} BetweenMembers(lo: nat, hi: nat)
    ensures forall r :: r in Between(lo, hi) <==> lo < r <= hi
    decreases hi
  {
    if hi > lo {
      BetweenMembers(lo, hi - 1);
    }
  }

  lemma RefsOfAppend(ns: seq<Node>, n: Node)
    ensures RefsOf(ns + [n]) == RefsOf(ns) + Refs(n)
  {
    assert (ns + [n])[..|ns|] == ns;
  }

  lemma {:induction false} NoRefsInLiterals(ns: seq<Node>)
    requires AllLiterals(ns)
    ensures RefsOf(ns) == {}
  {
    if ns != [] {
      NoRefsInLiterals(ns[..|ns| - 1]);
    }
  }

  /** The rewriting arms keep the accumulated nodes well formed and bring in
      no group numbers. */
  lemma AccumulateShape(tok: Lex.Token, nodes: seq<Node>)
    requires AllWellFormed(nodes) && Accumulate(tok, nodes).Ok?
    ensures AllWellFormed(Accumulate(tok, nodes).value)
    ensures RefsOf(Accumulate(tok, nodes).value) == RefsOf(nodes)
  {
    var r := Accumulate(tok, nodes).value;
    if tok.Quantifier? || tok.EndAnchor? {
      WrapLastShape(nodes, r);
    } else {
      RefsOfAppend(nodes, r[|nodes|]);
    }
  }

  /** Wrapping the last node in a quantifier or an end anchor keeps the
      nodes well formed and their group numbers unchanged. */
  lemma WrapLastShape(nodes: seq<Node>, r: seq<Node>)
    requires nodes != [] && AllWellFormed(nodes)
    requires |r| == |nodes| && r[..|r| - 1] == nodes[..|nodes| - 1]
    requires (r[|r| - 1].Quantifier? || r[|r| - 1].End?) && r[|r| - 1].node == nodes[|nodes| - 1]
    ensures AllWellFormed(r) && RefsOf(r) == RefsOf(nodes)
  {
    assert forall i :: 0 <= i < |r| - 1 ==> r[i] == r[..|r| - 1][i];
  }

  /** The `|` arm builds a two-alternative `Or` whose numbers come from the
      current `group_ref`, 0 and the counter. */
  lemma {:induction false} PipeShape(p: Parser, groupRef: nat, nodes: seq<Node>)
    requires p.cur == Lex.Pipe
    requires AllWellFormed(nodes) && PipeStep(p, groupRef, nodes).Ok?
    ensures var s := PipeStep(p, groupRef, nodes).value;
      && AllWellFormed(s.nodes)
      && RefsOf(s.nodes) <= {0, groupRef} + RefsOf(nodes) + Between(p.groupRef, s.parser.groupRef)
    decreases Measure(p), 0
  {
    var p1 := Advance(p).value;
    var (right, p2) := Loop(p1, groupRef, []).value;
    assert PipeStep(p, groupRef, nodes) == Ok(Next([Or([Group(nodes, groupRef), right])], p2));
    LoopShape(p1, groupRef, []);
    PipeRefs(nodes, groupRef, right, p.groupRef, p2.groupRef);
  }

  /** The `Or` the `|` arm builds is well formed, and its numbers are those
      of the accumulated nodes, the current `group_ref`, and the right
      alternative's. */
  lemma PipeRefs(nodes: seq<Node>, groupRef: nat, right: Node, lo: nat, hi: nat)
    requires AllWellFormed(nodes) && WellFormed(right)
    requires Refs(right) <= {0, groupRef} + RefsOf([]) + Between(lo, hi)
    ensures AllWellFormed([Or([Group(nodes, groupRef), right])])
    ensures RefsOf([Or([Group(nodes, groupRef), right])]) <= {0, groupRef} + RefsOf(nodes) + Between(lo, hi)
  {
    var left := Group(nodes, groupRef);
    assert RefsOf([Or([left, right])]) == RefsOf([left, right]) by {
      RefsOfAppend([], Or([left, right]));
    }
    assert RefsOf([left, right]) == Refs(left) + Refs(right) by {
      RefsOfAppend([left], right);
      RefsOfAppend([], left);
    }
  }

  /** The `[` arm appends an `Or` or `Not` of literals. */
  lemma BracketShape(p: Parser, nodes: seq<Node>)
    requires p.cur == Lex.LBracket
    requires AllWellFormed(nodes) && BracketStep(p, nodes).Ok?
    ensures var s := BracketStep(p, nodes).value;
      AllWellFormed(s.nodes) && RefsOf(s.nodes) == RefsOf(nodes)
  {
    var p1 := Advance(p).value;
    var (node, p2) := BuildBracketGroup(p1).value;
    NoRefsInLiterals(node.nodes);
    RefsOfAppend(nodes, node);
  }

  /** The `(` arm appends a group whose numbers all come from the counter
      after its increment (or are 0). */
  lemma {:induction false} GroupShape(p: Parser, nodes: seq<Node>)
    requires p.cur == Lex.LParen
    requires AllWellFormed(nodes) && GroupStep(p, nodes).Ok?
    ensures var s := GroupStep(p, nodes).value;
      && AllWellFormed(s.nodes)
      && RefsOf(s.nodes) <= {0} + RefsOf(nodes) + Between(p.groupRef, s.parser.groupRef)
    decreases Measure(p), 0
  {
    var p1 := Advance(p.(groupRef := p.groupRef + 1)).value;
    var r := Loop(p1, p1.groupRef, []).value;
    GroupStepIs(p, nodes, p.groupRef + 1, p1, r.0, r.1);
    LoopShape(p1, p1.groupRef, []);
    NestedGroupRefs(nodes, r.0, p.groupRef, r.1.groupRef);
  }

  /** A group parsed under the counter `lo + 1`, whose numbers are 0, `lo + 1`
      and those handed out up to `hi`, adds to the accumulated numbers only 0
      and numbers above `lo` up to `hi`. */
  lemma NestedGroupRefs(nodes: seq<Node>, node: Node, lo: nat, hi: nat)
    requires lo < hi && AllWellFormed(nodes) && WellFormed(node)
    requires Refs(node) <= {0, lo + 1} + RefsOf([]) + Between(lo + 1, hi)
    ensures AllWellFormed(nodes + [node])
    ensures RefsOf(nodes + [node]) <= {0} + RefsOf(nodes) + Between(lo, hi)
  {
    RefsOfAppend(nodes, node);
    BetweenMembers(lo + 1, hi);
    BetweenMembers(lo, hi);
  }

  /** One pass of the loop body keeps the accumulated nodes well formed, and
      the only group numbers it introduces are 0, the current `group_ref`,
      and numbers handed out by the counter during the pass. */
  lemma {:induction false} StepShape(p: Parser, groupRef: nat, nodes: seq<Node>)
    requires AllWellFormed(nodes)
    requires StepAst(p, groupRef, nodes).Ok?
    ensures match StepAst(p, groupRef, nodes).value
      case Done(node, _) =>
        WellFormed(node) && Refs(node) <= {0, groupRef} + RefsOf(nodes)
      case Next(nodes', p') =>
        AllWellFormed(nodes')
        && RefsOf(nodes') <= {0, groupRef} + RefsOf(nodes) + Between(p.groupRef, p'.groupRef)
    decreases Measure(p), 1
  {
    match p.cur
    case Pipe => PipeShape(p, groupRef, nodes);
    case LBracket => BracketShape(p, nodes);
    case LParen => GroupShape(p, nodes);
    case RParen =>
    case Eof =>
    case _ => AccumulateShape(p.cur, nodes);
  }

  /** `build_ast` builds well-formed trees, and every group number in the
      result is 0, the `group_ref` it was called with, or a number the counter
      handed out to a `(` met during the call. */
  lemma {:induction false} LoopShape(p: Parser, groupRef: nat, nodes: seq<Node>)
    requires AllWellFormed(nodes)
    requires Loop(p, groupRef, nodes).Ok?
    ensures var (node, p') := Loop(p, groupRef, nodes).value;
      && WellFormed(node)
      && Refs(node) <= {0, groupRef} + RefsOf(nodes) + Between(p.groupRef, p'.groupRef)
    decreases Measure(p), 2
  {
    StepShape(p, groupRef, nodes);
    match StepAst(p, groupRef, nodes).value
    case Done(_, _) =>
    case Next(nodes', p1) =>
      var p2 := Advance(p1).value;
      LoopShape(p2, groupRef, nodes');
      var (node, p3) := Loop(p, groupRef, nodes).value;
      BetweenMembers(p.groupRef, p1.groupRef);
      BetweenMembers(p2.groupRef, p3.groupRef);
      BetweenMembers(p.groupRef, p3.groupRef);
  }

  /** Whatever pattern it parses, `Compile` yields a well-formed tree. */
  lemma CompiledTreesAreWellFormed(pattern: string)
    requires Compile(pattern).Ok?
    ensures WellFormed(Compile(pattern).value)
  {
    var p := New(Lex.New(pattern)).value;
    LoopShape(p, 0, []);
  }

  // ---------------------------------------------------------------------------
  // Patterns of one-character tokens

  /** Characters that are a token of their own, one character long, and that
      `build_ast` turns into exactly one node: ordinary characters, `.` and `^`. */
  predicate IsAtom(c: char) {
    !Lex.IsSpecial(c) || c == '.' || c == '^'
  }

  function AtomNode(c: char): Node {
    if c == '.' then Wildcard else if c == '^' then StartAnchor else Literal(c)
  }

  function AtomNodes(s: string): (r: seq<Node>)
    ensures |r| == |s|
  {
    seq(|s|, i requires 0 <= i < |s| => AtomNode(s[i]))
  }

  /** A position holding a one-character token (anything but `\\` and `{`),
      or past the end. */
  predicate OneCharTokenAt(chars: seq<char>, i: nat) {
    i >= |chars| || (chars[i] != '\\' && chars[i] != '{')
  }

  /** The token at such a position. */
  function TokenAt(chars: seq<char>, i: nat): Lex.Token {
    if i >= |chars| then Lex.Eof else Lex.SimpleToken(chars[i])
  }

  lemma OneCharToken(chars: seq<char>, i: nat)
    requires OneCharTokenAt(chars, i)
    ensures Lex.NextToken(Lex.Lexer(chars, i)) == Ok((TokenAt(chars, i), Lex.Lexer(chars, i + 1)))
  {
  }

  /** Advancing over a one-character token. */
  lemma AdvanceOneChar(p: Parser, chars: seq<char>, j: nat)
    requires p.lexer == Lex.Lexer(chars, j) && OneCharTokenAt(chars, j)
    ensures Advance(p) == Ok(Parser(Lex.Lexer(chars, j + 1), p.peek, TokenAt(chars, j), p.groupRef))
  {
    OneCharToken(chars, j);
  }

  /** A pattern whose first two tokens are one character long starts with
      both in the window. */
  lemma NewOnOneCharTokens(pattern: string)
    requires OneCharTokenAt(pattern, 0) && OneCharTokenAt(pattern, 1)
    ensures New(Lex.New(pattern)) == Ok(Parser(Lex.Lexer(pattern, 2), TokenAt(pattern, 0), TokenAt(pattern, 1), 0))
  {
    AdvanceOneChar(Parser(Lex.Lexer(pattern, 0), Lex.Eof, Lex.Eof, 0), pattern, 0);
    AdvanceOneChar(Parser(Lex.Lexer(pattern, 1), Lex.Eof, TokenAt(pattern, 0), 0), pattern, 1);
  }

  /** One pass of the loop that does not return continues with the next
      token. */
  lemma LoopContinues(p: Parser, groupRef: nat, nodes: seq<Node>, nodes': seq<Node>, p1: Parser)
    requires StepAst(p, groupRef, nodes) == Ok(Next(nodes', p1)) && Advance(p1).Ok?
    ensures Loop(p, groupRef, nodes) == Loop(Advance(p1).value, groupRef, nodes')
  {
  }

  /** The arms of `build_ast` that push or wrap a node: the loop goes on
      with the accumulated nodes and the window moved by one token. */
  lemma LoopAccumulates(p: Parser, groupRef: nat, nodes: seq<Node>, tok: Lex.Token, lx: Lex.Lexer)
    requires p.cur != Lex.Pipe && p.cur != Lex.LBracket && p.cur != Lex.LParen
    requires p.cur != Lex.RParen && p.cur != Lex.Eof
    requires Accumulate(p.cur, nodes).Ok? && Lex.NextToken(p.lexer) == Ok((tok, lx))
    ensures Loop(p, groupRef, nodes) ==
      Loop(Parser(lx, p.peek, tok, p.groupRef), groupRef, Accumulate(p.cur, nodes).value)
  {
  }

  /** The `|` arm: once the right alternative is parsed up to its `)` or
      `Eof`, the loop skips that token and goes on with the `Or` as its only
      node. */
  lemma LoopPipe(p: Parser, groupRef: nat, nodes: seq<Node>, p1: Parser, right: Node, p2: Parser, tok: Lex.Token,
                 lx: Lex.Lexer)
    requires p.cur == Lex.Pipe && Advance(p) == Ok(p1)
    requires Loop(p1, groupRef, []) == Ok((right, p2))
    requires Lex.NextToken(p2.lexer) == Ok((tok, lx))
    ensures Loop(p, groupRef, nodes) ==
      Loop(Parser(lx, p2.peek, tok, p2.groupRef), groupRef, [Or([Group(nodes, groupRef), right])])
  {
    var nodes' := [Or([Group(nodes, groupRef), right])];
    assert PipeStep(p, groupRef, nodes) == Ok(Next(nodes', p2));
    assert Advance(p2) == Ok(Parser(lx, p2.peek, tok, p2.groupRef));
    LoopContinues(p, groupRef, nodes, nodes', p2);
  }

  /** The `(` arm: the inner group is parsed under the incremented counter,
      pushed, and its closing token skipped. */
  lemma LoopGroup(p: Parser, groupRef: nat, nodes: seq<Node>, counter: nat, p1: Parser, inner: Node, p2: Parser,
                  tok: Lex.Token, lx: Lex.Lexer)
    requires p.cur == Lex.LParen && counter == p.groupRef + 1 && Advance(p.(groupRef := counter)) == Ok(p1)
    requires Loop(p1, counter, []) == Ok((inner, p2))
    requires Lex.NextToken(p2.lexer) == Ok((tok, lx))
    ensures Loop(p, groupRef, nodes) ==
      Loop(Parser(lx, p2.peek, tok, p2.groupRef), groupRef, nodes + [inner])
  {
    GroupStepOf(p, groupRef, nodes, counter, p1, inner, p2);
    assert Advance(p2) == Ok(Parser(lx, p2.peek, tok, p2.groupRef));
    LoopContinues(p, groupRef, nodes, nodes + [inner], p2);
  }

  lemma GroupStepOf(p: Parser, groupRef: nat, nodes: seq<Node>, counter: nat, p1: Parser, inner: Node, p2: Parser)
    requires p.cur == Lex.LParen && counter == p.groupRef + 1 && Advance(p.(groupRef := counter)) == Ok(p1)
    requires Loop(p1, counter, []) == Ok((inner, p2))
    ensures StepAst(p, groupRef, nodes) == Ok(Next(nodes + [inner], p2))
  {
    StepOnLParen(p, groupRef, nodes);
    GroupStepIs(p, nodes, counter, p1, inner, p2);
  }

  lemma StepOnLParen(p: Parser, groupRef: nat, nodes: seq<Node>)
    requires p.cur == Lex.LParen
    ensures StepAst(p, groupRef, nodes) == GroupStep(p, nodes)
  {
  }

  lemma GroupStepIs(p: Parser, nodes: seq<Node>, counter: nat, p1: Parser, inner: Node, p2: Parser)
    requires p.cur == Lex.LParen && counter == p.groupRef + 1 && Advance(p.(groupRef := counter)) == Ok(p1)
    requires Loop(p1, counter, []) == Ok((inner, p2))
    ensures GroupStep(p, nodes) == Ok(Next(nodes + [inner], p2))
  {
    assert p1.groupRef == counter;
  }

  /** The `[` arm: the class is pushed and its `]` skipped. */
  lemma LoopBracket(p: Parser, groupRef: nat, nodes: seq<Node>, p1: Parser, bracket: Node, p2: Parser, tok: Lex.Token,
                    lx: Lex.Lexer)
    requires p.cur == Lex.LBracket && Advance(p) == Ok(p1)
    requires BuildBracketGroup(p1) == Ok((bracket, p2))
    requires Lex.NextToken(p2.lexer) == Ok((tok, lx))
    ensures Loop(p, groupRef, nodes) ==
      Loop(Parser(lx, p2.peek, tok, p2.groupRef), groupRef, nodes + [bracket])
  {
  }

  /** `)` closes the group under the caller's number, `Eof` under 0; the
      parser stays on that token. */
  lemma LoopEnds(p: Parser, groupRef: nat, nodes: seq<Node>)
    requires p.cur == Lex.RParen || p.cur == Lex.Eof
    ensures Loop(p, groupRef, nodes) ==
      Ok((Group(nodes, if p.cur == Lex.RParen then groupRef else 0), p))
  {
  }

  /** The tokens `build_ast` pushes a node for or wraps the last node with. */
  predicate Pushing(tok: Lex.Token) {
    tok != Lex.Pipe && tok != Lex.LBracket && tok != Lex.LParen && tok != Lex.RParen && tok != Lex.Eof
  }

  /** Reference definition: the nodes left by pushing or wrapping with each
      token of `toks` in turn. */
  function Pushes(toks: seq<Lex.Token>, nodes: seq<Node>): Result<seq<Node>, ParseError>
    decreases |toks|
  {
    if toks == [] then Ok(nodes)
    else match Accumulate(toks[0], nodes)
      case Err(e) => Err(e)
      case Ok(nodes') => Pushes(toks[1..], nodes')
  }

  /** The tokens of the one-character positions `i` up to `k`. */
  function TokensAt(chars: seq<char>, i: nat, k: nat): (r: seq<Lex.Token>)
    requires i <= k
    ensures |r| == k - i
  {
    seq(k - i, j requires 0 <= j < k - i => TokenAt(chars, i + j))
  }

  /** From index `i` up to index `k` every token pushes or wraps, and every
      position up to `k + 1` holds a one-character token. */
  predicate OneCharRun(chars: seq<char>, i: nat, k: nat) {
    && i <= k
    && (forall j :: i <= j < k + 2 ==> OneCharTokenAt(chars, j))
    && (forall j :: i <= j < k ==> Pushing(TokenAt(chars, j)))
  }

  /** A run of one-character tokens that push or wrap, from index `i` up to
      index `k`, is folded into the nodes one token at a time, and the
      window ends on the tokens at `k` and `k + 1`. */
  lemma {:induction false} LoopOverOneCharTokens(chars: seq<char>, i: nat, k: nat, counter: nat,
                                                 groupRef: nat, nodes: seq<Node>)
    requires OneCharRun(chars, i, k)
    requires Pushes(TokensAt(chars, i, k), nodes).Ok?
    ensures Loop(Parser(Lex.Lexer(chars, i + 2), TokenAt(chars, i), TokenAt(chars, i + 1), counter), groupRef, nodes) ==
            Loop(Parser(Lex.Lexer(chars, k + 2), TokenAt(chars, k), TokenAt(chars, k + 1), counter), groupRef,
                 Pushes(TokensAt(chars, i, k), nodes).value)
    decreases k - i
  {
    if i < k {
      PushesCons(chars, i, k, nodes);
      var nodes' := Accumulate(TokenAt(chars, i), nodes).value;
      OneCharRunTail(chars, i, k);
      OneCharToken(chars, i + 2);
      LoopAccumulates(Parser(Lex.Lexer(chars, i + 2), TokenAt(chars, i), TokenAt(chars, i + 1), counter), groupRef, nodes,
                      TokenAt(chars, i + 2), Lex.Lexer(chars, i + 3));
      LoopOverOneCharTokens(chars, i + 1, k, counter, groupRef, nodes');
    }
  }

  /** Pushing a run of tokens is pushing its first token, then the rest. */
  lemma PushesCons(chars: seq<char>, i: nat, k: nat, nodes: seq<Node>)
    requires i < k && Pushes(TokensAt(chars, i, k), nodes).Ok?
    ensures Accumulate(TokenAt(chars, i), nodes).Ok?
    ensures Pushes(TokensAt(chars, i + 1, k), Accumulate(TokenAt(chars, i), nodes).value) ==
            Pushes(TokensAt(chars, i, k), nodes)
  {
    var toks := TokensAt(chars, i, k);
    assert toks[0] == TokenAt(chars, i) && toks[1..] == TokensAt(chars, i + 1, k);
  }

  lemma OneCharRunTail(chars: seq<char>, i: nat, k: nat)
    requires i < k && OneCharRun(chars, i, k)
    ensures OneCharRun(chars, i + 1, k) && OneCharTokenAt(chars, i + 2) && Pushing(TokenAt(chars, i))
  {
  }

  lemma AtomStep(chars: seq<char>, i: nat, p: Parser, groupRef: nat, nodes: seq<Node>)
    requires i < |chars| && IsAtom(chars[i]) && p.cur == TokenAt(chars, i)
    ensures StepAst(p, groupRef, nodes) == Ok(Next(nodes + [AtomNode(chars[i])], p))
  {
    var c := chars[i];
    if c == '.' {
      assert p.cur == Lex.Wildcard;
    } else if c == '^' {
      assert p.cur == Lex.StartAnchor;
    } else {
      assert p.cur == Lex.Literal(c);
    }
  }

  lemma AtomNodesStep(chars: seq<char>, i: nat, k: nat)
    requires i < k <= |chars|
    ensures [AtomNode(chars[i])] + AtomNodes(chars[i + 1..k]) == AtomNodes(chars[i..k])
  {
  }

  lemma AtomNodesCons(nodes: seq<Node>, chars: seq<char>, i: nat, k: nat)
    requires i < k <= |chars|
    ensures nodes + [AtomNode(chars[i])] + AtomNodes(chars[i + 1..k]) == nodes + AtomNodes(chars[i..k])
  {
    AtomNodesStep(chars, i, k);
  }

  /** Literal-like tokens are appended in pattern order: from index `i`, a run
      of atoms up to a `)` at `k`, or up to the end, becomes the group's
      nodes, one per character. Nothing after that `)` is parsed, and only
      its first token is lexed. */
  lemma {:induction false} LoopOverAtoms(chars: seq<char>, k: nat, i: nat, p: Parser, groupRef: nat, nodes: seq<Node>)
    requires i <= k <= |chars|
    requires forall j :: i <= j < k ==> IsAtom(chars[j])
    requires k == |chars| || chars[k] == ')'
    requires k < |chars| ==> Lex.NextToken(Lex.Lexer(chars, k + 1)).Ok?
    requires p.lexer.chars == chars && p.cur == TokenAt(chars, i)
    requires i < k ==> p.peek == TokenAt(chars, i + 1) && p.lexer.pos == i + 2
    ensures Loop(p, groupRef, nodes).Ok?
    ensures Loop(p, groupRef, nodes).value.0 ==
      Group(nodes + AtomNodes(chars[i..k]), if k < |chars| then groupRef else 0)
    decreases k - i
  {
    if i == k {
      LoopAtBoundary(chars, k, p, groupRef, nodes);
    } else {
      var nodes' := nodes + [AtomNode(chars[i])];
      AtomStep(chars, i, p, groupRef, nodes);
      if OneCharTokenAt(chars, i + 2) {
        AdvanceOneChar(p, chars, i + 2);
      }
      var p' := Advance(p).value;
      LoopContinues(p, groupRef, nodes, nodes', p);
      LoopOverAtoms(chars, k, i + 1, p', groupRef, nodes');
      AtomNodesCons(nodes, chars, i, k);
    }
  }

  lemma LoopAtBoundary(chars: seq<char>, k: nat, p: Parser, groupRef: nat, nodes: seq<Node>)
    requires k <= |chars| && (k == |chars| || chars[k] == ')') && p.cur == TokenAt(chars, k)
    ensures Loop(p, groupRef, nodes) == Ok((Group(nodes + AtomNodes(chars[k..k]), if k < |chars| then groupRef else 0), p))
  {
    assert chars[k..k] == [];
    assert nodes + [] == nodes;
  }

  /** A pattern of atoms, possibly followed by a stray `)`, compiles to the
      group of one node per atom, in order. */
  lemma AtomsUpTo(pattern: string, k: nat)
    requires k <= |pattern| && forall j :: 0 <= j < k ==> IsAtom(pattern[j])
    requires k == |pattern| || pattern[k] == ')'
    requires k < |pattern| ==> Lex.NextToken(Lex.Lexer(pattern, k + 1)).Ok?
    ensures Compile(pattern) == Ok(Group(AtomNodes(pattern[..k]), 0))
  {
    if 1 <= k || k == |pattern| {
      NewOnOneCharTokens(pattern);
    } else {
      AdvanceOneChar(Parser(Lex.Lexer(pattern, 0), Lex.Eof, Lex.Eof, 0), pattern, 0);
    }
    var p := New(Lex.New(pattern)).value;
    LoopOverAtoms(pattern, k, 0, p, 0, []);
    assert [] + AtomNodes(pattern[0..k]) == AtomNodes(pattern[..k]);
  }

  /** Atoms compile to one node each, in pattern order. */
  lemma AtomPattern(pattern: string)
    requires forall j :: 0 <= j < |pattern| ==> IsAtom(pattern[j])
    ensures Compile(pattern) == Ok(Group(AtomNodes(pattern), 0))
  {
    AtomsUpTo(pattern, |pattern|);
    assert pattern[..|pattern|] == pattern;
  }

  /** A pattern whose every character is a one-character token that pushes
      or wraps (no brackets, groups or bars) compiles to the group of the
      nodes those tokens fold into, one token at a time; the reference
      definition is `Pushes`. */
  lemma PushPattern(pattern: string)
    requires OneCharRun(pattern, 0, |pattern|)
    requires Pushes(TokensAt(pattern, 0, |pattern|), []).Ok?
    ensures Compile(pattern) == Ok(Group(Pushes(TokensAt(pattern, 0, |pattern|), []).value, 0))
  {
    var n := |pattern|;
    NewOnOneCharTokens(pattern);
    LoopOverPattern(pattern, n, Pushes(TokensAt(pattern, 0, n), []).value);
    CompileFrom(pattern, Parser(Lex.Lexer(pattern, 2), TokenAt(pattern, 0), TokenAt(pattern, 1), 0));
  }

  /** The loop of `PushPattern`: the run covers the whole pattern, so it
      ends on `Eof`, which closes group 0. */
  lemma LoopOverPattern(pattern: string, n: nat, nodes: seq<Node>)
    requires n == |pattern| && OneCharRun(pattern, 0, n)
    requires Pushes(TokensAt(pattern, 0, n), []).Ok? && nodes == Pushes(TokensAt(pattern, 0, n), []).value
    ensures Loop(Parser(Lex.Lexer(pattern, 2), TokenAt(pattern, 0), TokenAt(pattern, 1), 0), 0, []) ==
            Ok((Group(nodes, 0), Parser(Lex.Lexer(pattern, n + 2), TokenAt(pattern, n), TokenAt(pattern, n + 1), 0)))
  {
    LoopOverRun(pattern, n, nodes);
    assert TokenAt(pattern, n) == Lex.Eof;
    LoopEnds(Parser(Lex.Lexer(pattern, n + 2), TokenAt(pattern, n), TokenAt(pattern, n + 1), 0), 0, nodes);
  }

  lemma LoopOverRun(pattern: string, n: nat, nodes: seq<Node>)
    requires n == |pattern| && OneCharRun(pattern, 0, n)
    requires Pushes(TokensAt(pattern, 0, n), []).Ok? && nodes == Pushes(TokensAt(pattern, 0, n), []).value
    ensures Loop(Parser(Lex.Lexer(pattern, 2), TokenAt(pattern, 0), TokenAt(pattern, 1), 0), 0, []) ==
            Loop(Parser(Lex.Lexer(pattern, n + 2), TokenAt(pattern, n), TokenAt(pattern, n + 1), 0), 0, nodes)
  {
    LoopOverOneCharTokens(pattern, 0, n, 0, 0, []);
  }

  /** At top level a stray `)` ends the parse: whatever follows it is never
      parsed, and only its first token is lexed. */
  lemma StrayCloseIgnoresRest(s: string, rest: string)
    requires forall j :: 0 <= j < |s| ==> IsAtom(s[j])
    requires Lex.NextToken(Lex.Lexer(s + ")" + rest, |s| + 1)).Ok?
    ensures Compile(s + ")" + rest) == Compile(s)
  {
    var pattern := s + ")" + rest;
    AtomsUpTo(pattern, |s|);
    AtomPattern(s);
    assert pattern[..|s|] == s;
  }

  lemma OrdinaryAtom(chars: seq<char>, i: nat)
    requires i < |chars| && !Lex.IsSpecial(chars[i])
    ensures TokenAt(chars, i) == Lex.Literal(chars[i]) && AtomNode(chars[i]) == Literal(chars[i])
  {
  }

  /** Inside brackets, an ordinary character at `i` is pushed as a literal
      and the window moves on by one character. */
  lemma BracketLiteralStep(chars: seq<char>, i: nat, p: Parser, negated: bool, nodes: seq<Node>)
    requires i < |chars| && !Lex.IsSpecial(chars[i]) && OneCharTokenAt(chars, i + 2) && AllLiterals(nodes)
    requires p.lexer == Lex.Lexer(chars, i + 2) && p.cur == TokenAt(chars, i)
    ensures AllLiterals(nodes + [AtomNode(chars[i])])
    ensures BracketItems(p, negated, nodes) ==
      BracketItems(Parser(Lex.Lexer(chars, i + 3), p.peek, TokenAt(chars, i + 2), p.groupRef),
                   negated, nodes + [AtomNode(chars[i])])
  {
    OrdinaryAtom(chars, i);
    AdvanceOneChar(p, chars, i + 2);
  }

  lemma BracketAtClose(chars: seq<char>, k: nat, p: Parser, negated: bool, nodes: seq<Node>)
    requires k < |chars| && chars[k] == ']' && AllLiterals(nodes)
    requires p.lexer == Lex.Lexer(chars, k + 2) && p.cur == TokenAt(chars, k) && p.peek == TokenAt(chars, k + 1)
    ensures var items := nodes + AtomNodes(chars[k..k]);
      BracketItems(p, negated, nodes) ==
        Ok((ClassNode(negated, items),
            Parser(Lex.Lexer(chars, k + 2), Lex.RBracket, TokenAt(chars, k + 1), p.groupRef)))
  {
    assert chars[k..k] == [];
    assert nodes + [] == nodes;
  }

  /** Inside brackets, ordinary characters up to the `]` at `k` become the
      class's literals, in pattern order; the parser is left on the `]`. */
  lemma {:induction false} BracketOverLiterals(chars: seq<char>, k: nat, i: nat, p: Parser, negated: bool, nodes: seq<Node>)
    requires i <= k < |chars| && chars[k] == ']' && OneCharTokenAt(chars, k + 1)
    requires forall j :: i <= j < k ==> !Lex.IsSpecial(chars[j])
    requires AllLiterals(nodes)
    requires p.lexer == Lex.Lexer(chars, i + 2) && p.cur == TokenAt(chars, i) && p.peek == TokenAt(chars, i + 1)
    ensures var items := nodes + AtomNodes(chars[i..k]);
      BracketItems(p, negated, nodes) ==
        Ok((ClassNode(negated, items),
            Parser(Lex.Lexer(chars, k + 2), Lex.RBracket, TokenAt(chars, k + 1), p.groupRef)))
    decreases k - i
  {
    if i == k {
      BracketAtClose(chars, k, p, negated, nodes);
    } else {
      BracketLiteralStep(chars, i, p, negated, nodes);
      var p' := Parser(Lex.Lexer(chars, i + 3), p.peek, TokenAt(chars, i + 2), p.groupRef);
      BracketOverLiterals(chars, k, i + 1, p', negated, nodes + [AtomNode(chars[i])]);
      AtomNodesCons(nodes, chars, i, k);
    }
  }
  /** `build_bracket_group` entered on index `b`, just after a `[`: an
      optional `^`, then ordinary characters up to the `]` at `k`. */
  lemma BracketGroupOfLiterals(chars: seq<char>, b: nat, k: nat, p: Parser, negated: bool)
    requires b <= k < |chars| && chars[k] == ']' && OneCharTokenAt(chars, k + 1)
    requires negated ==> b < k && chars[b] == '^'
    requires forall j :: (if negated then b + 1 else b) <= j < k ==> !Lex.IsSpecial(chars[j])
    requires p.lexer == Lex.Lexer(chars, b + 2) && p.cur == TokenAt(chars, b) && p.peek == TokenAt(chars, b + 1)
    ensures var items := AtomNodes(chars[if negated then b + 1 else b..k]);
      BuildBracketGroup(p) ==
        Ok((ClassNode(negated, items),
            Parser(Lex.Lexer(chars, k + 2), Lex.RBracket, TokenAt(chars, k + 1), p.groupRef)))
  {
    if negated {
      assert p.cur == Lex.StartAnchor;
      AdvanceOneChar(p, chars, b + 2);
      BracketOverLiterals(chars, k, b + 1, Advance(p).value, true, []);
    } else {
      assert p.cur != Lex.StartAnchor by {
        if b < k { OrdinaryAtom(chars, b); }
      }
      BracketOverLiterals(chars, k, b, p, false, []);
    }
    assert [] + AtomNodes(chars[if negated then b + 1 else b..k]) == AtomNodes(chars[if negated then b + 1 else b..k]);
  }

  /** `Compile` is `build_ast(0)` on the primed parser. */
  lemma CompileFrom(pattern: string, p: Parser)
    requires New(Lex.New(pattern)) == Ok(p) && Loop(p, 0, []).Ok?
    ensures Compile(pattern) == Ok(Loop(p, 0, []).value.0)
  {
  }

  /** A pattern that is a single bracket expression: the loop pushes the
      class and stops at `Eof`. */
  lemma LoneBracket(p0: Parser, node: Node, pEnd: Parser)
    requires p0.cur == Lex.LBracket && Advance(p0).Ok?
    requires BuildBracketGroup(Advance(p0).value) == Ok((node, pEnd))
    requires pEnd.lexer.pos >= |pEnd.lexer.chars| && pEnd.peek == Lex.Eof
    ensures Loop(p0, 0, []).Ok? && Loop(p0, 0, []).value.0 == Group([node], 0)
  {
    assert [] + [node] == [node];
    assert StepAst(p0, 0, []) == Ok(Next([node], pEnd));
    LoopContinues(p0, 0, [], [node], pEnd);
  }

  function BracketText(s: string, negated: bool): string {
    "[" + (if negated then "^" else "") + s + "]"
  }

  lemma BracketTextLayout(s: string, negated: bool)
    requires forall j :: 0 <= j < |s| ==> !Lex.IsSpecial(s[j])
    ensures var pattern, o := BracketText(s, negated), if negated then 2 else 1;
      && |pattern| == o + |s| + 1 && pattern[o..|pattern| - 1] == s
      && pattern[0] == '[' && (negated ==> pattern[1] == '^') && pattern[|pattern| - 1] == ']'
      && (forall j :: o <= j < |pattern| - 1 ==> !Lex.IsSpecial(pattern[j]))
      && OneCharTokenAt(pattern, 0) && OneCharTokenAt(pattern, 1) && OneCharTokenAt(pattern, 2)
  {
    var pattern, o := BracketText(s, negated), if negated then 2 else 1;
    assert forall j :: o <= j < |pattern| - 1 ==> pattern[j] == s[j - o];
  }

  /** `[s]` compiles to an `Or`, and `[^s]` to a `Not`, of the literals of
      `s` in order. */
  lemma BracketPattern(s: string, negated: bool)
    requires forall j :: 0 <= j < |s| ==> !Lex.IsSpecial(s[j])
    ensures var items := AtomNodes(s);
      Compile(BracketText(s, negated)) == Ok(Group([if negated then Not(items) else Or(items)], 0))
  {
    BracketTextLayout(s, negated);
    BracketLayoutCompiles(BracketText(s, negated), s, negated);
  }

  /** The same, for any pattern laid out as `[s]` or `[^s]`. */
  lemma BracketLayoutCompiles(pattern: string, s: string, negated: bool)
    requires var o := if negated then 2 else 1;
      && |pattern| == o + |s| + 1 && pattern[o..|pattern| - 1] == s
      && pattern[0] == '[' && (negated ==> pattern[1] == '^') && pattern[|pattern| - 1] == ']'
      && (forall j :: o <= j < |pattern| - 1 ==> !Lex.IsSpecial(pattern[j]))
      && OneCharTokenAt(pattern, 0) && OneCharTokenAt(pattern, 1) && OneCharTokenAt(pattern, 2)
    ensures var items := AtomNodes(s);
      Compile(pattern) == Ok(Group([if negated then Not(items) else Or(items)], 0))
  {
    var p0 := Parser(Lex.Lexer(pattern, 2), Lex.LBracket, TokenAt(pattern, 1), 0);
    var p1 := Parser(Lex.Lexer(pattern, 3), TokenAt(pattern, 1), TokenAt(pattern, 2), 0);
    var items := AtomNodes(s);
    var node := ClassNode(negated, items);
    var pEnd := Parser(Lex.Lexer(pattern, |pattern| + 1), Lex.RBracket, Lex.Eof, 0);
    BracketOpens(pattern, p0, p1);
    BracketBuilds(pattern, s, negated, p1, node, pEnd);
    BracketCompiles(pattern, p0, p1, node, pEnd);
  }

  /** The window of a bracket pattern before and after consuming `[`. */
  lemma BracketOpens(pattern: string, p0: Parser, p1: Parser)
    requires |pattern| >= 1 && pattern[0] == '['
    requires OneCharTokenAt(pattern, 0) && OneCharTokenAt(pattern, 1) && OneCharTokenAt(pattern, 2)
    requires p0 == Parser(Lex.Lexer(pattern, 2), Lex.LBracket, TokenAt(pattern, 1), 0)
    requires p1 == Parser(Lex.Lexer(pattern, 3), TokenAt(pattern, 1), TokenAt(pattern, 2), 0)
    ensures New(Lex.New(pattern)) == Ok(p0) && Advance(p0) == Ok(p1)
  {
    NewOnOneCharTokens(pattern);
    AdvanceOneChar(p0, pattern, 2);
  }

  /** The bracket group of a bracket pattern ends at its `]`, with `Eof`
      behind it. */
  lemma BracketBuilds(pattern: string, s: string, negated: bool, p1: Parser, node: Node, pEnd: Parser)
    requires var o := if negated then 2 else 1;
      && |pattern| == o + |s| + 1 && pattern[o..|pattern| - 1] == s
      && (negated ==> pattern[1] == '^') && pattern[|pattern| - 1] == ']'
      && (forall j :: o <= j < |pattern| - 1 ==> !Lex.IsSpecial(pattern[j]))
    requires p1 == Parser(Lex.Lexer(pattern, 3), TokenAt(pattern, 1), TokenAt(pattern, 2), 0)
    requires node == ClassNode(negated, AtomNodes(s))
    requires pEnd == Parser(Lex.Lexer(pattern, |pattern| + 1), Lex.RBracket, Lex.Eof, 0)
    ensures BuildBracketGroup(p1) == Ok((node, pEnd))
  {
    var k := |pattern| - 1;
    assert TokenAt(pattern, k + 1) == Lex.Eof;
    BracketGroupOfLiterals(pattern, 1, k, p1, negated);
  }

  /** A lone bracket group compiles to a group holding just that class. */
  lemma BracketCompiles(pattern: string, p0: Parser, p1: Parser, node: Node, pEnd: Parser)
    requires New(Lex.New(pattern)) == Ok(p0) && p0.cur == Lex.LBracket && Advance(p0) == Ok(p1)
    requires BuildBracketGroup(p1) == Ok((node, pEnd))
    requires pEnd.lexer.pos >= |pEnd.lexer.chars| && pEnd.peek == Lex.Eof
    ensures Compile(pattern) == Ok(Group([node], 0))
  {
    LoneBracket(p0, node, pEnd);
    CompileFrom(pattern, p0);
  }

  /** Inside brackets, ordinary characters running up to the end of the
      pattern are collected until `Eof`, which is not a literal or `]`. */
  lemma {:induction false} BracketRunsOut(chars: seq<char>, i: nat, p: Parser, negated: bool, nodes: seq<Node>)
    requires i <= |chars| && forall j :: i <= j < |chars| ==> !Lex.IsSpecial(chars[j])
    requires AllLiterals(nodes)
    requires p.lexer == Lex.Lexer(chars, i + 2) && p.cur == TokenAt(chars, i) && p.peek == TokenAt(chars, i + 1)
    ensures BracketItems(p, negated, nodes) == Err(UnsupportedInBracket(Lex.Eof))
    decreases |chars| - i
  {
    if i < |chars| {
      BracketLiteralStep(chars, i, p, negated, nodes);
      var p' := Parser(Lex.Lexer(chars, i + 3), p.peek, TokenAt(chars, i + 2), p.groupRef);
      BracketRunsOut(chars, i + 1, p', negated, nodes + [AtomNode(chars[i])]);
    }
  }

  /** A bracket expression that is never closed: `[s` or `[^s`. */
  function OpenBracketText(s: string, negated: bool): string {
    "[" + (if negated then "^" else "") + s
  }

  /** An unclosed bracket expression runs into the end of the pattern and
      fails on its `Eof` token, where the source reaches `todo!()`. */
  lemma UnclosedBracket(s: string, negated: bool)
    requires forall j :: 0 <= j < |s| ==> !Lex.IsSpecial(s[j])
    ensures Compile(OpenBracketText(s, negated)) == Err(UnsupportedInBracket(Lex.Eof))
  {
    var pattern, o := OpenBracketText(s, negated), if negated then 2 else 1;
    assert forall j :: o <= j < |pattern| ==> pattern[j] == s[j - o];
    var p0 := Parser(Lex.Lexer(pattern, 2), Lex.LBracket, TokenAt(pattern, 1), 0);
    var p1 := Parser(Lex.Lexer(pattern, 3), TokenAt(pattern, 1), TokenAt(pattern, 2), 0);
    BracketOpens(pattern, p0, p1);
    UnclosedBracketGroup(pattern, o, negated, p1);
    BracketFails(p0, p1, UnsupportedInBracket(Lex.Eof));
    CompileFails(pattern, p0, UnsupportedInBracket(Lex.Eof));
  }

  /** An error inside a bracket group ends the loop with that error. */
  lemma BracketFails(p0: Parser, p1: Parser, e: ParseError)
    requires p0.cur == Lex.LBracket && Advance(p0) == Ok(p1) && BuildBracketGroup(p1) == Err(e)
    ensures Loop(p0, 0, []) == Err(e)
  {
    assert StepAst(p0, 0, []) == Err(e);
  }

  /** An error in `build_ast(0)` is the error of `Compile`. */
  lemma CompileFails(pattern: string, p: Parser, e: ParseError)
    requires New(Lex.New(pattern)) == Ok(p) && Loop(p, 0, []) == Err(e)
    ensures Compile(pattern) == Err(e)
  {
  }

  lemma UnclosedBracketGroup(pattern: string, o: nat, negated: bool, p1: Parser)
    requires o == (if negated then 2 else 1) && o <= |pattern|
    requires negated ==> pattern[1] == '^'
    requires forall j :: o <= j < |pattern| ==> !Lex.IsSpecial(pattern[j])
    requires p1 == Parser(Lex.Lexer(pattern, 3), TokenAt(pattern, 1), TokenAt(pattern, 2), 0)
    ensures BuildBracketGroup(p1) == Err(UnsupportedInBracket(Lex.Eof))
  {
    if negated {
      assert p1.cur == Lex.StartAnchor;
      AdvanceOneChar(p1, pattern, 3);
      BracketRunsOut(pattern, 2, Advance(p1).value, true, []);
    } else {
      assert p1.cur != Lex.StartAnchor by {
        if 1 < |pattern| { OrdinaryAtom(pattern, 1); }
      }
      BracketRunsOut(pattern, 1, p1, false, []);
    }
  }

  /** A pattern that starts with a shorthand quantifier has nothing to
      quantify and fails with "Misplaced quantifier". */
  lemma LeadingQuantifier(pattern: string)
    requires |pattern| >= 1 && (pattern[0] == '*' || pattern[0] == '+' || pattern[0] == '?')
    requires OneCharTokenAt(pattern, 1)
    ensures Compile(pattern) == Err(MisplacedQuantifier)
  {
    NewOnOneCharTokens(pattern);
    var p := New(Lex.New(pattern)).value;
    assert p.cur.Quantifier?;
    assert StepAst(p, 0, []) == Err(MisplacedQuantifier);
  }

  /** A pattern that starts with `$` has nothing to anchor: the source
      unwraps an empty stack there. */
  lemma LeadingEndAnchor(pattern: string)
    requires |pattern| >= 1 && pattern[0] == '$' && OneCharTokenAt(pattern, 1)
    ensures Compile(pattern) == Err(MisplacedEndAnchor)
  {
    NewOnOneCharTokens(pattern);
    var p := New(Lex.New(pattern)).value;
    assert p.cur == Lex.EndAnchor;
    assert StepAst(p, 0, []) == Err(MisplacedEndAnchor);
  }

  // ---------------------------------------------------------------------------
  // Group numbering

  /** The number of `(` characters before index `k`. */
  function Opened(chars: seq<char>, k: nat): nat
    decreases k
  {
    if k == 0 then 0 else Opened(chars, k - 1) + (if k - 1 < |chars| && chars[k - 1] == '(' then 1 else 0)
  }

  lemma {:induction false} OpenedAtMostAll(chars: seq<char>, k: nat)
    ensures Opened(chars, k) <= Opened(chars, |chars|)
    decreases k
  {
    if k > |chars| {
      OpenedAtMostAll(chars, k - 1);
    } else if k < |chars| {
      OpenedGrows(chars, k, |chars|);
    }
  }

  lemma {:induction false} OpenedGrows(chars: seq<char>, k: nat, m: nat)
    requires k <= m
    ensures Opened(chars, k) <= Opened(chars, m)
    decreases m
  {
    if k < m {
      OpenedGrows(chars, k, m - 1);
    }
  }

  /** A pattern without `\\` and `{`: every token is one character long. */
  predicate OneCharPattern(chars: seq<char>) {
    forall i :: 0 <= i < |chars| ==> chars[i] != '\\' && chars[i] != '{'
  }

  /** A parser over such a pattern whose window holds the tokens at
      `pos - 2` and `pos - 1`, and whose counter is the number of `(` before
      the current token: every `(` met so far has been counted once. */
  predicate Counted(p: Parser, chars: seq<char>) {
    && p.lexer.chars == chars && p.lexer.pos >= 2
    && p.cur == TokenAt(chars, p.lexer.pos - 2) && p.peek == TokenAt(chars, p.lexer.pos - 1)
    && p.groupRef == Opened(chars, p.lexer.pos - 2)
  }

  /** Moving the window past the current token, after the increment the
      `(` arm makes, keeps the count. */
  lemma AdvanceCounted(p: Parser, chars: seq<char>)
    requires OneCharPattern(chars) && Counted(p, chars)
    ensures var q := p.(groupRef := p.groupRef + (if p.cur == Lex.LParen then 1 else 0));
      Advance(q).Ok? && Counted(Advance(q).value, chars)
  {
    var q := p.(groupRef := p.groupRef + (if p.cur == Lex.LParen then 1 else 0));
    var i := p.lexer.pos - 2;
    assert OneCharTokenAt(chars, i + 2);
    AdvanceOneChar(q, chars, i + 2);
    assert (TokenAt(chars, i) == Lex.LParen) == (i < |chars| && chars[i] == '(');
  }

  /** `build_bracket_group`'s loop keeps the count: a `(` inside brackets is
      an error, so none is passed over. */
  lemma {:induction false} BracketItemsCounted(p: Parser, negated: bool, nodes: seq<Node>, chars: seq<char>)
    requires OneCharPattern(chars) && Counted(p, chars) && AllLiterals(nodes)
    requires BracketItems(p, negated, nodes).Ok?
    ensures Counted(BracketItems(p, negated, nodes).value.1, chars)
    decreases Measure(p)
  {
    if p.cur.Literal? {
      AdvanceCounted(p, chars);
      BracketItemsCounted(Advance(p).value, negated, nodes + [Literal(p.cur.c)], chars);
    }
  }

  lemma BracketGroupCounted(p: Parser, chars: seq<char>)
    requires OneCharPattern(chars) && Counted(p, chars) && BuildBracketGroup(p).Ok?
    ensures Counted(BuildBracketGroup(p).value.1, chars)
  {
    if p.cur == Lex.StartAnchor {
      AdvanceCounted(p, chars);
      BracketItemsCounted(Advance(p).value, true, [], chars);
    } else {
      BracketItemsCounted(p, false, [], chars);
    }
  }

  /** One pass of the loop body keeps the count, and never stops on a `(`. */
  lemma {:induction false} StepCounted(p: Parser, groupRef: nat, nodes: seq<Node>, chars: seq<char>)
    requires OneCharPattern(chars) && Counted(p, chars) && StepAst(p, groupRef, nodes).Ok?
    ensures var s := StepAst(p, groupRef, nodes).value;
      Counted(s.parser, chars) && s.parser.cur != Lex.LParen
    decreases Measure(p), 1
  {
    match p.cur
    case Pipe => PipeCounted(p, groupRef, nodes, chars);
    case LBracket => BracketCounted(p, nodes, chars);
    case LParen =>
      StepOnLParen(p, groupRef, nodes);
      GroupNumberedByOpening(p, nodes, chars);
    case _ =>
  }

  /** The `|` arm keeps the count. */
  lemma {:induction false} PipeCounted(p: Parser, groupRef: nat, nodes: seq<Node>, chars: seq<char>)
    requires OneCharPattern(chars) && Counted(p, chars) && p.cur == Lex.Pipe
    requires PipeStep(p, groupRef, nodes).Ok?
    ensures Counted(PipeStep(p, groupRef, nodes).value.parser, chars)
    decreases Measure(p), 0
  {
    AdvanceCounted(p, chars);
    var p1 := Advance(p).value;
    var (right, p2) := Loop(p1, groupRef, []).value;
    assert PipeStep(p, groupRef, nodes) == Ok(Next([Or([Group(nodes, groupRef), right])], p2));
    LoopCounted(p1, groupRef, [], chars);
  }

  /** The `[` arm keeps the count. */
  lemma BracketCounted(p: Parser, nodes: seq<Node>, chars: seq<char>)
    requires OneCharPattern(chars) && Counted(p, chars) && p.cur == Lex.LBracket
    requires BracketStep(p, nodes).Ok?
    ensures Counted(BracketStep(p, nodes).value.parser, chars)
  {
    AdvanceCounted(p, chars);
    BracketGroupCounted(Advance(p).value, chars);
  }

  /** `build_ast` keeps the count: the counter grows by exactly the number of
      `(` the call passes over. */
  lemma {:induction false} LoopCounted(p: Parser, groupRef: nat, nodes: seq<Node>, chars: seq<char>)
    requires OneCharPattern(chars) && Counted(p, chars) && Loop(p, groupRef, nodes).Ok?
    ensures Counted(Loop(p, groupRef, nodes).value.1, chars)
    decreases Measure(p), 2
  {
    StepCounted(p, groupRef, nodes, chars);
    match StepAst(p, groupRef, nodes).value
    case Done(_, _) =>
    case Next(nodes', p1) =>
      AdvanceCounted(p1, chars);
      LoopCounted(Advance(p1).value, groupRef, nodes', chars);
  }

  /** Groups are numbered in the order they open: the group opened by the
      `(` at index `i` and closed by its `)` is numbered one more than the
      number of `(` before index `i`. */
  lemma {:induction false} GroupNumberedByOpening(p: Parser, nodes: seq<Node>, chars: seq<char>)
    requires OneCharPattern(chars) && Counted(p, chars) && p.cur == Lex.LParen
    requires GroupStep(p, nodes).Ok?
    ensures var s := GroupStep(p, nodes).value;
      && (s.parser.cur == Lex.RParen ==> s.nodes[|nodes|] == Group(s.nodes[|nodes|].nodes, Opened(chars, p.lexer.pos - 2) + 1))
      && Counted(s.parser, chars)
    decreases Measure(p), 0
  {
    var counter := p.groupRef + 1;
    AdvanceCounted(p, chars);
    var p1 := Advance(p.(groupRef := counter)).value;
    var (inner, p2) := Loop(p1, counter, []).value;
    GroupStepIs(p, nodes, counter, p1, inner, p2);
    LoopCounted(p1, counter, [], chars);
  }

  /** A fresh parser starts with the count at zero. */
  lemma NewCounted(pattern: string)
    requires OneCharPattern(pattern)
    ensures New(Lex.New(pattern)).Ok? && Counted(New(Lex.New(pattern)).value, pattern)
  {
    NewOnOneCharTokens(pattern);
  }

  /** Every group number in a compiled tree is at most the number of `(` in
      the pattern. */
  lemma CompiledGroupNumbers(pattern: string)
    requires OneCharPattern(pattern) && Compile(pattern).Ok?
    ensures forall r :: r in Refs(Compile(pattern).value) ==> r <= Opened(pattern, |pattern|)
  {
    NewCounted(pattern);
    var p := New(Lex.New(pattern)).value;
    CompileFrom(pattern, p);
    LoopGroupNumbers(p, pattern);
  }

  /** The same for `build_ast(0)` started with no group opened. */
  lemma LoopGroupNumbers(p: Parser, chars: seq<char>)
    requires OneCharPattern(chars) && Counted(p, chars) && p.groupRef == 0 && Loop(p, 0, []).Ok?
    ensures forall r :: r in Refs(Loop(p, 0, []).value.0) ==> r <= Opened(chars, |chars|)
  {
    LoopShape(p, 0, []);
    LoopCounted(p, 0, [], chars);
    var r := Loop(p, 0, []).value;
    CountedRefs(r.0, r.1, chars);
  }

  lemma CountedRefs(node: Node, q: Parser, chars: seq<char>)
    requires Counted(q, chars) && Refs(node) <= {0, 0} + RefsOf([]) + Between(0, q.groupRef)
    ensures forall r :: r in Refs(node) ==> r <= Opened(chars, |chars|)
  {
    OpenedAtMostAll(chars, q.lexer.pos - 2);
    RefsAtMost(node, q.groupRef, Opened(chars, |chars|));
  }

  lemma RefsAtMost(node: Node, hi: nat, m: nat)
    requires hi <= m && Refs(node) <= {0, 0} + RefsOf([]) + Between(0, hi)
    ensures forall r :: r in Refs(node) ==> r <= m
  {
    BetweenMembers(0, hi);
  }
}
