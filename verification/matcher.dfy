/** The matcher of src/regex_matcher.rs. It walks the tree the parser built,
    carrying the set of text positions at which the current match attempt may
    continue (the "positions" of `Matcher`), and answers whether the pattern
    matches somewhere in the text. */
module RegexMatcher {
  import opened Wrappers
  import opened Ascii
  import opened RegexParser

  /** The constructs the matcher has no arm for: an `End` node, and a `Not`
      holding anything but literals. The source stops at `todo!()` there. */
  datatype MatchError = Unsupported

  /** What `matches` leaves behind: its boolean answer and the matcher's new
      positions. */
  datatype Outcome = Outcome(matched: bool, positions: set<nat>)

  /** `Matcher::new(len)`: a match may start at every position of the text. */
  function Start(n: nat): (positions: set<nat>)
    ensures forall p: int :: p in positions <==> 0 <= p < n
  {
    if n == 0 then {} else Start(n - 1) + {n - 1}
  }

  /** The filter every call of `matches` begins with: positions past the last
      character are dropped. */
  function Live(positions: set<nat>, n: nat): set<nat> {
    set p | p in positions && p < n
  }

  /** Every position moved one character on. */
  function Shift(positions: set<nat>): set<nat> {
    set p | p in positions :: p + 1
  }

  /** The nodes that consume one character of a given class. */
  predicate IsClass(node: Node) {
    node.Literal? || node.Digit? || node.Alphanum? || node.Not?
  }

  /** Whether the character `x` is in the class of such a node. A `Not` is
      taken to hold literals only; the matcher rejects any other `Not`. */
  predicate InClass(node: Node, x: char)
    requires IsClass(node)
  {
    match node
    case Literal(c) => x == c
    case Digit => IsDigit(x)
    case Alphanum => IsAlphanumeric(x) || x == '_'
    case Not(ns) => forall i :: 0 <= i < |ns| ==> ns[i] != Literal(x)
  }

  /** One class step: every live position whose character is in the class
      moves one on; the others are dropped. */
  function ClassStep(node: Node, live: set<nat>, chars: seq<char>): set<nat>
    requires IsClass(node)
  {
    set p | p in live && p < |chars| && InClass(node, chars[p]) :: p + 1
  }

  /** The least live position, or 0 when there is none: `min().unwrap_or(&0)`
      over the positions, found by scanning upwards from `i`. */
  function LeastFrom(live: set<nat>, i: nat, n: nat): (m: nat)
    ensures m == 0 || (i <= m < n && m in live)
    ensures forall p :: p in live && i <= p < n ==> i <= m <= p && m in live
    decreases n - i
  {
    if i >= n then 0 else if i in live then i else LeastFrom(live, i + 1, n)
  }

  /** `matches`: the answer for `node` starting from `positions` over `chars`. */
  function Matches(node: Node, positions: set<nat>, chars: seq<char>): (r: Result<Outcome, MatchError>)
    ensures r.Ok? ==> forall p :: p in r.value.positions ==> p <= |chars|
    decreases node, 0
  {
    var live := Live(positions, |chars|);
    match node
    case StartAnchor =>
      if 0 in live then Ok(Outcome(true, {0})) else Ok(Outcome(false, live))
    case Wildcard => Ok(Outcome(true, Shift(live)))
    case Literal(_) =>
      var next := ClassStep(node, live, chars);
      Ok(Outcome(next != {}, next))
    case Digit =>
      var next := ClassStep(node, live, chars);
      Ok(Outcome(next != {}, next))
    case Alphanum =>
      var next := ClassStep(node, live, chars);
      Ok(Outcome(next != {}, next))
    case Not(ns) =>
      if !AllLiterals(ns) then Err(Unsupported)
      else
        var next := ClassStep(node, live, chars);
        Ok(Outcome(next != {}, next))
    case Or(ns) => MatchAny(ns, live, chars)
    case Quantifier(child, min, max) =>
      var cap := match max
        case Some(m) => m
        case None => |chars| - LeastFrom(live, 0, |chars|) + 1;
      var (any, reached) :- Repeat(child, live, chars, if min == 0 then 1 else min, cap, 0);
      Ok(Outcome(min == 0 || any, (if min == 0 then live else {}) + reached))
    case Group(ns, _) => Thread(ns, live, chars)
    case End(_) => Err(Unsupported)
  }

  /** The `Or` arm: every alternative runs from its own copy of the same
      positions; the positions of those that match are pooled. */
  function MatchAny(ns: seq<Node>, live: set<nat>, chars: seq<char>): (r: Result<Outcome, MatchError>)
    ensures r.Ok? ==> forall p :: p in r.value.positions ==> p <= |chars|
    decreases ns, 1
  {
    if ns == [] then Ok(Outcome(false, {}))
    else
      var first :- Matches(ns[0], live, chars);
      var rest :- MatchAny(ns[1..], live, chars);
      Ok(Outcome(first.matched || rest.matched,
                 (if first.matched then first.positions else {}) + rest.positions))
  }

  /** The `Group` arm: the children run one after the other, each from the
      positions the previous one left; the first child that fails ends the
      group, with that child's positions. */
  function Thread(ns: seq<Node>, positions: set<nat>, chars: seq<char>): (r: Result<Outcome, MatchError>)
    requires forall p :: p in positions ==> p <= |chars|
    ensures r.Ok? ==> forall p :: p in r.value.positions ==> p <= |chars|
    decreases ns, 1
  {
    if ns == [] then Ok(Outcome(true, positions))
    else
      var first :- Matches(ns[0], positions, chars);
      if !first.matched then Ok(first) else Thread(ns[1..], first.positions, chars)
  }

  /** The repetition loop of the `Quantifier` arm after `count` successful
      rounds from `positions`: it runs while fewer than `cap` rounds are done
      and stops at the first round that fails. It answers whether some round
      numbered at least `lo` matched, and the positions of all such rounds. */
  function Repeat(child: Node, positions: set<nat>, chars: seq<char>, lo: nat, cap: nat, count: nat)
    : (r: Result<(bool, set<nat>), MatchError>)
    ensures r.Ok? ==> forall p :: p in r.value.1 ==> p <= |chars|
    decreases child, 1, cap - count
  {
    if count >= cap then Ok((false, {}))
    else
      var round :- Matches(child, positions, chars);
      if !round.matched then Ok((false, {}))
      else
        var (any, reached) :- Repeat(child, round.positions, chars, lo, cap, count + 1);
        if count + 1 >= lo then Ok((true, round.positions + reached)) else Ok((any, reached))
  }

  // ---------------------------------------------------------------------------
  // The filter and the single-character steps

  /** Only the positions inside the text matter: every call starts by
      dropping the others. */
  lemma FilterFirst(node: Node, positions: set<nat>, chars: seq<char>)
    ensures Matches(node, positions, chars) == Matches(node, Live(positions, |chars|), chars)
  {
    assert Live(Live(positions, |chars|), |chars|) == Live(positions, |chars|);
  }

  /** `^` matches exactly when position 0 is live, and then leaves only 0;
      otherwise the live positions stay as they are. */
  lemma StartAnchorStep(positions: set<nat>, chars: seq<char>)
    ensures var r := Matches(StartAnchor, positions, chars);
      && r.Ok?
      && (r.value.matched <==> 0 in positions && 0 < |chars|)
      && (r.value.matched ==> r.value.positions == {0})
      && (!r.value.matched ==> r.value.positions == Live(positions, |chars|))
  {
  }

  /** `.` always matches, even with no live position, and moves every live
      position one on. */
  lemma WildcardStep(positions: set<nat>, chars: seq<char>)
    ensures var r := Matches(Wildcard, positions, chars);
      && r.Ok? && r.value.matched
      && 0 !in r.value.positions
      && forall p: nat :: p + 1 in r.value.positions <==> p in positions && p < |chars|
  {
    var r := Matches(Wildcard, positions, chars);
    forall p: nat
      ensures p + 1 in r.value.positions <==> p in positions && p < |chars|
    {
      if p in positions && p < |chars| {
        assert p in Live(positions, |chars|);
      }
    }
  }

  /** A literal, `\d`, `\w` or a bracket class moves on exactly the live
      positions whose character is in the class, and matches exactly when at
      least one does. A `Not` holding anything but literals is rejected. */
  lemma ClassStepSpec(node: Node, positions: set<nat>, chars: seq<char>)
    requires IsClass(node)
    ensures var r := Matches(node, positions, chars);
      && (r.Err? <==> node.Not? && !AllLiterals(node.nodes))
      && (r.Ok? ==>
            && 0 !in r.value.positions
            && (forall p: nat :: p + 1 in r.value.positions <==>
                                 p in positions && p < |chars| && InClass(node, chars[p]))
            && (r.value.matched <==> exists p: nat :: p in positions && p < |chars| && InClass(node, chars[p])))
  {
    var r := Matches(node, positions, chars);
    if r.Ok? {
      var live := Live(positions, |chars|);
      assert r.value.positions == ClassStep(node, live, chars);
      forall p: nat
        ensures p + 1 in r.value.positions <==> p in positions && p < |chars| && InClass(node, chars[p])
      {
        if p in positions && p < |chars| && InClass(node, chars[p]) {
          assert p in live;
        }
      }
      if exists p: nat :: p in positions && p < |chars| && InClass(node, chars[p]) {
        var p: nat :| p in positions && p < |chars| && InClass(node, chars[p]);
        assert p + 1 in r.value.positions;
      }
    }
  }

  /** A bracket negation admits exactly the characters none of its literals
      stands for. */
  lemma NotClassMembers(ns: seq<Node>, x: char)
    requires AllLiterals(ns)
    ensures InClass(Not(ns), x) <==> forall i :: 0 <= i < |ns| ==> ns[i].c != x
  {
  }

  // ---------------------------------------------------------------------------
  // Alternation

  /** The alternative matched without an error and answered true. */
  predicate Accepts(node: Node, positions: set<nat>, chars: seq<char>) {
    Matches(node, positions, chars).Ok? && Matches(node, positions, chars).value.matched
  }

  /** ... and `q` is among the positions it left. */
  predicate Reaches(node: Node, positions: set<nat>, chars: seq<char>, q: nat) {
    Accepts(node, positions, chars) && q in Matches(node, positions, chars).value.positions
  }

  lemma {:induction false} MatchAnySpec(ns: seq<Node>, live: set<nat>, chars: seq<char>)
    ensures var r := MatchAny(ns, live, chars);
      && (r.Err? <==> exists i :: 0 <= i < |ns| && Matches(ns[i], live, chars).Err?)
      && (r.Ok? ==>
            && (r.value.matched <==> exists i :: 0 <= i < |ns| && Accepts(ns[i], live, chars))
            && (forall q :: q in r.value.positions <==>
                              exists i :: 0 <= i < |ns| && Reaches(ns[i], live, chars, q)))
    decreases |ns|
  {
    if ns != [] {
      MatchAnySpec(ns[1..], live, chars);
      assert forall i :: 1 <= i < |ns| ==> ns[i] == ns[1..][i - 1];
      var r := MatchAny(ns, live, chars);
      if r.Ok? {
        forall q
          ensures q in r.value.positions <==> exists i :: 0 <= i < |ns| && Reaches(ns[i], live, chars, q)
        {
          if q in r.value.positions && !Reaches(ns[0], live, chars, q) {
            var j :| 0 <= j < |ns[1..]| && Reaches(ns[1..][j], live, chars, q);
            assert Reaches(ns[j + 1], live, chars, q);
          }
        }
        if !Accepts(ns[0], live, chars) && r.value.matched {
          var j :| 0 <= j < |ns[1..]| && Accepts(ns[1..][j], live, chars);
          assert Accepts(ns[j + 1], live, chars);
        }
      } else if Matches(ns[0], live, chars).Ok? {
        var j :| 0 <= j < |ns[1..]| && Matches(ns[1..][j], live, chars).Err?;
        assert Matches(ns[j + 1], live, chars).Err?;
      }
    }
  }

  /** `Or`: every alternative runs from the same positions; the result is
      true exactly when one of them answers true, and its positions are those
      such alternatives reach. An alternative that is rejected rejects the
      whole. */
  lemma OrSpec(ns: seq<Node>, positions: set<nat>, chars: seq<char>)
    ensures var r := Matches(Or(ns), positions, chars);
      && (r.Err? <==> exists i :: 0 <= i < |ns| && Matches(ns[i], positions, chars).Err?)
      && (r.Ok? ==>
            && (r.value.matched <==> exists i :: 0 <= i < |ns| && Accepts(ns[i], positions, chars))
            && (forall q :: q in r.value.positions <==>
                              exists i :: 0 <= i < |ns| && Reaches(ns[i], positions, chars, q)))
  {
    var live := Live(positions, |chars|);
    MatchAnySpec(ns, live, chars);
    forall i | 0 <= i < |ns|
      ensures Matches(ns[i], live, chars) == Matches(ns[i], positions, chars)
    {
      FilterFirst(ns[i], positions, chars);
    }
  }

  /** The order of the alternatives, and repeated alternatives, make no
      difference. */
  lemma OrOrderIrrelevant(ns: seq<Node>, ms: seq<Node>, positions: set<nat>, chars: seq<char>)
    requires forall x :: x in ns <==> x in ms
    ensures Matches(Or(ns), positions, chars) == Matches(Or(ms), positions, chars)
  {
    OrSpec(ns, positions, chars);
    OrSpec(ms, positions, chars);
    var a, b := Matches(Or(ns), positions, chars), Matches(Or(ms), positions, chars);
    assert (exists i :: 0 <= i < |ns| && Matches(ns[i], positions, chars).Err?)
       <==> (exists i :: 0 <= i < |ms| && Matches(ms[i], positions, chars).Err?) by {
      if exists i :: 0 <= i < |ns| && Matches(ns[i], positions, chars).Err? {
        var i :| 0 <= i < |ns| && Matches(ns[i], positions, chars).Err?;
        assert ns[i] in ms;
      }
      if exists i :: 0 <= i < |ms| && Matches(ms[i], positions, chars).Err? {
        var i :| 0 <= i < |ms| && Matches(ms[i], positions, chars).Err?;
        assert ms[i] in ns;
      }
    }
    if a.Ok? {
      assert a.value.matched == b.value.matched by {
        if a.value.matched {
          var i :| 0 <= i < |ns| && Accepts(ns[i], positions, chars);
          assert ns[i] in ms;
        }
        if b.value.matched {
          var i :| 0 <= i < |ms| && Accepts(ms[i], positions, chars);
          assert ms[i] in ns;
        }
      }
      assert a.value.positions == b.value.positions by {
        forall q | q in a.value.positions ensures q in b.value.positions {
          var i :| 0 <= i < |ns| && Reaches(ns[i], positions, chars, q);
          assert ns[i] in ms;
        }
        forall q | q in b.value.positions ensures q in a.value.positions {
          var i :| 0 <= i < |ms| && Reaches(ms[i], positions, chars, q);
          assert ms[i] in ns;
        }
      }
      assert a.value == b.value;
    } else {
      assert a.error == Unsupported == b.error;
    }
  }

  /** An `Or` of two alternatives that both answer: it matches when either
      does, and pools the positions of those that do. */
  lemma OrOfTwo(a: Node, b: Node, positions: set<nat>, chars: seq<char>)
    requires Matches(a, positions, chars).Ok? && Matches(b, positions, chars).Ok?
    ensures var ra, rb := Matches(a, positions, chars).value, Matches(b, positions, chars).value;
      Matches(Or([a, b]), positions, chars) ==
        Ok(Outcome(ra.matched || rb.matched,
                   (if ra.matched then ra.positions else {}) + (if rb.matched then rb.positions else {})))
  {
    FilterFirst(a, positions, chars);
    FilterFirst(b, positions, chars);
    var live := Live(positions, |chars|);
    var ra, rb := Matches(a, live, chars).value, Matches(b, live, chars).value;
    assert [a, b][0] == a && [a, b][1..] == [b] && [b][0] == b && [b][1..] == [];
    var sb := if rb.matched then rb.positions else {};
    assert sb + {} == sb;
    assert MatchAny([b], live, chars) == Ok(Outcome(rb.matched, sb));
    assert Matches(Or([a, b]), positions, chars) ==
      Ok(Outcome(ra.matched || rb.matched, (if ra.matched then ra.positions else {}) + sb));
  }

  // ---------------------------------------------------------------------------
  // Groups

  /** A group can be split anywhere: running `ns1 + ns2` is running `ns1`
      and, if that matched, `ns2` from where it left off. */
  lemma {:induction false} ThreadAppend(ns1: seq<Node>, ns2: seq<Node>, positions: set<nat>, chars: seq<char>)
    requires forall p :: p in positions ==> p <= |chars|
    ensures Thread(ns1 + ns2, positions, chars) ==
      match Thread(ns1, positions, chars)
      case Err(e) => Err(e)
      case Ok(o) => if o.matched then Thread(ns2, o.positions, chars) else Ok(o)
    decreases |ns1|
  {
    if ns1 == [] {
      assert ns1 + ns2 == ns2;
    } else {
      assert (ns1 + ns2)[0] == ns1[0] && (ns1 + ns2)[1..] == ns1[1..] + ns2;
      var first := Matches(ns1[0], positions, chars);
      if first.Ok? && first.value.matched {
        ThreadAppend(ns1[1..], ns2, first.value.positions, chars);
      }
    }
  }

  /** A group threads the live positions through its children. */
  lemma GroupThreads(ns: seq<Node>, groupRef: nat, positions: set<nat>, chars: seq<char>)
    ensures Matches(Group(ns, groupRef), positions, chars) == Thread(ns, Live(positions, |chars|), chars)
  {
  }

  /** A group whose first child matches goes on with the rest from where
      that child left off. */
  lemma ThreadOn(ns: seq<Node>, positions: set<nat>, chars: seq<char>)
    requires ns != [] && forall p :: p in positions ==> p <= |chars|
    requires Accepts(ns[0], positions, chars)
    ensures Thread(ns, positions, chars) == Thread(ns[1..], Matches(ns[0], positions, chars).value.positions, chars)
  {
  }

  /** An empty group matches, and keeps the live positions. */
  lemma EmptyGroup(groupRef: nat, positions: set<nat>, chars: seq<char>)
    ensures Matches(Group([], groupRef), positions, chars) == Ok(Outcome(true, Live(positions, |chars|)))
  {
  }

  /** A group of one node behaves as that node, apart from the filter. */
  lemma SingletonGroup(node: Node, groupRef: nat, positions: set<nat>, chars: seq<char>)
    ensures Matches(Group([node], groupRef), positions, chars) == Matches(node, positions, chars)
  {
    FilterFirst(node, positions, chars);
    var live := Live(positions, |chars|);
    var first := Matches(node, live, chars);
    assert [node][0] == node && [node][1..] == [];
    if first.Ok? && first.value.matched {
      assert Thread([], first.value.positions, chars) == Ok(first.value);
    }
  }

  /** Reference definition: the positions left once the first `i` children
      of a group have each matched in turn, every one starting where the
      previous one stopped; `None` once one of them does not match. */
  function Chain(ns: seq<Node>, positions: set<nat>, chars: seq<char>, i: nat): Option<set<nat>>
    requires i <= |ns|
    decreases i
  {
    if i == 0 then Some(positions)
    else match Chain(ns, positions, chars, i - 1)
      case None => None
      case Some(s) => if Accepts(ns[i - 1], s, chars) then Some(Matches(ns[i - 1], s, chars).value.positions) else None
  }

  lemma {:induction false} ChainThreads(ns: seq<Node>, positions: set<nat>, chars: seq<char>, i: nat)
    requires i <= |ns| && forall p :: p in positions ==> p <= |chars|
    requires Chain(ns, positions, chars, i).Some?
    ensures Thread(ns[..i], positions, chars) == Ok(Outcome(true, Chain(ns, positions, chars, i).value))
    decreases i
  {
    if i == 0 {
      assert ns[..0] == [];
    } else {
      ChainThreads(ns, positions, chars, i - 1);
      var s := Chain(ns, positions, chars, i - 1).value;
      assert ns[..i] == ns[..i - 1] + [ns[i - 1]];
      ThreadAppend(ns[..i - 1], [ns[i - 1]], positions, chars);
      assert [ns[i - 1]][1..] == [];
    }
  }

  /** A group against the reference `Chain`: when all its children match in
      turn, the group matches with the positions the last one left; when
      child `i` is the first that does not, the group answers as that child
      does from where the previous one stopped. */
  lemma GroupSpec(ns: seq<Node>, groupRef: nat, positions: set<nat>, chars: seq<char>, i: nat)
    requires i <= |ns| && Chain(ns, Live(positions, |chars|), chars, i).Some?
    ensures var s := Chain(ns, Live(positions, |chars|), chars, i).value;
      && (i == |ns| ==> Matches(Group(ns, groupRef), positions, chars) == Ok(Outcome(true, s)))
      && (i < |ns| && !Accepts(ns[i], s, chars) ==>
            Matches(Group(ns, groupRef), positions, chars) == Matches(ns[i], s, chars))
  {
    var live := Live(positions, |chars|);
    var s := Chain(ns, live, chars, i).value;
    GroupThreads(ns, groupRef, positions, chars);
    LiveBounded(positions, |chars|);
    ThreadFromChain(ns, live, chars, i);
    if i < |ns| && !Accepts(ns[i], s, chars) {
      ThreadStops(ns[i..], s, chars);
    }
  }

  lemma LiveBounded(positions: set<nat>, n: nat)
    ensures forall p :: p in Live(positions, n) ==> p <= n
  {
  }

  /** After `i` children matched in turn, the group goes on with the rest. */
  lemma ThreadFromChain(ns: seq<Node>, positions: set<nat>, chars: seq<char>, i: nat)
    requires i <= |ns| && forall p :: p in positions ==> p <= |chars|
    requires Chain(ns, positions, chars, i).Some?
    ensures forall p :: p in Chain(ns, positions, chars, i).value ==> p <= |chars|
    ensures Thread(ns, positions, chars) == Thread(ns[i..], Chain(ns, positions, chars, i).value, chars)
    ensures i == |ns| ==> Thread(ns, positions, chars) == Ok(Outcome(true, Chain(ns, positions, chars, i).value))
  {
    ChainThreads(ns, positions, chars, i);
    ThreadAppend(ns[..i], ns[i..], positions, chars);
    assert ns[..i] + ns[i..] == ns;
  }

  /** A child that does not match ends the group with its own answer. */
  lemma ThreadStops(ns: seq<Node>, positions: set<nat>, chars: seq<char>)
    requires ns != [] && forall p :: p in positions ==> p <= |chars|
    requires !Accepts(ns[0], positions, chars)
    ensures Thread(ns, positions, chars) == Matches(ns[0], positions, chars)
  {
  }

  /** When the chain breaks, some child is the first that does not match. */
  lemma {:induction false} FirstBreak(ns: seq<Node>, positions: set<nat>, chars: seq<char>, k: nat) returns (i: nat)
    requires k <= |ns| && Chain(ns, positions, chars, k).None?
    ensures i < k && Chain(ns, positions, chars, i).Some?
    ensures !Accepts(ns[i], Chain(ns, positions, chars, i).value, chars)
    decreases k
  {
    if Chain(ns, positions, chars, k - 1).None? {
      i := FirstBreak(ns, positions, chars, k - 1);
    } else {
      i := k - 1;
    }
  }

  /** A group matches exactly when every child matches in turn. */
  lemma GroupAccepts(ns: seq<Node>, groupRef: nat, positions: set<nat>, chars: seq<char>)
    ensures Accepts(Group(ns, groupRef), positions, chars) <==> Chain(ns, Live(positions, |chars|), chars, |ns|).Some?
  {
    var live := Live(positions, |chars|);
    if Chain(ns, live, chars, |ns|).Some? {
      GroupSpec(ns, groupRef, positions, chars, |ns|);
    } else {
      var i := FirstBreak(ns, live, chars, |ns|);
      GroupSpec(ns, groupRef, positions, chars, i);
    }
  }

  // ---------------------------------------------------------------------------
  // Quantifiers

  /** Reference definition: the positions left by exactly `k` successive
      runs of `child` from `positions`, each starting where the previous one
      stopped; `None` when one of those runs fails. */
  function Reach(child: Node, positions: set<nat>, chars: seq<char>, k: nat): Option<set<nat>>
    decreases k
  {
    if k == 0 then Some(positions)
    else match Reach(child, positions, chars, k - 1)
      case None => None
      case Some(s) => if Accepts(child, s, chars) then Some(Matches(child, s, chars).value.positions) else None
  }

  /** Once a run fails, no longer sequence of runs succeeds. */
  lemma {:induction false} ReachStuck(child: Node, positions: set<nat>, chars: seq<char>, k: nat, j: nat)
    requires Reach(child, positions, chars, k) == None
    requires k <= j
    ensures Reach(child, positions, chars, j) == None
    decreases j
  {
    if k < j {
      ReachStuck(child, positions, chars, k, j - 1);
    }
  }

  /** Some number of rounds `j` with `done < j <= cap` and `lo <= j` all
      succeed from `entry`. */
  predicate SomeRounds(child: Node, entry: set<nat>, chars: seq<char>, lo: nat, cap: nat, done: nat) {
    exists j: nat :: done < j <= cap && lo <= j && Reach(child, entry, chars, j).Some?
  }

  /** ... and one of them leaves `q` among the positions. */
  predicate RoundsReach(child: Node, entry: set<nat>, chars: seq<char>, lo: nat, cap: nat, done: nat, q: nat) {
    exists j: nat :: done < j <= cap && lo <= j
                     && Reach(child, entry, chars, j).Some? && q in Reach(child, entry, chars, j).value
  }

  /** Peeling the first round off a range of round numbers. */
  lemma RoundsSplit(child: Node, entry: set<nat>, chars: seq<char>, lo: nat, cap: nat, done: nat, q: nat)
    requires done < cap
    ensures SomeRounds(child, entry, chars, lo, cap, done) <==>
      (lo <= done + 1 && Reach(child, entry, chars, done + 1).Some?) || SomeRounds(child, entry, chars, lo, cap, done + 1)
    ensures RoundsReach(child, entry, chars, lo, cap, done, q) <==>
      (lo <= done + 1 && Reach(child, entry, chars, done + 1).Some? && q in Reach(child, entry, chars, done + 1).value)
      || RoundsReach(child, entry, chars, lo, cap, done + 1, q)
  {
    if SomeRounds(child, entry, chars, lo, cap, done) {
      var j: nat :| done < j <= cap && lo <= j && Reach(child, entry, chars, j).Some?;
      if j > done + 1 {
        assert SomeRounds(child, entry, chars, lo, cap, done + 1);
      }
    }
    if RoundsReach(child, entry, chars, lo, cap, done, q) {
      var j: nat :| done < j <= cap && lo <= j
                    && Reach(child, entry, chars, j).Some? && q in Reach(child, entry, chars, j).value;
      if j > done + 1 {
        assert RoundsReach(child, entry, chars, lo, cap, done + 1, q);
      }
    }
  }

  /** No round past a failing one succeeds. */
  lemma NoRoundsAfterFailure(child: Node, entry: set<nat>, chars: seq<char>, lo: nat, cap: nat, done: nat, q: nat)
    requires Reach(child, entry, chars, done + 1) == None
    ensures !SomeRounds(child, entry, chars, lo, cap, done)
    ensures !RoundsReach(child, entry, chars, lo, cap, done, q)
  {
    forall j: nat | done < j
      ensures Reach(child, entry, chars, j) == None
    {
      ReachStuck(child, entry, chars, done + 1, j);
    }
  }

  /** The repetition loop in terms of the reference definition, numbering
      rounds from the quantifier's entry positions `entry` (which `count`
      rounds took to `positions`): it answers true exactly when some number
      of rounds between `lo` and `cap` beyond `count` all succeed, and
      collects the positions of every such number of rounds. */
  lemma {:induction false} RepeatSpec(child: Node, entry: set<nat>, positions: set<nat>, chars: seq<char>,
                                      lo: nat, cap: nat, count: nat)
    requires Reach(child, entry, chars, count) == Some(positions)
    requires Repeat(child, positions, chars, lo, cap, count).Ok?
    ensures var r := Repeat(child, positions, chars, lo, cap, count).value;
      && (r.0 <==> SomeRounds(child, entry, chars, lo, cap, count))
      && (forall q: nat :: q in r.1 <==> RoundsReach(child, entry, chars, lo, cap, count, q))
    decreases cap - count
  {
    var r := Repeat(child, positions, chars, lo, cap, count).value;
    if count < cap {
      var round := Matches(child, positions, chars);
      if round.value.matched {
        var next := round.value.positions;
        assert Reach(child, entry, chars, count + 1) == Some(next);
        RepeatSpec(child, entry, next, chars, lo, cap, count + 1);
        forall q: nat
          ensures q in r.1 <==> RoundsReach(child, entry, chars, lo, cap, count, q)
        {
          RoundsSplit(child, entry, chars, lo, cap, count, q);
        }
        RoundsSplit(child, entry, chars, lo, cap, count, 0);
      } else {
        assert Reach(child, entry, chars, count + 1) == None;
        forall q: nat
          ensures !RoundsReach(child, entry, chars, lo, cap, count, q)
        {
          NoRoundsAfterFailure(child, entry, chars, lo, cap, count, q);
        }
        NoRoundsAfterFailure(child, entry, chars, lo, cap, count, 0);
      }
    }
  }

  /** The number of rounds an unbounded quantifier may run: one more than
      the characters from the least live position to the end, or `n + 1`
      when nothing is live. The subtraction cannot go below zero because the
      filter leaves only positions before the end. */
  function RoundCap(max: Option<nat>, live: set<nat>, n: nat): (cap: nat)
    requires forall p :: p in live ==> p < n
    ensures max.Some? ==> cap == max.value
    ensures max.None? && live == {} ==> cap == n + 1
    ensures max.None? && live != {} ==>
      1 <= cap && (exists p :: p in live && cap == n - p + 1) && forall p :: p in live ==> cap >= n - p + 1
  {
    match max
    case Some(m) => m
    case None =>
      var least := LeastFrom(live, 0, n);
      assert live != {} ==> least in live by {
        if live != {} {
          var p :| p in live;
        }
      }
      n - least + 1
  }

  /** The `Quantifier` arm: with `lo = max(min, 1)` and the round cap above,
      the answer is true exactly when `min` is 0 or some number of rounds
      between `lo` and the cap all succeed; the positions are the live ones
      when `min` is 0, together with those left by every such number of
      rounds. */
  lemma QuantifierSpec(child: Node, min: nat, max: Option<nat>, positions: set<nat>, chars: seq<char>)
    requires Matches(Quantifier(child, min, max), positions, chars).Ok?
    ensures var o := Matches(Quantifier(child, min, max), positions, chars).value;
      var live := Live(positions, |chars|);
      var lo := if min == 0 then 1 else min;
      var cap := RoundCap(max, live, |chars|);
      && (o.matched <==> min == 0 || SomeRounds(child, live, chars, lo, cap, 0))
      && (forall q: nat :: q in o.positions <==> (min == 0 && q in live) || RoundsReach(child, live, chars, lo, cap, 0, q))
  {
    var live := Live(positions, |chars|);
    var lo := if min == 0 then 1 else min;
    var cap := RoundCap(max, live, |chars|);
    RepeatSpec(child, live, live, chars, lo, cap, 0);
    var r := Repeat(child, live, chars, lo, cap, 0).value;
    var o := Matches(Quantifier(child, min, max), positions, chars).value;
    assert o == Outcome(min == 0 || r.0, (if min == 0 then live else {}) + r.1);
  }

  /** `*`, `?` and `{0,m}` always match and keep every live position. */
  lemma OptionalAlwaysMatches(child: Node, max: Option<nat>, positions: set<nat>, chars: seq<char>)
    requires Matches(Quantifier(child, 0, max), positions, chars).Ok?
    ensures var o := Matches(Quantifier(child, 0, max), positions, chars).value;
      o.matched && Live(positions, |chars|) <= o.positions
  {
  }

  // ---------------------------------------------------------------------------
  // Quantified literals

  /** Exactly `k` copies of `c` start at index `p` of the text. */
  predicate RunOf(chars: seq<char>, c: char, p: nat, k: nat) {
    && p + k <= |chars|
    && (forall j :: p <= j < p + k ==> chars[j] == c)
    && (p + k == |chars| || chars[p + k] != c)
  }

  /** A literal from a single position moves it on when the character there
      is the literal, and fails otherwise. */
  lemma LiteralFromOne(c: char, p: nat, chars: seq<char>)
    ensures var r := Matches(Literal(c), {p}, chars);
      && r.Ok?
      && (r.value.matched <==> p < |chars| && chars[p] == c)
      && r.value.positions == if r.value.matched then {p + 1} else {}
  {
    var r := Matches(Literal(c), {p}, chars);
    ClassStepSpec(Literal(c), {p}, chars);
    if p < |chars| && chars[p] == c {
      assert p + 1 in r.value.positions;
    }
    assert forall q :: q in r.value.positions ==> q == p + 1;
  }

  /** A class node from a single position moves it on when the character
      there is in the class, and fails otherwise. */
  lemma ClassFromOne(node: Node, p: nat, chars: seq<char>)
    requires IsClass(node) && (node.Not? ==> AllLiterals(node.nodes))
    ensures var r := Matches(node, {p}, chars);
      && r.Ok?
      && (r.value.matched <==> p < |chars| && InClass(node, chars[p]))
      && r.value.positions == if r.value.matched then {p + 1} else {}
  {
    var r := Matches(node, {p}, chars);
    ClassStepSpec(node, {p}, chars);
    if p < |chars| && InClass(node, chars[p]) {
      assert p + 1 in r.value.positions;
    }
    assert forall q :: q in r.value.positions ==> q == p + 1;
  }

  /** The repetition loop over a literal from the start of a run of `k`
      copies of it: round `j` reaches `p + j`, for every round up to the end
      of the run or the cap, whichever comes first. */
  lemma {:induction false} LiteralRounds(c: char, p: nat, k: nat, chars: seq<char>, lo: nat, cap: nat, count: nat)
    requires RunOf(chars, c, p, k) && count <= cap
    ensures var rounds := if k < cap - count then k else cap - count;
      var r := Repeat(Literal(c), {p}, chars, lo, cap, count);
      && r.Ok?
      && (r.value.0 <==> 1 <= rounds && lo <= count + rounds)
      && forall q: nat :: q in r.value.1 <==> p < q <= p + rounds && lo <= count + (q - p)
    decreases cap - count
  {
    LiteralFromOne(c, p, chars);
    if count < cap && 0 < k {
      LiteralRounds(c, p + 1, k - 1, chars, lo, cap, count + 1);
    }
  }

  /** The number of rounds a literal quantifier gets from live positions
      of which only `p` holds its literal: the length `k` of the run at `p`,
      cut at the cap. */
  function RunRounds(max: Option<nat>, live: set<nat>, n: nat, k: nat): nat
    requires forall q :: q in live ==> q < n
  {
    var cap := RoundCap(max, live, n);
    if k < cap then k else cap
  }

  lemma OnlyOneHolds(c: char, live: set<nat>, p: nat, chars: seq<char>)
    requires forall q :: q in live ==> q < |chars|
    requires p in live && forall q :: q in live && q != p ==> chars[q] != c
    ensures Matches(Literal(c), live, chars) == Matches(Literal(c), {p}, chars)
  {
    var n := |chars|;
    assert Live({p}, n) == {p};
    var a, b := ClassStep(Literal(c), Live(live, n), chars), ClassStep(Literal(c), {p}, chars);
    assert a == b by {
      forall q | q in a ensures q in b {
        var x :| x in Live(live, n) && x < n && InClass(Literal(c), chars[x]) && q == x + 1;
      }
      if b != {} {
        assert p in Live(live, n);
      }
    }
  }

  /** A literal that no live position holds fails and leaves no position. */
  lemma LiteralNowhere(c: char, positions: set<nat>, chars: seq<char>)
    requires forall q :: q in positions && q < |chars| ==> chars[q] != c
    ensures Matches(Literal(c), positions, chars) == Ok(Outcome(false, {}))
  {
    ClassStepSpec(Literal(c), positions, chars);
  }

  /** The repetition loop only looks at its positions through the first
      round. */
  lemma SameFirstRound(child: Node, positions: set<nat>, positions': set<nat>, chars: seq<char>, lo: nat, cap: nat)
    requires Matches(child, positions, chars) == Matches(child, positions', chars)
    ensures Repeat(child, positions, chars, lo, cap, 0) == Repeat(child, positions', chars, lo, cap, 0)
  {
  }

  /** The `Quantifier` arm on positions inside the text, with the cap taken
      from `RoundCap`. */
  lemma QuantifierRounds(child: Node, min: nat, max: Option<nat>, live: set<nat>, chars: seq<char>)
    requires forall q :: q in live ==> q < |chars|
    ensures var r := Repeat(child, live, chars, if min == 0 then 1 else min, RoundCap(max, live, |chars|), 0);
      var m := Matches(Quantifier(child, min, max), live, chars);
      && (m.Ok? <==> r.Ok?)
      && (m.Ok? ==> m.value == Outcome(min == 0 || r.value.0, (if min == 0 then live else {}) + r.value.1))
  {
    assert Live(live, |chars|) == live;
  }

  /** A quantified literal entered on live positions of which only `p` holds
      the literal, at the start of a run of `k` copies: it matches when the
      minimum is 0 or the run, cut at the cap, reaches the minimum, and it
      reaches every position of the run from the minimum on (plus the entry
      positions when the minimum is 0). */
  lemma QuantifiedLiteral(c: char, min: nat, max: Option<nat>, live: set<nat>, p: nat, k: nat, chars: seq<char>)
    requires forall q :: q in live ==> q < |chars|
    requires p in live && forall q :: q in live && q != p ==> chars[q] != c
    requires RunOf(chars, c, p, k)
    ensures var rounds := RunRounds(max, live, |chars|, k);
      var lo := if min == 0 then 1 else min;
      var m := Matches(Quantifier(Literal(c), min, max), live, chars);
      && m.Ok?
      && (m.value.matched <==> min == 0 || lo <= rounds)
      && forall q: nat :: q in m.value.positions <==> (min == 0 && q in live) || (p < q <= p + rounds && lo <= q - p)
  {
    var n := |chars|;
    var cap := RoundCap(max, live, n);
    var lo := if min == 0 then 1 else min;
    OnlyOneHolds(c, live, p, chars);
    LiteralRounds(c, p, k, chars, lo, cap, 0);
    SameFirstRound(Literal(c), live, {p}, chars, lo, cap);
    QuantifierRounds(Literal(c), min, max, live, chars);
    assert Repeat(Literal(c), live, chars, lo, cap, 0) == Repeat(Literal(c), {p}, chars, lo, cap, 0);
  }

  // ---------------------------------------------------------------------------
  // Quantified wildcards

  /** `.` from nothing still matches, with no position left. */
  lemma WildcardFromNothing(chars: seq<char>)
    ensures Matches(Wildcard, {}, chars) == Ok(Outcome(true, {}))
  {
    assert Live({}, |chars|) == {};
    assert Shift({}) == {};
  }

  /** `.` from a single position inside the text moves it on by one; from
      the end of the text it still matches, with no position left. */
  lemma WildcardFromOne(p: nat, chars: seq<char>)
    requires p <= |chars|
    ensures Matches(Wildcard, {p}, chars) == Ok(Outcome(true, if p < |chars| then {p + 1} else {}))
  {
    if p < |chars| {
      assert Live({p}, |chars|) == {p};
      var s := Shift({p});
      assert p + 1 in s;
      assert forall q :: q in s ==> q == p + 1;
      assert s == {p + 1};
    } else {
      assert Live({p}, |chars|) == {};
      assert Shift({}) == {};
    }
  }

  /** The repetition loop over `.` with no position left: every round
      matches and reaches nothing. */
  lemma {:induction false} WildcardRoundsFromNothing(chars: seq<char>, lo: nat, cap: nat, count: nat)
    requires count <= cap
    ensures var r := Repeat(Wildcard, {}, chars, lo, cap, count);
      && r.Ok? && (r.value.0 <==> count < cap && lo <= cap) && r.value.1 == {}
    decreases cap - count
  {
    if count < cap {
      WildcardFromNothing(chars);
      WildcardRoundsFromNothing(chars, lo, cap, count + 1);
    }
  }

  /** The repetition loop over `.` from a single position: every round
      matches, and round `j` reaches `p + j` as long as that is inside or at
      the end of the text. */
  lemma {:induction false} WildcardRounds(p: nat, chars: seq<char>, lo: nat, cap: nat, count: nat)
    requires p <= |chars| && count <= cap
    ensures var r := Repeat(Wildcard, {p}, chars, lo, cap, count);
      && r.Ok?
      && (r.value.0 <==> count < cap && lo <= cap)
      && forall q: nat :: q in r.value.1 <==> p < q <= |chars| && q - p <= cap - count && lo <= count + (q - p)
    decreases cap - count
  {
    if count < cap {
      WildcardFromOne(p, chars);
      if p < |chars| {
        WildcardRounds(p + 1, chars, lo, cap, count + 1);
      } else {
        WildcardRoundsFromNothing(chars, lo, cap, count + 1);
      }
    }
  }

  /** `.*` from a single position inside the text matches and reaches every
      position from there to the end of the text: the cap lets the loop run
      one round past the end, where `.` still matches with nothing live. */
  lemma WildcardStar(p: nat, chars: seq<char>)
    requires p < |chars|
    ensures var m := Matches(Quantifier(Wildcard, 0, None), {p}, chars);
      && m.Ok? && m.value.matched
      && forall q: nat :: q in m.value.positions <==> p <= q <= |chars|
  {
    var n := |chars|;
    assert RoundCap(None, {p}, n) == n - p + 1;
    WildcardRounds(p, chars, 1, n - p + 1, 0);
    QuantifierRounds(Wildcard, 0, None, {p}, chars);
  }

  // ---------------------------------------------------------------------------
  // When the matcher cannot fail

  /** Trees the matcher has an arm for throughout: no `End`, and only
      literals under a `Not`. */
  predicate Supported(node: Node) {
    match node
    case End(_) => false
    case Not(ns) => AllLiterals(ns)
    case Or(ns) => forall i :: 0 <= i < |ns| ==> Supported(ns[i])
    case Group(ns, _) => forall i :: 0 <= i < |ns| ==> Supported(ns[i])
    case Quantifier(child, _, _) => Supported(child)
    case _ => true
  }

  /** Whether an `End` node (from `$`) occurs in a tree. */
  predicate HasEnd(node: Node) {
    match node
    case End(_) => true
    case Or(ns) => exists i :: 0 <= i < |ns| && HasEnd(ns[i])
    case Not(ns) => exists i :: 0 <= i < |ns| && HasEnd(ns[i])
    case Group(ns, _) => exists i :: 0 <= i < |ns| && HasEnd(ns[i])
    case Quantifier(child, _, _) => HasEnd(child)
    case _ => false
  }

  /** A tree the parser can build is supported unless it holds an `End`. */
  lemma {:induction false} WellFormedSupported(node: Node)
    requires WellFormed(node) && !HasEnd(node)
    ensures Supported(node)
    decreases node
  {
    match node
    case Or(ns) =>
      forall i | 0 <= i < |ns| ensures Supported(ns[i]) {
        if !AllLiterals(ns) {
          WellFormedSupported(ns[i]);
        }
      }
    case Group(ns, _) =>
      forall i | 0 <= i < |ns| ensures Supported(ns[i]) {
        WellFormedSupported(ns[i]);
      }
    case Quantifier(child, _, _) =>
      WellFormedSupported(child);
    case _ =>
  }

  /** On a supported tree the matcher always gives an answer, whatever the
      positions and the text. */
  lemma {:induction false} SupportedNeverFails(node: Node, positions: set<nat>, chars: seq<char>)
    requires Supported(node)
    ensures Matches(node, positions, chars).Ok?
    decreases node, 0
  {
    var live := Live(positions, |chars|);
    match node
    case Or(ns) =>
      SupportedAlternatives(ns, live, chars);
    case Group(ns, _) =>
      SupportedSequence(ns, live, chars);
    case Quantifier(child, min, max) =>
      var cap := RoundCap(max, live, |chars|);
      SupportedRounds(child, live, chars, if min == 0 then 1 else min, cap, 0);
    case _ =>
  }

  lemma {:induction false} SupportedAlternatives(ns: seq<Node>, live: set<nat>, chars: seq<char>)
    requires forall i :: 0 <= i < |ns| ==> Supported(ns[i])
    ensures MatchAny(ns, live, chars).Ok?
    decreases ns, 1
  {
    if ns != [] {
      SupportedNeverFails(ns[0], live, chars);
      SupportedAlternatives(ns[1..], live, chars);
    }
  }

  lemma {:induction false} SupportedSequence(ns: seq<Node>, positions: set<nat>, chars: seq<char>)
    requires forall i :: 0 <= i < |ns| ==> Supported(ns[i])
    requires forall p :: p in positions ==> p <= |chars|
    ensures Thread(ns, positions, chars).Ok?
    decreases ns, 1
  {
    if ns != [] {
      SupportedNeverFails(ns[0], positions, chars);
      var first := Matches(ns[0], positions, chars).value;
      if first.matched {
        SupportedSequence(ns[1..], first.positions, chars);
      }
    }
  }

  lemma {:induction false} SupportedRounds(child: Node, positions: set<nat>, chars: seq<char>, lo: nat, cap: nat, count: nat)
    requires Supported(child)
    ensures Repeat(child, positions, chars, lo, cap, count).Ok?
    decreases child, 1, cap - count
  {
    if count < cap {
      SupportedNeverFails(child, positions, chars);
      var round := Matches(child, positions, chars).value;
      if round.matched {
        SupportedRounds(child, round.positions, chars, lo, cap, count + 1);
      }
    }
  }

  /** A `$` anywhere that the matcher reaches makes it fail: an `End` node at
      the front of a group is always reached. */
  lemma EndIsUnsupported(child: Node, rest: seq<Node>, groupRef: nat, positions: set<nat>, chars: seq<char>)
    ensures Matches(Group([End(child)] + rest, groupRef), positions, chars) == Err(Unsupported)
  {
    var ns := [End(child)] + rest;
    assert ns[0] == End(child);
    assert Matches(ns[0], Live(positions, |chars|), chars) == Err(Unsupported);
  }

  // ---------------------------------------------------------------------------
  // The whole pipeline

  /** Why the pipeline gave no answer: the pattern did not compile, or the
      tree holds a construct the matcher has no arm for. */
  datatype SearchError = ParseFailed(ParseError) | MatchFailed(MatchError)

  /** What the test harness of src/regex_matcher.rs runs: compile the
      pattern, start a match at every position of the text, and report the
      matcher's answer. */
  function Search(pattern: string, text: string): (r: Result<bool, SearchError>)
    ensures Compile(pattern).Err? ==> r == Err(ParseFailed(Compile(pattern).error))
    ensures r.Ok? ==>
      && Compile(pattern).Ok?
      && Matches(Compile(pattern).value, Start(|text|), text).Ok?
      && r.value == Matches(Compile(pattern).value, Start(|text|), text).value.matched
  {
    match Compile(pattern)
    case Err(e) => Err(ParseFailed(e))
    case Ok(tree) =>
      match Matches(tree, Start(|text|), text)
      case Err(e) => Err(MatchFailed(e))
      case Ok(o) => Ok(o.matched)
  }

  /** Every pattern that compiles and has no `$` gets an answer on every
      text. */
  lemma SearchDefined(pattern: string, text: string)
    requires Compile(pattern).Ok? && !HasEnd(Compile(pattern).value)
    ensures Search(pattern, text).Ok?
  {
    CompiledTreesAreWellFormed(pattern);
    WellFormedSupported(Compile(pattern).value);
    SupportedNeverFails(Compile(pattern).value, Start(|text|), text);
  }
}
