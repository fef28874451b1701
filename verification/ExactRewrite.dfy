/** Replacing one expression object, found by identity, wherever it occurs. */
module ExactRewrite {
  import opened ExpressionGraph

  /** A position below an object: at each step, which part to go to. */
  type Position = seq<nat>

  /** Following `p` from `n` leads to the object `target`. */
  ghost predicate LeadsTo(n: Node, p: Position, target: Node)
    decreases |p|
  {
    if p == [] then n == target else p[0] < |n.parts| && LeadsTo(n.parts[p[0]], p[1..], target)
  }

  /** The positions of `target` in `n`.  Where it is found it is not looked for any deeper. */
  ghost function Positions(n: Node, target: Node): set<Position>
    requires Acyclic(n)
    decreases n.height, 1, 0
  {
    if n == target then {[]} else PositionsUpTo(n.parts, n.height, target, |n.parts|)
  }

  /** The positions below the first `i` of several parts. */
  ghost function PositionsUpTo(ns: seq<Node>, bound: nat, target: Node, i: nat): set<Position>
    requires i <= |ns| && forall n | n in ns :: n.height < bound && Acyclic(n)
    decreases bound, 0, i
  {
    if i == 0 then {}
    else PositionsUpTo(ns, bound, target, i - 1) + Prefixed(i - 1, Positions(ns[i - 1], target))
  }

  ghost function Prefixed(i: nat, ps: set<Position>): set<Position> {
    set p | p in ps :: [i] + p
  }

  lemma OnePrefix(i: nat, q: Position, p: Position)
    ensures [i] + q == p <==> p != [] && p[0] == i && p[1..] == q
  {
    assert ([i] + q)[1..] == q;
    assert p != [] ==> p == [p[0]] + p[1..];
  }

  lemma {:induction false} PrefixedSize(i: nat, ps: set<Position>)
    ensures |Prefixed(i, ps)| == |ps|
  {
    if p :| p in ps {
      PrefixedSize(i, ps - {p});
      var rest := Prefixed(i, ps - {p});
      forall q | q in ps
        ensures [i] + q == [i] + p <==> q == p
      {
        OnePrefix(i, q, [i] + p);
      }
      assert [i] + p !in rest;
      assert Prefixed(i, ps) == rest + {[i] + p};
    }
  }

  /** Nothing lies below itself. */
  lemma {:induction false} Below(n: Node, p: Position, target: Node)
    requires Acyclic(n) && LeadsTo(n, p, target)
    ensures target.height <= n.height && (p != [] ==> target.height < n.height)
    decreases |p|
  {
    if p != [] {
      Below(n.parts[p[0]], p[1..], target);
    }
  }

  /** The positions are exactly those that lead to the object. */
  lemma {:induction false} PositionsLead(n: Node, target: Node, p: Position)
    requires Acyclic(n)
    ensures p in Positions(n, target) <==> LeadsTo(n, p, target)
    decreases n.height, 1, 0
  {
    if n == target {
      if LeadsTo(n, p, target) {
        Below(n, p, target);
      }
    } else {
      PositionsUpToLead(n.parts, n.height, target, |n.parts|, p);
    }
  }

  lemma {:induction false} PositionsUpToLead(ns: seq<Node>, bound: nat, target: Node, i: nat, p: Position)
    requires i <= |ns| && forall n | n in ns :: n.height < bound && Acyclic(n)
    ensures p in PositionsUpTo(ns, bound, target, i) <==> p != [] && p[0] < i && LeadsTo(ns[p[0]], p[1..], target)
    decreases bound, 0, i
  {
    if i > 0 {
      PositionsUpToLead(ns, bound, target, i - 1, p);
      if p != [] {
        PositionsLead(ns[i - 1], target, p[1..]);
        OnePrefix(i - 1, p[1..], p);
        var part := Positions(ns[i - 1], target);
        forall q | q in part
          ensures [i - 1] + q == p <==> p[0] == i - 1 && p[1..] == q
        {
          OnePrefix(i - 1, q, p);
        }
      }
    }
  }

  /** One part more. */
  lemma PositionsAdd(ns: seq<Node>, bound: nat, target: Node, i: nat)
    requires 0 < i <= |ns| && forall n | n in ns :: n.height < bound && Acyclic(n)
    ensures |PositionsUpTo(ns, bound, target, i)| ==
            |PositionsUpTo(ns, bound, target, i - 1)| + |Positions(ns[i - 1], target)|
  {
    var before, more := PositionsUpTo(ns, bound, target, i - 1), Prefixed(i - 1, Positions(ns[i - 1], target));
    forall p | p in before
      ensures p !in more
    {
      PositionsUpToLead(ns, bound, target, i - 1, p);
    }
    assert before !! more;
    PrefixedSize(i - 1, Positions(ns[i - 1], target));
  }

  /** The tree of `n` with `tree` in place of every occurrence of the object `target`. */
  ghost function Replaced(n: Node, target: Node, tree: Tree): Tree
    requires Acyclic(n)
    decreases n.height
  {
    if n == target then tree
    else Tree(n.kind, seq(|n.parts|, i requires 0 <= i < |n.parts| => Replaced(n.parts[i], target, tree)))
  }

  // ------------------------------------------ the result, place by place

  /** The position exists in the tree. */
  ghost predicate Within(t: Tree, p: Position)
    decreases |p|
  {
    p == [] || (p[0] < |t.parts| && Within(t.parts[p[0]], p[1..]))
  }

  ghost function SubtreeAt(t: Tree, p: Position): Tree
    requires Within(t, p)
    decreases |p|
  {
    if p == [] then t else SubtreeAt(t.parts[p[0]], p[1..])
  }

  /** The unfolded tree has, at a position that leads to an object, the tree of that object. */
  lemma {:induction false} UnfoldedAt(n: Node, p: Position, m: Node)
    requires Acyclic(n) && LeadsTo(n, p, m)
    ensures Acyclic(m) && Within(Unfold(n), p) && SubtreeAt(Unfold(n), p) == Unfold(m)
    ensures Unfold(m).kind == m.kind && |Unfold(m).parts| == |m.parts|
    decreases |p|
  {
    if p != [] {
      UnfoldedAt(n.parts[p[0]], p[1..], m);
    }
  }

  /** Where the object is, the other tree comes to be. */
  lemma {:induction false} ReplacedThere(n: Node, target: Node, tree: Tree, p: Position)
    requires Acyclic(n) && LeadsTo(n, p, target)
    ensures Within(Replaced(n, target, tree), p) && SubtreeAt(Replaced(n, target, tree), p) == tree
    decreases |p|
  {
    Below(n, p, target);
    if p != [] {
      ReplacedThere(n.parts[p[0]], target, tree, p[1..]);
    }
  }

  /** The object is neither at the position nor above it. */
  ghost predicate ClearOf(n: Node, target: Node, p: Position) {
    forall k: nat | k <= |p| :: !LeadsTo(n, p[..k], target)
  }

  /** Elsewhere everything stays in its place. */
  lemma {:induction false} ReplacedElsewhere(n: Node, target: Node, tree: Tree, p: Position, m: Node)
    requires Acyclic(n) && LeadsTo(n, p, m) && ClearOf(n, target, p)
    ensures Within(Replaced(n, target, tree), p)
    ensures var t := SubtreeAt(Replaced(n, target, tree), p); t.kind == m.kind && |t.parts| == |m.parts|
    decreases |p|
  {
    assert !LeadsTo(n, p[..0], target);
    if p != [] {
      var rest := p[1..];
      forall k: nat | k <= |rest|
        ensures !LeadsTo(n.parts[p[0]], rest[..k], target)
      {
        assert !LeadsTo(n, p[..k + 1], target);
        assert p[..k + 1][1..] == rest[..k];
      }
      ReplacedElsewhere(n.parts[p[0]], target, tree, rest, m);
    }
  }

  /** The result of a rewrite: at every position of the old object stands the new one, and at
      every other position that is not below one stands what stood there, with as many parts. */
  lemma RewrittenPlaces(out: Node, n: Node, target: Node, replacement: Node)
    requires Acyclic(n) && Acyclic(replacement) && Rewritten(out, n, target, replacement)
    ensures forall p | p in Positions(n, target) ::
      Within(Unfold(out), p) && SubtreeAt(Unfold(out), p) == Unfold(replacement)
    ensures forall p, m | LeadsTo(n, p, m) && ClearOf(n, target, p) ::
      Within(Unfold(out), p) && SubtreeAt(Unfold(out), p).kind == m.kind && |SubtreeAt(Unfold(out), p).parts| == |m.parts|
  {
    forall p | p in Positions(n, target)
      ensures Within(Unfold(out), p) && SubtreeAt(Unfold(out), p) == Unfold(replacement)
    {
      PositionsLead(n, target, p);
      ReplacedThere(n, target, Unfold(replacement), p);
    }
    forall p, m | LeadsTo(n, p, m) && ClearOf(n, target, p)
      ensures Within(Unfold(out), p)
      ensures SubtreeAt(Unfold(out), p).kind == m.kind && |SubtreeAt(Unfold(out), p).parts| == |m.parts|
    {
      ReplacedElsewhere(n, target, Unfold(replacement), p, m);
    }
  }

  lemma PositionBelow(n: Node, target: Node, i: nat, p: Position)
    requires Acyclic(n) && i < |n.parts| && p in Positions(n.parts[i], target)
    ensures [i] + p in Positions(n, target)
  {
    PositionsLead(n.parts[i], target, p);
    assert ([i] + p)[1..] == p;
    PositionsLead(n, target, [i] + p);
  }

  lemma NonePartly(n: Node, target: Node, i: nat)
    requires Acyclic(n) && Positions(n, target) == {} && i < |n.parts|
    ensures n != target && Positions(n.parts[i], target) == {}
  {
    if p :| p in Positions(n.parts[i], target) {
      PositionBelow(n, target, i, p);
    }
  }

  /** Where the object does not occur nothing is replaced. */
  lemma {:induction false} NothingReplaced(n: Node, target: Node, tree: Tree)
    requires Acyclic(n) && Positions(n, target) == {}
    ensures Replaced(n, target, tree) == Unfold(n)
    decreases n.height
  {
    forall i | 0 <= i < |n.parts|
      ensures Replaced(n.parts[i], target, tree) == Unfold(n.parts[i])
    {
      NonePartly(n, target, i);
      NothingReplaced(n.parts[i], target, tree);
    }
    assert Replaced(n, target, tree).parts == Unfold(n).parts;
  }

  /** Replacing an object by one of the same value keeps the value of the whole. */
  lemma {:induction false} ReplacedSameValue<V>(n: Node, target: Node, tree: Tree, algebra: Algebra<V>, env: string -> V)
    requires Acyclic(n) && Acyclic(target)
    requires Value(Unfold(target), algebra, env) == Value(tree, algebra, env)
    ensures Value(Replaced(n, target, tree), algebra, env) == Value(Unfold(n), algebra, env)
    decreases n.height
  {
    if n != target && !n.kind.Ref? {
      var t, u := Replaced(n, target, tree), Unfold(n);
      forall i | 0 <= i < |n.parts|
        ensures Value(t.parts[i], algebra, env) == Value(u.parts[i], algebra, env)
      {
        ReplacedSameValue(n.parts[i], target, tree, algebra, env);
      }
      assert seq(|t.parts|, i requires 0 <= i < |t.parts| => Value(t.parts[i], algebra, env)) ==
             seq(|u.parts|, i requires 0 <= i < |u.parts| => Value(u.parts[i], algebra, env));
    }
  }

  /** `out` is `n` with `replacement` for `target`. */
  ghost predicate Rewritten(out: Node, n: Node, target: Node, replacement: Node)
    requires Acyclic(n) && Acyclic(replacement)
  {
    Acyclic(out) && Unfold(out) == Replaced(n, target, Unfold(replacement))
  }

  /** The first `i` parts are rewritten. */
  ghost predicate PartsRewritten(outs: seq<Node>, ns: seq<Node>, target: Node, replacement: Node, i: nat)
    requires (forall n | n in ns :: Acyclic(n)) && Acyclic(replacement)
  {
    |outs| == i <= |ns| && forall j | 0 <= j < i :: Rewritten(outs[j], ns[j], target, replacement)
  }

  lemma WholeRewritten(out: Node, n: Node, target: Node, replacement: Node)
    requires Acyclic(n) && Acyclic(replacement) && n != target
    requires out.kind == n.kind && out.height == Above(out.parts)
    requires PartsRewritten(out.parts, n.parts, target, replacement, |n.parts|)
    ensures Rewritten(out, n, target, replacement)
  {
    assert Acyclic(out);
    assert Unfold(out).parts == Replaced(n, target, Unfold(replacement)).parts;
  }

  /** Replace the object wherever it occurs; count the occurrences by path, and give back
      the original object where there is none. */
  method ReplaceExact(n: Node, target: Node, replacement: Node) returns (out: Node, count: nat)
    requires Acyclic(n) && Acyclic(target) && Acyclic(replacement)
    ensures count == |Positions(n, target)|
    ensures Rewritten(out, n, target, replacement)
    ensures count == 0 ==> out == n
    decreases n.height, 1
  {
    if n == target {
      return replacement, 1;
    }
    var outs;
    outs, count := ReplaceParts(n.parts, n.height, target, replacement);
    if count == 0 {
      NothingReplaced(n, target, Unfold(replacement));
      return n, 0;
    }
    out := new Node(n.kind, outs, Above(outs));
    WholeRewritten(out, n, target, replacement);
  }

  method ReplaceParts(ns: seq<Node>, ghost bound: nat, target: Node, replacement: Node)
    returns (outs: seq<Node>, count: nat)
    requires Acyclic(target) && Acyclic(replacement) && forall n | n in ns :: n.height < bound && Acyclic(n)
    ensures PartsRewritten(outs, ns, target, replacement, |ns|) && count == |PositionsUpTo(ns, bound, target, |ns|)|
    decreases bound, 0
  {
    outs, count := [], 0;
    while |outs| < |ns|
      invariant PartsRewritten(outs, ns, target, replacement, |outs|)
      invariant count == |PositionsUpTo(ns, bound, target, |outs|)|
    {
      var part, c := ReplaceExact(ns[|outs|], target, replacement);
      PositionsAdd(ns, bound, target, |outs| + 1);
      outs, count := outs + [part], count + c;
    }
  }
}
