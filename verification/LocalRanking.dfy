/** Which local bindings can be ranked: those that form no cycle of references. */
module LocalRanking {
  import opened ExpressionGraph
  import opened LocalInlining
  import opened Dependencies

  /** The name is referred to somewhere in `n`. */
  ghost predicate Mentions(n: Node, x: string)
    requires Acyclic(n)
    decreases n.height
  {
    (n.kind.Ref? && n.kind.name == x) || exists p | p in n.parts :: Mentions(p, x)
  }

  ghost predicate AllAcyclic(locals: Locals) {
    forall x | x in locals :: Acyclic(locals[x])
  }

  /** The locals that each local refers to. */
  ghost function RefersTo(locals: Locals): Table<string>
    requires AllAcyclic(locals)
  {
    map x | x in locals :: set y | y in locals && Mentions(locals[x], y)
  }

  /** Some local refers to itself, directly or by way of others. */
  ghost predicate ReferenceCycle(locals: Locals)
    requires AllAcyclic(locals)
  {
    exists x, m: nat :: x in locals && m > 0 && Leads(RefersTo(locals), x, x, m)
  }

  /** A level is above the ranks of all locals mentioned, and no higher than need be. */
  lemma {:induction false} LevelAbove(locals: Locals, rank: Ranks, n: Node, x: string)
    requires Acyclic(n) && locals.Keys <= rank.Keys && x in locals && Mentions(n, x)
    ensures rank[x] < Level(locals, rank, n)
    decreases n.height
  {
    if !(n.kind.Ref? && n.kind.name == x) {
      var p :| p in n.parts && Mentions(p, x);
      LevelAbove(locals, rank, p, x);
    }
  }

  lemma {:induction false} LevelWithin(locals: Locals, rank: Ranks, n: Node, bound: nat)
    requires Acyclic(n) && locals.Keys <= rank.Keys
    requires forall x | x in locals && Mentions(n, x) :: rank[x] < bound
    ensures Level(locals, rank, n) <= bound
    decreases n.height, 1
  {
    LevelOfAllWithin(locals, rank, n.parts, n.height, bound);
    if IsLocal(locals, n) {
      assert Mentions(n, n.kind.name);
    }
  }

  lemma {:induction false} LevelOfAllWithin(locals: Locals, rank: Ranks, ns: seq<Node>, height: nat, bound: nat)
    requires locals.Keys <= rank.Keys && forall n | n in ns :: n.height < height && Acyclic(n)
    requires forall n, x | n in ns && x in locals && Mentions(n, x) :: rank[x] < bound
    ensures LevelOfAll(locals, rank, ns, height) <= bound
    decreases height, 0, |ns|
  {
    if ns != [] {
      LevelWithin(locals, rank, ns[0], bound);
      LevelOfAllWithin(locals, rank, ns[1..], height, bound);
    }
  }

  lemma {:induction false} RankFalls(locals: Locals, rank: Ranks, x: string, y: string, m: nat)
    requires AllAcyclic(locals) && Ranked(locals, rank) && x in locals && y in locals && m > 0
    requires Leads(RefersTo(locals), x, y, m)
    ensures rank[y] < rank[x]
    decreases m
  {
    var z :| z in RefersTo(locals)[x] && Leads(RefersTo(locals), z, y, m - 1);
    LevelAbove(locals, rank, locals[x], z);
    if m > 1 {
      RankFalls(locals, rank, z, y, m - 1);
    }
  }

  /** The rank is the depth of the local among the references. */
  ghost predicate ByDepth(t: Table<string>, x: string, r: nat) {
    exists n: nat :: Grounded(t, x, n) && r == Depth(t, x, n)
  }

  /** Where there is no cycle, depths are ranks. */
  lemma DepthsRank(locals: Locals, rank: Ranks)
    requires AllAcyclic(locals) && rank.Keys == locals.Keys
    requires forall x | x in locals :: ByDepth(RefersTo(locals), x, rank[x])
    ensures Ranked(locals, rank)
  {
    var t := RefersTo(locals);
    forall x | x in locals
      ensures Level(locals, rank, locals[x]) <= rank[x]
    {
      forall y | y in locals && Mentions(locals[x], y)
        ensures rank[y] < rank[x]
      {
        assert ByDepth(t, x, rank[x]) && ByDepth(t, y, rank[y]);
        var n: nat :| Grounded(t, x, n) && rank[x] == Depth(t, x, n);
        var m: nat :| Grounded(t, y, m) && rank[y] == Depth(t, y, m);
        DepthFalls(t, x, y, n, m);
      }
      LevelWithin(locals, rank, locals[x], rank[x]);
    }
  }

  /** Local bindings can be ranked exactly when they have no cycle of references. */
  lemma RankedIffAcyclic(locals: Locals)
    requires AllAcyclic(locals)
    ensures (exists rank :: Ranked(locals, rank)) <==> !ReferenceCycle(locals)
  {
    var t := RefersTo(locals);
    if ReferenceCycle(locals) {
      var x, m: nat :| x in locals && m > 0 && Leads(t, x, x, m);
      forall rank: Ranks
        ensures !Ranked(locals, rank)
      {
        if Ranked(locals, rank) {
          RankFalls(locals, rank, x, x, m);
        }
      }
    } else {
      forall x | x in locals
        ensures Grounded(t, x, |t.Keys|)
      {
        GroundedIffAcyclic(t, x);
      }
      var n: nat := |t.Keys|;
      var rank := map x | x in locals :: Depth(t, x, n);
      forall x | x in locals
        ensures ByDepth(t, x, rank[x])
      {
        assert Grounded(t, x, n) && rank[x] == Depth(t, x, n);
      }
      assert rank.Keys == locals.Keys;
      DepthsRank(locals, rank);
    }
  }
}
