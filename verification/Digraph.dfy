/** Finite directed graphs of named modules, and reachability in them. */
module Digraph {

  type Name = string

  /** Successors may name modules outside the graph; those are ignored. */
  type Graph = map<Name, set<Name>>

  predicate Edge(g: Graph, a: Name, b: Name) {
    a in g && b in g && b in g[a]
  }

  /** `b` can be reached from `a` in `n` steps. */
  ghost predicate Steps(g: Graph, a: Name, b: Name, n: nat)
    decreases n
  {
    if n == 0 then a == b && a in g else exists c :: Edge(g, a, c) && Steps(g, c, b, n - 1)
  }

  ghost predicate Reach(g: Graph, a: Name, b: Name) {
    exists n: nat :: Steps(g, a, b, n)
  }

  ghost predicate Mutual(g: Graph, a: Name, b: Name) {
    Reach(g, a, b) && Reach(g, b, a)
  }

  /** A strongly connected component: a maximal set of mutually reachable modules. */
  ghost predicate IsScc(g: Graph, c: set<Name>) {
    c != {} && c <= g.Keys && forall a, b {:trigger Mutual(g, a, b)} | a in c :: b in c <==> Mutual(g, a, b)
  }

  lemma ReachSelf(g: Graph, a: Name)
    requires a in g
    ensures Reach(g, a, a)
  {
    assert Steps(g, a, a, 0);
  }

  lemma ReachEdge(g: Graph, a: Name, b: Name)
    requires Edge(g, a, b)
    ensures Reach(g, a, b)
  {
    assert Steps(g, b, b, 0);
    assert Steps(g, a, b, 1);
  }

  lemma {:induction false} StepsAppend(g: Graph, a: Name, b: Name, c: Name, n: nat, m: nat)
    requires Steps(g, a, b, n) && Steps(g, b, c, m)
    ensures Steps(g, a, c, n + m)
    decreases n
  {
    if n > 0 {
      var d :| Edge(g, a, d) && Steps(g, d, b, n - 1);
      StepsAppend(g, d, b, c, n - 1, m);
    }
  }

  lemma ReachTransitive(g: Graph, a: Name, b: Name, c: Name)
    requires Reach(g, a, b) && Reach(g, b, c)
    ensures Reach(g, a, c)
  {
    var n: nat :| Steps(g, a, b, n);
    var m: nat :| Steps(g, b, c, m);
    StepsAppend(g, a, b, c, n, m);
  }

  ghost predicate ClosedUnder(g: Graph, s: set<Name>) {
    forall a, b | a in s && Edge(g, a, b) :: b in s
  }

  lemma {:induction false} StepsStay(g: Graph, s: set<Name>, a: Name, b: Name, n: nat)
    requires ClosedUnder(g, s) && a in s && Steps(g, a, b, n)
    ensures b in s
    decreases n
  {
    if n > 0 {
      var c :| Edge(g, a, c) && Steps(g, c, b, n - 1);
      StepsStay(g, s, c, b, n - 1);
    }
  }

  /** Nothing outside a closed set is reached from inside it. */
  lemma ReachStays(g: Graph, s: set<Name>, a: Name, b: Name)
    requires ClosedUnder(g, s) && a in s && Reach(g, a, b)
    ensures b in s
  {
    var n: nat :| Steps(g, a, b, n);
    StepsStay(g, s, a, b, n);
  }
}
