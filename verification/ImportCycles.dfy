/** The import cycles of a module graph: its components of more than one module. */
module ImportCycles {
  import opened Digraph
  import opened SccState
  import opened StronglyConnected

  lemma NothingToReach(g: Graph, e: Env, y: Name)
    requires e.active == {}
    ensures !ReachesBack(g, e, y)
  {
  }

  lemma MembersOfNonEmpty(s: seq<Name>)
    requires s != []
    ensures Members(s) != {}
  {
    assert s[0] in Members(s);
  }

  /** With nothing under way the stack is empty and everything discovered has left it. */
  lemma IdleStackEmpty(g: Graph, e: Env)
    requires Inv(g, e) && e.active == {}
    ensures e.stack == [] && e.on == {} && e.Done() == e.indices.Keys
  {
    forall y
      ensures y !in e.on
    {
      NothingToReach(g, e, y);
    }
    if e.stack != [] {
      MembersOfNonEmpty(e.stack);
    }
  }

  lemma {:induction false} ReachInGraph(g: Graph, a: Name, b: Name, n: nat)
    requires Steps(g, a, b, n)
    ensures a in g
  {
  }

  lemma SccUnique(g: Graph, c: set<Name>, d: set<Name>, a: Name)
    requires IsScc(g, c) && IsScc(g, d) && a in c && a in d
    ensures c == d
  {
    forall b
      ensures b in c <==> b in d
    {
      assert b in c <==> Mutual(g, a, b);
    }
  }

  /** When every module has left the stack the reported components are exactly the
      strongly connected components of more than one module. */
  lemma FoundIsAll(g: Graph, e: Env, c: set<Name>)
    requires Inv(g, e) && e.Done() == g.Keys
    ensures c in e.components <==> IsScc(g, c) && |c| > 1
  {
    if IsScc(g, c) && |c| > 1 {
      var a :| a in c;
      assert |c - {a}| == |c| - 1;
      var b :| b in c - {a};
      assert Mutual(g, a, b);
      assert Together(e.components, a, b);
      var d :| d in e.components && a in d && b in d;
      SccUnique(g, c, d, a);
    }
  }

  /** Visit every module not yet discovered, in any order. */
  method FindCycles(graph: Graph) returns (components: seq<set<Name>>)
    ensures forall c :: c in components <==> IsScc(graph, c) && |c| > 1
    ensures forall i, j | 0 <= i < j < |components| :: components[i] !! components[j]
  {
    var search := new Search(graph);
    var todo := graph.Keys;
    while todo != {}
      invariant search.Valid() && search.graph == graph && search.active == {}
      invariant todo <= graph.Keys && graph.Keys - todo <= search.indices.Keys
      invariant fresh(search)
      decreases |todo|
    {
      var node :| node in todo;
      if node !in search.indices {
        search.Visit(node);
      }
      todo := todo - {node};
    }
    components := search.components;
    IdleStackEmpty(graph, search.State());
    forall c
      ensures c in components <==> IsScc(graph, c) && |c| > 1
    {
      FoundIsAll(graph, search.State(), c);
    }
  }

  /** An import has both of its ends in a reported component exactly when it lies on a cycle
      through another module: a module that imports itself, and is on no longer cycle, is not
      reported. */
  lemma OnCycleReported(g: Graph, components: seq<set<Name>>, a: Name, b: Name)
    requires forall c :: c in components <==> IsScc(g, c) && |c| > 1
    requires Edge(g, a, b)
    ensures Together(components, a, b) <==> Reach(g, b, a) && exists c :: c != a && c in g && Mutual(g, a, c)
    ensures a != b ==> (Together(components, a, b) <==> Reach(g, b, a))
  {
    ReachEdge(g, a, b);
    if c :| c != a && c in g && Mutual(g, a, c) && Reach(g, b, a) {
      var component := set x | x in g && Mutual(g, a, x);
      ComponentOf(g, a);
      TwoMembers(component, a, c);
      assert component in components && b in component;
    }
    if Together(components, a, b) {
      var c :| c in components && a in c && b in c;
      assert Mutual(g, a, b);
      var other := OtherMember(c, a);
      assert Mutual(g, a, other);
    }
  }

  lemma OtherMember(c: set<Name>, a: Name) returns (other: Name)
    requires |c| > 1 && a in c
    ensures other in c && other != a
  {
    assert |c - {a}| > 0;
    other :| other in c - {a};
  }

  lemma ComponentOf(g: Graph, a: Name)
    requires a in g
    ensures IsScc(g, set x | x in g && Mutual(g, a, x))
    ensures a in (set x | x in g && Mutual(g, a, x))
  {
    var c := set x | x in g && Mutual(g, a, x);
    ReachSelf(g, a);
    assert a in c;
    forall x, y | x in c
      ensures y in c <==> Mutual(g, x, y)
    {
      if Mutual(g, x, y) {
        ReachTransitive(g, a, x, y);
        ReachTransitive(g, y, x, a);
        assert Mutual(g, a, y);
        var n: nat :| Steps(g, y, x, n);
        ReachInGraph(g, y, x, n);
      } else if y in c {
        ReachTransitive(g, x, a, y);
        ReachTransitive(g, y, a, x);
      }
    }
  }
}
