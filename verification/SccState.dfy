/** The state of the component search, its invariant, and the three moves of a visit. */
module SccState {
  import opened Digraph

  /** The stack and the set of its members, the discovery indices, the nodes whose visit
      is under way, and the components of more than one node found so far. */
  datatype Env = Env(
    stack: seq<Name>, on: set<Name>, indices: map<Name, nat>, active: set<Name>, components: seq<set<Name>>)
  {
    /** Nodes that have been discovered and are no longer on the stack. */
    ghost function Done(): set<Name> {
      indices.Keys - on
    }
  }

  function Members(s: seq<Name>): set<Name> {
    set x | x in s
  }

  ghost predicate Distinct(s: seq<Name>) {
    forall i, j | 0 <= i < j < |s| :: s[i] != s[j]
  }

  ghost predicate Shape(g: Graph, e: Env) {
    e.on == Members(e.stack) && Distinct(e.stack) && e.on <= e.indices.Keys <= g.Keys && e.active <= e.on
  }

  /** All successors of finished nodes are discovered, and nothing leads out of the nodes
      that have left the stack. */
  ghost predicate Explored(g: Graph, e: Env) {
    (forall v, u | v in e.indices && v !in e.active && Edge(g, v, u) :: u in e.indices) &&
    ClosedUnder(g, e.Done())
  }

  /** A node under way reaches everything discovered after it and still on the stack. */
  ghost predicate Forward(g: Graph, e: Env) {
    forall a, y {:trigger Reach(g, a, y)} | a in e.active && y in e.on && a in e.indices && y in e.indices &&
      e.indices[a] <= e.indices[y] :: Reach(g, a, y)
  }

  /** `y` reaches a node under way that was discovered no later. */
  ghost predicate ReachesBack(g: Graph, e: Env, y: Name) {
    exists a :: a in e.active && a in e.indices && y in e.indices && e.indices[a] <= e.indices[y] && Reach(g, y, a)
  }

  ghost predicate Backward(g: Graph, e: Env) {
    forall y {:trigger ReachesBack(g, e, y)} | y in e.on :: ReachesBack(g, e, y)
  }

  /** Two nodes lie together in a component that has been reported. */
  ghost predicate Together(components: seq<set<Name>>, a: Name, b: Name) {
    exists c :: c in components && a in c && b in c
  }

  /** The reported components are exactly those of more than one node among the nodes
      that have left the stack, each once. */
  ghost predicate Found(g: Graph, e: Env) {
    && (forall c | c in e.components :: IsScc(g, c) && |c| > 1 && c <= e.Done())
    && (forall i, j | 0 <= i < j < |e.components| :: e.components[i] !! e.components[j])
    && (forall a, b {:trigger Together(e.components, a, b)} | a in e.Done() && Mutual(g, a, b) && a != b ::
          Together(e.components, a, b))
  }

  ghost predicate Inv(g: Graph, e: Env) {
    Shape(g, e) && Explored(g, e) && Forward(g, e) && Backward(g, e) && Found(g, e)
  }

  // ------------------------------------------------------------- discovery

  function Pushed(e: Env, x: Name, index: nat): Env {
    e.(stack := e.stack + [x], on := e.on + {x}, indices := e.indices[x := index], active := e.active + {x})
  }

  lemma PushKeeps(g: Graph, e: Env, x: Name, index: nat)
    requires Inv(g, e) && x in g && x !in e.indices
    requires forall v | v in e.indices :: e.indices[v] < index
    requires forall a | a in e.active :: Reach(g, a, x)
    ensures Inv(g, Pushed(e, x, index))
  {
    var n := Pushed(e, x, index);
    assert n.Done() == e.Done();
    ReachSelf(g, x);
    assert Shape(g, n);
    assert Explored(g, n);
    assert Forward(g, n);
    forall y | y in n.on
      ensures ReachesBack(g, n, y)
    {
      if y == x {
        assert x in n.active;
      } else {
        assert ReachesBack(g, e, y);
        var a :| a in e.active && a in e.indices && e.indices[a] <= e.indices[y] && Reach(g, y, a);
        assert a in n.active && n.indices[a] <= n.indices[y];
      }
    }
    assert Found(g, n);
  }

  // ------------------------------------------------- finishing on the stack

  /** Whatever is on the stack still reaches back once `x` is no longer under way. */
  lemma FinishReachesBack(g: Graph, e: Env, x: Name, z: Name, y: Name)
    requires Backward(g, e) && x in e.active && x in e.indices && y in e.on
    requires z in e.on && z in e.indices && e.indices[z] < e.indices[x] && Reach(g, x, z)
    ensures ReachesBack(g, e.(active := e.active - {x}), y)
  {
    var n := e.(active := e.active - {x});
    assert ReachesBack(g, e, y);
    var a :| a in e.active && a in e.indices && y in e.indices && e.indices[a] <= e.indices[y] && Reach(g, y, a);
    if a != x {
      assert a in n.active;
    } else {
      assert ReachesBack(g, e, z);
      var b :| b in e.active && b in e.indices && e.indices[b] <= e.indices[z] && Reach(g, z, b);
      ReachTransitive(g, y, x, z);
      ReachTransitive(g, y, z, b);
      assert b in n.active;
    }
  }

  /** The visit of `x` ends with `x` still on the stack: it reaches an older node there. */
  lemma FinishKeeps(g: Graph, e: Env, x: Name, z: Name)
    requires Inv(g, e) && x in e.active
    requires forall u | Edge(g, x, u) :: u in e.indices
    requires z in e.on && e.indices[z] < e.indices[x] && Reach(g, x, z)
    ensures Inv(g, e.(active := e.active - {x}))
  {
    var n := e.(active := e.active - {x});
    forall y | y in n.on
      ensures ReachesBack(g, n, y)
    {
      FinishReachesBack(g, e, x, z, y);
    }
    assert Forward(g, n);
    FinishFrame(g, e, x);
  }

  lemma FinishFrame(g: Graph, e: Env, x: Name)
    requires Shape(g, e) && Explored(g, e) && Found(g, e) && forall u | Edge(g, x, u) :: u in e.indices
    ensures var n := e.(active := e.active - {x}); Shape(g, n) && Explored(g, n) && Found(g, n)
  {
    assert e.(active := e.active - {x}).Done() == e.Done();
  }

  // --------------------------------------------------- leaving the stack

  /** The nodes discovered since `x`, with `x`, found to have no edge to an older node on
      the stack.  `base` are the nodes that were on the stack before `x`. */
  ghost predicate Root(g: Graph, e: Env, base: set<Name>, x: Name) {
    && x in e.active && x in e.on && x in e.indices && x !in base && base <= e.on && e.active - {x} <= base
    && (forall u | u in base :: u in e.indices && e.indices[u] < e.indices[x])
    && (forall v | v in e.on - base :: v in e.indices && e.indices[v] >= e.indices[x])
    && (forall u | Edge(g, x, u) :: u in e.indices)
    && (forall v, u | v in e.on - base && u in base :: !Edge(g, v, u))
  }

  lemma RootCloses(g: Graph, e: Env, base: set<Name>, x: Name)
    requires Inv(g, e) && Root(g, e, base, x)
    ensures ClosedUnder(g, (e.on - base) + e.Done())
  {
    var s := (e.on - base) + e.Done();
    forall v, u | v in s && Edge(g, v, u)
      ensures u in s
    {
      assert v in e.indices;
      assert u in e.indices;
    }
  }

  lemma RootReachesBack(g: Graph, e: Env, base: set<Name>, x: Name, y: Name)
    requires Inv(g, e) && Root(g, e, base, x) && y in e.on - base
    ensures Mutual(g, x, y)
  {
    RootCloses(g, e, base, x);
    assert ReachesBack(g, e, y);
    var a :| a in e.active && a in e.indices && e.indices[a] <= e.indices[y] && Reach(g, y, a);
    ReachStays(g, (e.on - base) + e.Done(), y, a);
    assert a == x;
  }

  /** They form a component. */
  lemma RootIsScc(g: Graph, e: Env, base: set<Name>, x: Name)
    requires Inv(g, e) && Root(g, e, base, x)
    ensures IsScc(g, e.on - base)
  {
    var c := e.on - base;
    forall a, b | a in c
      ensures b in c <==> Mutual(g, a, b)
    {
      if b in c {
        RootReachesBack(g, e, base, x, a);
        RootReachesBack(g, e, base, x, b);
        ReachTransitive(g, a, x, b);
        ReachTransitive(g, b, x, a);
      }
      if Mutual(g, a, b) {
        RootCloses(g, e, base, x);
        ReachStays(g, c + e.Done(), a, b);
        if b in e.Done() {
          ReachStays(g, e.Done(), b, a);
        }
      }
    }
    assert x in c;
  }

  function Popped(e: Env, rest: seq<Name>, base: set<Name>, x: Name): Env {
    var c := e.on - base;
    Env(rest, base, e.indices, e.active - {x}, if |c| > 1 then e.components + [c] else e.components)
  }

  lemma PopKeeps(g: Graph, e: Env, rest: seq<Name>, base: set<Name>, x: Name)
    requires Inv(g, e) && Root(g, e, base, x) && base == Members(rest) && Distinct(rest)
    ensures Inv(g, Popped(e, rest, base, x))
  {
    var n := Popped(e, rest, base, x);
    RootCloses(g, e, base, x);
    assert n.Done() == (e.on - base) + e.Done();
    assert Shape(g, n);
    assert Explored(g, n);
    forall y | y in n.on
      ensures ReachesBack(g, n, y)
    {
      assert ReachesBack(g, e, y);
      var a :| a in e.active && a in e.indices && e.indices[a] <= e.indices[y] && Reach(g, y, a);
      assert a in n.active;
    }
    PopFinds(g, e, rest, base, x);
  }

  lemma TwoMembers(c: set<Name>, a: Name, b: Name)
    requires a in c && b in c && a != b
    ensures |c| > 1
  {
    assert |c| == |c - {a}| + 1 && b in c - {a};
  }

  lemma PopReports(g: Graph, e: Env, rest: seq<Name>, base: set<Name>, x: Name)
    requires Found(g, e) && IsScc(g, e.on - base) && e.on <= e.indices.Keys && base <= e.on
    ensures var n := Popped(e, rest, base, x);
      && (forall c | c in n.components :: IsScc(g, c) && |c| > 1 && c <= n.Done())
      && (forall i, j | 0 <= i < j < |n.components| :: n.components[i] !! n.components[j])
  {
    var n, c := Popped(e, rest, base, x), e.on - base;
    assert n.Done() == c + e.Done();
    forall i, j | 0 <= i < j < |n.components|
      ensures n.components[i] !! n.components[j]
    {
      if j == |e.components| {
        assert e.components[i] in e.components;
      }
    }
  }

  lemma PopTogether(g: Graph, e: Env, rest: seq<Name>, base: set<Name>, x: Name, a: Name, b: Name)
    requires Found(g, e) && IsScc(g, e.on - base) && base <= e.on
    requires a in Popped(e, rest, base, x).Done() && Mutual(g, a, b) && a != b
    ensures Together(Popped(e, rest, base, x).components, a, b)
  {
    var n, c := Popped(e, rest, base, x), e.on - base;
    if a in c {
      TwoMembers(c, a, b);
      assert c in n.components;
    } else {
      assert a in e.Done();
      assert Together(e.components, a, b);
      var d :| d in e.components && a in d && b in d;
      assert d in n.components;
    }
  }

  lemma PopFinds(g: Graph, e: Env, rest: seq<Name>, base: set<Name>, x: Name)
    requires Inv(g, e) && Root(g, e, base, x)
    ensures Found(g, Popped(e, rest, base, x))
  {
    var n := Popped(e, rest, base, x);
    RootIsScc(g, e, base, x);
    PopReports(g, e, rest, base, x);
    forall a, b | a in n.Done() && Mutual(g, a, b) && a != b
      ensures Together(n.components, a, b)
    {
      PopTogether(g, e, rest, base, x, a, b);
    }
  }
}
