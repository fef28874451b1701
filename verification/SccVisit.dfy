/** What one visit of the component search promises, and how its parts combine. */
module SccVisit {
  import opened Digraph
  import opened SccState

  /** Indices already given stay as they are, and what has left the stack stays off it. */
  ghost predicate Discovers(e: Env, f: Env) {
    (forall v | v in e.indices :: v in f.indices && f.indices[v] == e.indices[v]) &&
    (forall v | v in e.indices && v !in e.on :: v !in f.on)
  }

  /** Some node on the stack that `x` reaches has the index `low`. */
  ghost predicate Witness(g: Graph, e: Env, x: Name, low: nat) {
    exists z :: z in e.on && z in e.indices && e.indices[z] == low && Reach(g, x, z)
  }

  /** No edge out of the nodes added to the stack leads to a node of `base` below `low`. */
  ghost predicate Bounded(g: Graph, e: Env, added: set<Name>, base: set<Name>, low: nat) {
    forall v, u | v in added && u in base && Edge(g, v, u) :: u in e.indices && low <= e.indices[u]
  }

  /** `f` is the state after a visit of `x` that began in `e` with index `start` and ended
      with lowlink `low`. */
  ghost predicate Returns(g: Graph, e: Env, f: Env, x: Name, start: nat, low: nat) {
    && Inv(g, f) && Discovers(e, f) && f.active == e.active
    && e.stack <= f.stack && e.on <= f.on
    && (forall v | v in f.indices && v !in e.indices :: start <= f.indices[v])
    && x in f.indices && low <= f.indices[x]
    && (x in f.on ==> Witness(g, f, x, low)) && (x !in f.on ==> low == f.indices[x])
    && Bounded(g, f, f.on - e.on, e.on, low)
  }

  /** `f` is the state of the visit of `x` while the successors in `todo` are still to be
      looked at; `low` is the lowlink so far. */
  ghost predicate Scanning(g: Graph, e: Env, f: Env, x: Name, start: nat, low: nat, todo: set<Name>) {
    && Inv(g, f) && Discovers(e, f) && f.active == e.active + {x}
    && e.stack + [x] <= f.stack && e.on <= f.on && x !in e.on && x !in e.indices && e.on <= e.indices.Keys
    && e.on == Members(e.stack)
    && x in f.on && x in f.indices && f.indices[x] == start
    && (forall v | v in f.indices && v !in e.indices :: start <= f.indices[v])
    && (forall u | u in e.indices :: e.indices[u] < start)
    && low <= start && Witness(g, f, x, low)
    && Bounded(g, f, f.on - e.on - {x}, e.on, low)
    && (forall u | Edge(g, x, u) && u !in todo :: u in f.indices && (u in e.on ==> low <= f.indices[u]))
    && (forall a | a in f.active :: Reach(g, a, x))
  }

  lemma ScanStarts(g: Graph, e: Env, x: Name, start: nat)
    requires Inv(g, e) && x in g && x !in e.indices
    requires forall v | v in e.indices :: e.indices[v] < start
    requires forall a | a in e.active :: Reach(g, a, x)
    ensures Scanning(g, e, Pushed(e, x, start), x, start, start, g[x])
  {
    PushKeeps(g, e, x, start);
    ReachSelf(g, x);
  }

  /** A successor outside the graph, or one that has left the stack, changes nothing. */
  lemma ScanSkips(g: Graph, e: Env, f: Env, x: Name, start: nat, low: nat, todo: set<Name>, c: Name)
    requires Scanning(g, e, f, x, start, low, todo)
    requires c !in g || (c in f.indices && c !in f.on)
    ensures Scanning(g, e, f, x, start, low, todo - {c})
  {
  }

  function Min(a: nat, b: nat): nat {
    if b < a then b else a
  }

  /** A successor on the stack lowers the lowlink to its index. */
  lemma ScanMeets(g: Graph, e: Env, f: Env, x: Name, start: nat, low: nat, todo: set<Name>, c: Name)
    requires Scanning(g, e, f, x, start, low, todo) && c in g && Edge(g, x, c) && c in f.indices && c in f.on
    ensures Scanning(g, e, f, x, start, Min(low, f.indices[c]), todo - {c})
  {
    ReachEdge(g, x, c);
  }

  /** A successor may be visited. */
  lemma ScanDescends(g: Graph, e: Env, f: Env, x: Name, start: nat, low: nat, todo: set<Name>, c: Name)
    requires Scanning(g, e, f, x, start, low, todo) && Edge(g, x, c)
    ensures forall a | a in f.active :: Reach(g, a, c)
  {
    ReachEdge(g, x, c);
    forall a | a in f.active
      ensures Reach(g, a, c)
    {
      ReachTransitive(g, a, x, c);
    }
  }

  /** After the visit of a new successor, whose lowlink is `lowc`. */
  lemma ScanReturns(g: Graph, e: Env, f: Env, h: Env, x: Name, start: nat, low: nat, todo: set<Name>,
                    c: Name, next: nat, lowc: nat)
    requires Scanning(g, e, f, x, start, low, todo) && Edge(g, x, c)
    requires start < next && Returns(g, f, h, c, next, lowc) && c !in f.indices
    ensures Scanning(g, e, h, x, start, Min(low, lowc), todo - {c})
  {
    ReturnWitness(g, e, f, h, x, start, low, todo, c, next, lowc);
    var l := Min(low, lowc);
    forall v, u | v in h.on - e.on - {x} && u in e.on && Edge(g, v, u)
      ensures u in h.indices && l <= h.indices[u]
    {
      assert u in f.indices && h.indices[u] == f.indices[u];
    }
  }

  lemma ReturnWitness(g: Graph, e: Env, f: Env, h: Env, x: Name, start: nat, low: nat, todo: set<Name>,
                      c: Name, next: nat, lowc: nat)
    requires Scanning(g, e, f, x, start, low, todo) && Edge(g, x, c)
    requires start < next && Returns(g, f, h, c, next, lowc) && c !in f.indices
    ensures Witness(g, h, x, Min(low, lowc))
  {
    if lowc < low {
      assert c in h.on;
      var z :| z in h.on && z in h.indices && h.indices[z] == lowc && Reach(g, c, z);
      ReachEdge(g, x, c);
      ReachTransitive(g, x, c, z);
    } else {
      var z :| z in f.on && z in f.indices && f.indices[z] == low && Reach(g, x, z);
      assert z in h.on && h.indices[z] == low;
    }
  }

  /** All successors seen and an older node reached: `x` stays on the stack. */
  lemma ScanStays(g: Graph, e: Env, f: Env, x: Name, start: nat, low: nat)
    requires Scanning(g, e, f, x, start, low, {}) && low < start && x !in e.active
    ensures Returns(g, e, f.(active := f.active - {x}), x, start, low)
  {
    var z :| z in f.on && z in f.indices && f.indices[z] == low && Reach(g, x, z);
    FinishKeeps(g, f, x, z);
    assert f.active - {x} == e.active;
    assert Witness(g, f.(active := f.active - {x}), x, low);
  }

  /** All successors seen and no older node reached: `x` is the root of a component. */
  lemma ScanPops(g: Graph, e: Env, f: Env, x: Name, start: nat, low: nat)
    requires Scanning(g, e, f, x, start, low, {}) && low == start && Inv(g, e)
    ensures Returns(g, e, Popped(f, e.stack, e.on, x), x, start, low)
  {
    assert Root(g, f, e.on, x) by {
      forall v | v in f.on - e.on
        ensures v in f.indices && f.indices[v] >= f.indices[x]
      {
        OnlyNew(g, e, f, v);
      }
    }
    PopKeeps(g, f, e.stack, e.on, x);
    assert f.active - {x} == e.active;
  }

  /** What has come onto the stack is newly discovered. */
  lemma OnlyNew(g: Graph, e: Env, f: Env, v: Name)
    requires Inv(g, e) && Inv(g, f) && Discovers(e, f) && v in f.on - e.on
    ensures v !in e.indices
  {
  }
}
