/** The search for import cycles: Tarjan's algorithm over mutable indices, lowlinks and
    stack. */
module StronglyConnected {
  import opened Digraph
  import opened SccState
  import opened SccVisit

  class Search {
    const graph: Graph
    var index: nat
    var stack: seq<Name>
    var onStack: set<Name>
    var indices: map<Name, nat>
    var lowlinks: map<Name, nat>
    var components: seq<set<Name>>
    /** The nodes whose visit is under way. */
    ghost var active: set<Name>

    ghost function State(): Env
      reads this
    {
      Env(stack, onStack, indices, active, components)
    }

    ghost predicate Valid()
      reads this
    {
      Inv(graph, State()) && (forall v | v in indices :: indices[v] < index) && lowlinks.Keys == indices.Keys
    }

    constructor (graph: Graph)
      ensures Valid() && this.graph == graph && State() == Env([], {}, map[], {}, [])
    {
      this.graph := graph;
      index, stack, onStack, indices, lowlinks, components, active := 0, [], {}, map[], map[], [], {};
    }

    /** Lowlinks of the given nodes are as they were. */
    ghost predicate Frozen(links: map<Name, nat>)
      reads this
    {
      forall v | v in links :: v in lowlinks && lowlinks[v] == links[v]
    }

    method Visit(node: Name)
      requires Valid() && node in graph && node !in indices
      requires forall a | a in active :: Reach(graph, a, node)
      modifies this
      ensures Valid() && index > old(index) && node in lowlinks
      ensures Returns(graph, old(State()), State(), node, old(index), lowlinks[node])
      ensures Frozen(old(lowlinks))
      decreases graph.Keys - indices.Keys, 0
    {
      ghost var e, start := State(), index;
      Discover(node);
      LookAtAll(node, e, start);
      Finish(node, e, start);
    }

    /** Give a node its index and put it on the stack. */
    method Discover(node: Name)
      requires Valid() && node in graph && node !in indices
      requires forall a | a in active :: Reach(graph, a, node)
      modifies this
      ensures Valid() && index > old(index) && node in lowlinks && node in indices
      ensures Scanning(graph, old(State()), State(), node, old(index), lowlinks[node], graph[node])
      ensures lowlinks == old(lowlinks)[node := old(index)]
      ensures node !in old(indices) && indices.Keys == old(indices).Keys + {node}
    {
      ghost var pushed := Pushed(State(), node, index);
      ScanStarts(graph, State(), node, index);
      indices := indices[node := index];
      lowlinks := lowlinks[node := index];
      index := index + 1;
      stack := stack + [node];
      onStack := onStack + {node};
      active := active + {node};
      assert State() == pushed;
    }

    /** Look at all successors, in any order. */
    method LookAtAll(node: Name, ghost e: Env, ghost start: nat)
      requires Valid() && index > start && node in graph && node in lowlinks && node in indices
      requires Scanning(graph, e, State(), node, start, lowlinks[node], graph[node])
      modifies this
      ensures Valid() && index > start && node in lowlinks
      ensures Scanning(graph, e, State(), node, start, lowlinks[node], {})
      ensures FrozenBut(node, old(lowlinks))
      decreases graph.Keys - indices.Keys, 4
    {
      var todo := graph[node];
      while todo != {}
        invariant Valid() && index > start && node in lowlinks && node in indices && todo <= graph[node]
        invariant Scanning(graph, e, State(), node, start, lowlinks[node], todo)
        invariant FrozenBut(node, old(lowlinks)) && old(indices).Keys <= indices.Keys
        decreases |todo|
      {
        var child :| child in todo;
        LookAt(node, child, e, start, todo);
        todo := todo - {child};
      }
    }

    ghost predicate FrozenBut(node: Name, links: map<Name, nat>)
      reads this
    {
      forall v | v in links && v != node :: v in lowlinks && lowlinks[v] == links[v]
    }

    /** One successor of the node being visited. */
    method LookAt(node: Name, child: Name, ghost e: Env, ghost start: nat, ghost todo: set<Name>)
      requires Valid() && index > start && node in graph && node in lowlinks && node in indices
      requires child in todo && todo <= graph[node]
      requires Scanning(graph, e, State(), node, start, lowlinks[node], todo)
      modifies this
      ensures Valid() && index > start && node in lowlinks && node in indices
      ensures Scanning(graph, e, State(), node, start, lowlinks[node], todo - {child})
      ensures FrozenBut(node, old(lowlinks)) && old(indices).Keys <= indices.Keys
      decreases graph.Keys - indices.Keys, 3
    {
      if child !in graph {
        ScanSkips(graph, e, State(), node, start, lowlinks[node], todo, child);
      } else if child !in indices {
        Follow(node, child, e, start, todo);
      } else if child in onStack {
        ScanMeets(graph, e, State(), node, start, lowlinks[node], todo, child);
        Lower(node, indices[child]);
      } else {
        ScanSkips(graph, e, State(), node, start, lowlinks[node], todo, child);
      }
    }

    /** Visit a new successor and take over its lowlink. */
    method Follow(node: Name, child: Name, ghost e: Env, ghost start: nat, ghost todo: set<Name>)
      requires Valid() && index > start && node in lowlinks && node in indices
      requires Edge(graph, node, child) && child in todo && child !in indices
      requires Scanning(graph, e, State(), node, start, lowlinks[node], todo)
      modifies this
      ensures Valid() && index > start && node in lowlinks && node in indices
      ensures Scanning(graph, e, State(), node, start, lowlinks[node], todo - {child})
      ensures FrozenBut(node, old(lowlinks)) && old(indices).Keys <= indices.Keys
      decreases graph.Keys - indices.Keys, 2
    {
      Descend(node, child, e, start, todo);
      Lower(node, lowlinks[child]);
    }

    /** Visit a new successor; the lowlink of `node` is then due to take over its lowlink. */
    method Descend(node: Name, child: Name, ghost e: Env, ghost start: nat, ghost todo: set<Name>)
      requires Valid() && index > start && node in lowlinks && node in indices
      requires Edge(graph, node, child) && child in todo && child !in indices
      requires Scanning(graph, e, State(), node, start, lowlinks[node], todo)
      modifies this
      ensures Valid() && index > start && child in lowlinks
      ensures Scanning(graph, e, State(), node, start, Min(old(lowlinks)[node], lowlinks[child]), todo - {child})
      ensures Frozen(old(lowlinks))
      decreases graph.Keys - indices.Keys, 1
    {
      ghost var f, next, low := State(), index, lowlinks[node];
      ScanDescends(graph, e, f, node, start, low, todo, child);
      Visit(child);
      ScanReturns(graph, e, f, State(), node, start, low, todo, child, next, lowlinks[child]);
    }

    /** Lower the lowlink of a discovered node. */
    method Lower(node: Name, low: nat)
      requires Valid() && node in indices
      modifies `lowlinks
      ensures State() == old(State())
      ensures Valid() && lowlinks == old(lowlinks)[node := Min(old(lowlinks)[node], low)]
    {
      lowlinks := lowlinks[node := Min(lowlinks[node], low)];
    }

    /** All successors seen: leave the node on the stack, or pop its component. */
    method Finish(node: Name, ghost e: Env, ghost start: nat)
      requires Valid() && node in lowlinks && Inv(graph, e) && node !in e.active
      requires Scanning(graph, e, State(), node, start, lowlinks[node], {})
      modifies this
      ensures Valid() && index == old(index) && lowlinks == old(lowlinks)
      ensures Returns(graph, e, State(), node, start, lowlinks[node])
    {
      if lowlinks[node] != indices[node] {
        ScanStays(graph, e, State(), node, start, lowlinks[node]);
        active := active - {node};
      } else {
        ScanPops(graph, e, State(), node, start, lowlinks[node]);
        PopComponent(node, e);
      }
    }

    /** Pop the stack down to `node` and report what came off if it is more than `node`. */
    method PopComponent(node: Name, ghost e: Env)
      requires e.stack + [node] <= stack && Distinct(stack) && onStack == Members(stack)
      requires e.on == Members(e.stack)
      modifies this
      ensures State() == old(Popped(State(), e.stack, e.on, node))
      ensures index == old(index) && lowlinks == old(lowlinks)
    {
      var component := PopTo(node, e.stack);
      if |component| > 1 {
        components := components + [component];
      }
      active := active - {node};
    }

    /** Take everything off the stack down to and including `node`, which lies on `rest`. */
    method PopTo(node: Name, ghost rest: seq<Name>) returns (component: set<Name>)
      requires rest + [node] <= stack && Distinct(stack) && onStack == Members(stack)
      modifies `stack, `onStack
      ensures stack == rest && onStack == Members(rest)
      ensures component == old(onStack) - Members(rest)
    {
      ghost var before := stack;
      component := {};
      while true
        invariant |rest| < |stack| && stack <= before && rest <= before
        invariant onStack == Members(stack)
        invariant component == Members(before[|stack|..])
        decreases |stack|
      {
        TopComesOff(before, stack);
        var child := stack[|stack| - 1];
        stack := stack[..|stack| - 1];
        onStack := onStack - {child};
        component := component + {child};
        FoundOnce(before, |rest|, |stack|, node, child);
        if child == node {
          break;
        }
      }
      SplitAt(before, rest);
    }
  }

  lemma FoundOnce(all: seq<Name>, i: nat, j: nat, x: Name, y: Name)
    requires Distinct(all) && i < |all| && j < |all| && all[i] == x && all[j] == y
    ensures x == y <==> i == j
  {
  }

  /** Taking the top element off a stack that is part of a stack of distinct elements. */
  lemma TopComesOff(all: seq<Name>, s: seq<Name>)
    requires s != [] && s <= all && Distinct(all)
    ensures var top, rest := s[|s| - 1], s[..|s| - 1];
      && rest <= all && Members(rest) == Members(s) - {top}
      && Members(all[|rest|..]) == Members(all[|s|..]) + {top} && all[|rest|] == top
  {
    var top, rest := s[|s| - 1], s[..|s| - 1];
    assert s == rest + [top];
    assert all[|rest|..] == [top] + all[|s|..];
  }

  lemma SplitAt(all: seq<Name>, s: seq<Name>)
    requires s <= all && Distinct(all)
    ensures Members(all[|s|..]) == Members(all) - Members(s)
  {
    assert all == s + all[|s|..];
    forall x | x in all[|s|..]
      ensures x !in s
    {
      var i :| 0 <= i < |all| - |s| && all[|s|..][i] == x;
      assert all[|s| + i] == x;
    }
  }
}
