/** Erasing local bindings from expressions that share objects. */
module LocalInlining {
  import opened ExpressionGraph

  type Locals = map<string, Node>

  /** An order in which the locals can be resolved. */
  type Ranks = map<string, nat>

  predicate IsLocal(locals: Locals, n: Node) {
    n.kind.Ref? && n.kind.name in locals
  }

  /** One more than the highest rank of a local referred to below `n`. */
  ghost function Level(locals: Locals, rank: Ranks, n: Node): (l: nat)
    requires Acyclic(n) && locals.Keys <= rank.Keys
    decreases n.height, 1
  {
    var below := LevelOfAll(locals, rank, n.parts, n.height);
    if IsLocal(locals, n) && below <= rank[n.kind.name] then rank[n.kind.name] + 1 else below
  }

  ghost function LevelOfAll(locals: Locals, rank: Ranks, ns: seq<Node>, height: nat): (l: nat)
    requires locals.Keys <= rank.Keys && forall n | n in ns :: n.height < height && Acyclic(n)
    ensures forall n | n in ns :: Level(locals, rank, n) <= l
    decreases height, 0, |ns|
  {
    if ns == [] then 0 else
      var a, b := Level(locals, rank, ns[0]), LevelOfAll(locals, rank, ns[1..], height);
      if a < b then b else a
  }

  /** The bindings can be resolved: each refers only to locals of lower rank. */
  ghost predicate Ranked(locals: Locals, rank: Ranks) {
    && locals.Keys <= rank.Keys
    && forall x | x in locals :: Acyclic(locals[x]) && Level(locals, rank, locals[x]) <= rank[x]
  }

  /** Plain substitution: the tree of `n` with every local replaced by the tree of its
      own binding, and so on down.  It terminates because a binding has a lower level
      than its references, and a part a lower height than its whole. */
  ghost function Expand(locals: Locals, rank: Ranks, n: Node): Tree
    requires Ranked(locals, rank) && Acyclic(n)
    decreases Level(locals, rank, n), n.height
  {
    if IsLocal(locals, n) then Expand(locals, rank, locals[n.kind.name])
    else Tree(n.kind, seq(|n.parts|, i requires 0 <= i < |n.parts| => Expand(locals, rank, n.parts[i])))
  }

  /** No reference in the tree is to a local. */
  ghost predicate Free(locals: Locals, t: Tree) {
    !(t.kind.Ref? && t.kind.name in locals) && forall p | p in t.parts :: Free(locals, p)
  }

  /** Substitution leaves no local behind. */
  lemma {:induction false} ExpandIsFree(locals: Locals, rank: Ranks, n: Node)
    requires Ranked(locals, rank) && Acyclic(n)
    ensures Free(locals, Expand(locals, rank, n))
    decreases Level(locals, rank, n), n.height
  {
    if IsLocal(locals, n) {
      ExpandIsFree(locals, rank, locals[n.kind.name]);
    } else {
      var t := Expand(locals, rank, n);
      forall p | p in t.parts
        ensures Free(locals, p)
      {
        var i :| 0 <= i < |t.parts| && t.parts[i] == p;
        ExpandIsFree(locals, rank, n.parts[i]);
      }
    }
  }

  /** `full` binds every local to the value of its own expression and every other name to
      what `inputs` binds it to. */
  ghost predicate Binds<V>(locals: Locals, rank: Ranks, algebra: Algebra<V>, inputs: string -> V, full: string -> V)
    requires Ranked(locals, rank)
  {
    forall x :: full(x) == if x in locals then Value(Unfold(locals[x]), algebra, full) else inputs(x)
  }

  /** Substitution preserves meaning: the original with locals bound to their own values
      denotes what the substituted tree denotes under the inputs alone. */
  lemma {:induction false} ExpandPreservesMeaning<V>(locals: Locals, rank: Ranks, n: Node,
                                                     algebra: Algebra<V>, inputs: string -> V, full: string -> V)
    requires Ranked(locals, rank) && Acyclic(n) && Binds(locals, rank, algebra, inputs, full)
    ensures Value(Unfold(n), algebra, full) == Value(Expand(locals, rank, n), algebra, inputs)
    decreases Level(locals, rank, n), n.height
  {
    if IsLocal(locals, n) {
      ExpandPreservesMeaning(locals, rank, locals[n.kind.name], algebra, inputs, full);
    } else if !n.kind.Ref? {
      var t, u := Unfold(n), Expand(locals, rank, n);
      forall i | 0 <= i < |n.parts|
        ensures Value(t.parts[i], algebra, full) == Value(u.parts[i], algebra, inputs)
      {
        ExpandPreservesMeaning(locals, rank, n.parts[i], algebra, inputs, full);
      }
      assert seq(|t.parts|, i requires 0 <= i < |t.parts| => Value(t.parts[i], algebra, full)) ==
             seq(|u.parts|, i requires 0 <= i < |u.parts| => Value(u.parts[i], algebra, inputs));
    }
  }

  /** The environment that gives each local the value of its substituted binding. */
  ghost function Resolved<V>(locals: Locals, rank: Ranks, algebra: Algebra<V>, inputs: string -> V): string -> V
    requires Ranked(locals, rank)
  {
    x => if x in locals && Ranked(locals, rank) then Value(Expand(locals, rank, locals[x]), algebra, inputs) else inputs(x)
  }

  /** Under resolved locals an expression has the value of its substituted tree. */
  lemma {:induction false} ResolvedValue<V>(locals: Locals, rank: Ranks, n: Node, algebra: Algebra<V>, inputs: string -> V)
    requires Ranked(locals, rank) && Acyclic(n)
    ensures Value(Unfold(n), algebra, Resolved(locals, rank, algebra, inputs)) ==
            Value(Expand(locals, rank, n), algebra, inputs)
    decreases n.height
  {
    var full := Resolved(locals, rank, algebra, inputs);
    if !n.kind.Ref? {
      var t, u := Unfold(n), Expand(locals, rank, n);
      forall i | 0 <= i < |n.parts|
        ensures Value(t.parts[i], algebra, full) == Value(u.parts[i], algebra, inputs)
      {
        ResolvedValue(locals, rank, n.parts[i], algebra, inputs);
      }
      assert seq(|t.parts|, i requires 0 <= i < |t.parts| => Value(t.parts[i], algebra, full)) ==
             seq(|u.parts|, i requires 0 <= i < |u.parts| => Value(u.parts[i], algebra, inputs));
    }
  }

  /** An environment that binds every local to its own value always exists. */
  lemma {:induction false} ResolvedBinds<V>(locals: Locals, rank: Ranks, algebra: Algebra<V>, inputs: string -> V)
    requires Ranked(locals, rank)
    ensures Binds(locals, rank, algebra, inputs, Resolved(locals, rank, algebra, inputs))
  {
    forall x | x in locals
      ensures Resolved(locals, rank, algebra, inputs)(x) ==
              Value(Unfold(locals[x]), algebra, Resolved(locals, rank, algebra, inputs))
    {
      ResolvedValue(locals, rank, locals[x], algebra, inputs);
    }
  }
}
