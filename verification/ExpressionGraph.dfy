/** Immutable expression objects that may be shared, and the trees they stand for. */
module ExpressionGraph {

  /** A reference by name, a tuple, a record (any other expression object, with the
      fields that are copied as they are), or a value that is no expression object. */
  datatype Kind = Ref(name: string) | Tuple | Record(fixed: string) | Atom(text: string)

  /** An expression object.  Identity matters: two objects may look the same. */
  class Node {
    const kind: Kind
    const parts: seq<Node>
    ghost const height: nat

    constructor (kind: Kind, parts: seq<Node>, ghost height: nat)
      ensures this.kind == kind && this.parts == parts && this.height == height
      ensures forall o: Node | fresh(o) :: Same(o, this)
    {
      this.kind, this.parts, this.height := kind, parts, height;
    }
  }

  /** `o` is no other object than `n`. */
  ghost predicate Same(o: Node, n: Node) {
    o == n
  }

  /** The objects below `n` form no cycle. */
  ghost predicate Acyclic(n: Node)
    decreases n.height
  {
    forall p | p in n.parts :: p.height < n.height && Acyclic(p)
  }

  /** The expression with all sharing unfolded. */
  datatype Tree = Tree(kind: Kind, parts: seq<Tree>)

  ghost function Unfold(n: Node): Tree
    requires Acyclic(n)
    decreases n.height
  {
    Tree(n.kind, seq(|n.parts|, i requires 0 <= i < |n.parts| => Unfold(n.parts[i])))
  }

  /** A height above those of all of `ns`. */
  ghost function Above(ns: seq<Node>): (h: nat)
    ensures forall n | n in ns :: n.height < h
  {
    if ns == [] then 0 else
      var h := Above(ns[1..]);
      if ns[0].height < h then h else ns[0].height + 1
  }

  /** How values are made of kinds and of the values of parts. */
  type Algebra<!V> = (Kind, seq<V>) -> V

  ghost function Value<V>(t: Tree, algebra: Algebra<V>, env: string -> V): V
    decreases t
  {
    if t.kind.Ref? then env(t.kind.name)
    else algebra(t.kind, seq(|t.parts|, i requires 0 <= i < |t.parts| => Value(t.parts[i], algebra, env)))
  }

  /** References have no parts. */
  ghost predicate LeafRefs(t: Tree)
    decreases t
  {
    (t.kind.Ref? ==> t.parts == []) && forall p | p in t.parts :: LeafRefs(p)
  }

  /** Values are made of everything in the tree: where they are trees themselves, the value of
      a tree is that tree. */
  lemma {:induction false} ValueOfTrees(t: Tree, algebra: Algebra<Tree>, env: string -> Tree)
    requires LeafRefs(t)
    requires (forall k, ts :: algebra(k, ts) == Tree(k, ts)) && forall x :: env(x) == Tree(Ref(x), [])
    ensures Value(t, algebra, env) == t
    decreases t
  {
    if !t.kind.Ref? {
      forall i | 0 <= i < |t.parts|
        ensures Value(t.parts[i], algebra, env) == t.parts[i]
      {
        ValueOfTrees(t.parts[i], algebra, env);
      }
      assert seq(|t.parts|, i requires 0 <= i < |t.parts| => Value(t.parts[i], algebra, env)) == t.parts;
    }
  }

  /** The set contains the parts of its members. */
  ghost predicate ClosedUnderParts(s: set<Node>) {
    forall n, p | n in s && p in n.parts :: p in s
  }
}
