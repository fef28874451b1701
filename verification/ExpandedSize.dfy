/** Counting the nodes of unfolded expressions without unfolding them. */
module ExpandedSize {
  import opened ExpressionGraph

  /** The number of nodes of a tree. */
  function Size(t: Tree): nat {
    1 + SizeOfAll(t.parts)
  }

  function SizeOfAll(ts: seq<Tree>): nat {
    if ts == [] then 0 else Size(ts[0]) + SizeOfAll(ts[1..])
  }

  /** The size of the fully unfolded expression. */
  ghost function Expanded(n: Node): nat
    requires Acyclic(n)
  {
    Size(Unfold(n))
  }

  ghost predicate AllAcyclic(ns: seq<Node>, bound: nat) {
    forall n | n in ns :: n.height < bound && Acyclic(n)
  }

  /** The sum of the sizes of the first `i` expressions. */
  ghost function ExpandedUpTo(ns: seq<Node>, bound: nat, i: nat): nat
    requires AllAcyclic(ns, bound) && i <= |ns|
  {
    if i == 0 then 0 else ExpandedUpTo(ns, bound, i - 1) + Expanded(ns[i - 1])
  }

  lemma {:induction false} SizesAdd(ns: seq<Node>, bound: nat, ts: seq<Tree>, i: nat)
    requires AllAcyclic(ns, bound) && |ns| == |ts| && i <= |ns|
    requires forall j | 0 <= j < |ns| :: ts[j] == Unfold(ns[j])
    ensures SizeOfAll(ts) == ExpandedUpTo(ns, bound, i) + SizeOfAll(ts[i..])
  {
    if i == 0 {
      assert ts[0..] == ts;
    } else {
      SizesAdd(ns, bound, ts, i - 1);
      assert ts[i - 1..][0] == ts[i - 1] && ts[i - 1..][1..] == ts[i..];
    }
  }

  /** An object counts once itself, and its parts as often as they occur. */
  lemma ExpandedStep(n: Node)
    requires Acyclic(n)
    ensures AllAcyclic(n.parts, n.height)
    ensures Expanded(n) == 1 + ExpandedUpTo(n.parts, n.height, |n.parts|)
  {
    SizesAdd(n.parts, n.height, Unfold(n).parts, |n.parts|);
  }

  /** The distinct objects of an expression. */
  ghost function Objects(n: Node): set<Node>
    requires Acyclic(n)
    decreases n.height, 1, 0
  {
    {n} + ObjectsUpTo(n.parts, n.height, |n.parts|)
  }

  /** The distinct objects of the first `i` expressions. */
  ghost function ObjectsUpTo(ns: seq<Node>, bound: nat, i: nat): set<Node>
    requires AllAcyclic(ns, bound) && i <= |ns|
    decreases bound, 0, i
  {
    if i == 0 then {} else ObjectsUpTo(ns, bound, i - 1) + Objects(ns[i - 1])
  }

  /** A set that contains `n` and is closed under parts contains all its objects. */
  lemma {:induction false} ObjectsWithin(n: Node, s: set<Node>)
    requires Acyclic(n) && n in s && ClosedUnderParts(s)
    ensures Objects(n) <= s
    decreases n.height, 1, 0
  {
    ObjectsUpToWithin(n.parts, n.height, |n.parts|, s);
  }

  lemma {:induction false} ObjectsUpToWithin(ns: seq<Node>, bound: nat, i: nat, s: set<Node>)
    requires AllAcyclic(ns, bound) && i <= |ns| && ClosedUnderParts(s) && forall n | n in ns :: n in s
    ensures ObjectsUpTo(ns, bound, i) <= s
    decreases bound, 0, i
  {
    if i > 0 {
      ObjectsUpToWithin(ns, bound, i - 1, s);
      ObjectsWithin(ns[i - 1], s);
    }
  }

  lemma {:induction false} MembersAreObjects(ns: seq<Node>, bound: nat, i: nat)
    requires AllAcyclic(ns, bound) && i <= |ns|
    ensures forall j | 0 <= j < i :: ns[j] in ObjectsUpTo(ns, bound, i)
  {
    if i > 0 {
      MembersAreObjects(ns, bound, i - 1);
    }
  }

  lemma {:induction false} ObjectsLower(n: Node)
    requires Acyclic(n)
    ensures forall q | q in Objects(n) :: q.height <= n.height
    decreases n.height, 1, 0
  {
    ObjectsUpToLower(n.parts, n.height, |n.parts|);
  }

  lemma {:induction false} ObjectsUpToLower(ns: seq<Node>, bound: nat, i: nat)
    requires AllAcyclic(ns, bound) && i <= |ns|
    ensures forall q | q in ObjectsUpTo(ns, bound, i) :: q.height < bound
    decreases bound, 0, i
  {
    if i > 0 {
      ObjectsUpToLower(ns, bound, i - 1);
      ObjectsLower(ns[i - 1]);
    }
  }

  // ----------------------------------------------------------- the counter

  /** The distinct objects in the order they were first met, and the sizes known so far. */
  datatype Tally = Tally(unique: seq<Node>, seen: set<Node>, occurrences: map<Node, nat>)

  ghost predicate Sized(t: Tally) {
    forall k {:trigger t.occurrences[k]} | k in t.occurrences :: Acyclic(k) && t.occurrences[k] == Expanded(k)
  }

  ghost predicate Listed(t: Tally) {
    t.seen == (set k | k in t.unique) && forall i, j | 0 <= i < j < |t.unique| :: t.unique[i] != t.unique[j]
  }

  ghost predicate Sound(t: Tally) {
    Sized(t) && ClosedUnderParts(t.occurrences.Keys) && t.occurrences.Keys <= t.seen && Listed(t)
  }

  /** From `t` to `u` the objects in `s` have been met and sized. */
  ghost predicate Adds(t: Tally, u: Tally, s: set<Node>) {
    t.unique <= u.unique && u.seen == t.seen + s && u.occurrences.Keys == t.occurrences.Keys + s
  }

  /** What has been met but not sized yet is at least so high. */
  ghost predicate Pending(t: Tally, height: nat) {
    forall k | k in t.seen :: k in t.occurrences || k.height >= height
  }

  /** The first `i` expressions have been measured, from `t` to `u`, with the total `size`. */
  ghost predicate Measured(t: Tally, u: Tally, ns: seq<Node>, bound: nat, i: nat, size: nat)
    requires AllAcyclic(ns, bound) && i <= |ns|
  {
    Sound(u) && size == ExpandedUpTo(ns, bound, i) && Adds(t, u, ObjectsUpTo(ns, bound, i)) && Pending(u, bound)
  }

  lemma MeasuredOne(t: Tally, u: Tally, v: Tally, ns: seq<Node>, bound: nat, i: nat, size: nat)
    requires AllAcyclic(ns, bound) && i < |ns| && Measured(t, u, ns, bound, i, size)
    requires Sound(v) && Adds(u, v, Objects(ns[i]))
    ensures Measured(t, v, ns, bound, i + 1, size + Expanded(ns[i]))
  {
    AddsOn(t, u, v, ObjectsUpTo(ns, bound, i), Objects(ns[i]));
    PendingOn(u, v, Objects(ns[i]), bound);
  }

  lemma AddsOn(t: Tally, u: Tally, v: Tally, a: set<Node>, b: set<Node>)
    requires Adds(t, u, a) && Adds(u, v, b)
    ensures Adds(t, v, a + b)
  {
  }

  lemma PendingOn(u: Tally, v: Tally, more: set<Node>, height: nat)
    requires Pending(u, height) && Adds(u, v, more)
    ensures Pending(v, height)
  {
  }

  function Met(t: Tally, n: Node): Tally {
    t.(unique := t.unique + [n], seen := t.seen + {n})
  }

  lemma MeetKeeps(t: Tally, n: Node)
    requires Sound(t) && n !in t.seen
    ensures Sound(Met(t, n))
  {
    assert Sized(Met(t, n));
  }

  /** All parts sized, the object itself can be. */
  lemma SizeKeeps(t: Tally, u: Tally, n: Node, size: nat)
    requires Acyclic(n) && AllAcyclic(n.parts, n.height) && n !in t.seen && Sound(t) && Sound(u)
    requires Adds(Met(t, n), u, ObjectsUpTo(n.parts, n.height, |n.parts|))
    requires size == Expanded(n)
    ensures Sound(WithSize(u, n, size)) && Adds(t, WithSize(u, n, size), Objects(n))
  {
    MembersAreObjects(n.parts, n.height, |n.parts|);
    SizeAdds(t, u, n, size, ObjectsUpTo(n.parts, n.height, |n.parts|));
  }

  function WithSize(t: Tally, n: Node, size: nat): Tally {
    t.(occurrences := t.occurrences[n := size])
  }

  lemma SizeAdds(t: Tally, u: Tally, n: Node, size: nat, below: set<Node>)
    requires Acyclic(n) && n !in t.seen && Sound(t) && Sound(u) && Adds(Met(t, n), u, below)
    requires size == Expanded(n) && forall k | k in n.parts :: k in below
    ensures Sound(WithSize(u, n, size)) && Adds(t, WithSize(u, n, size), {n} + below)
  {
    assert Sized(WithSize(u, n, size));
    assert ClosedUnderParts(WithSize(u, n, size).occurrences.Keys);
  }

  class Metrics {
    var unique: seq<Node>
    var seen: set<Node>
    var occurrences: map<Node, nat>

    ghost function Now(): Tally
      reads this
    {
      Tally(unique, seen, occurrences)
    }

    constructor ()
      ensures Now() == Tally([], {}, map[])
    {
      unique, seen, occurrences := [], {}, map[];
    }

    /** The unfolded size of one expression; each object is expanded at most once.  What
        has been met but not sized is above `n`. */
    method Measure(n: Node) returns (size: nat)
      requires Sound(Now()) && Acyclic(n) && Pending(Now(), n.height + 1)
      modifies this
      ensures Sound(Now()) && size == Expanded(n) && Adds(old(Now()), Now(), Objects(n))
      decreases n.height, 1
    {
      if n in occurrences {
        ObjectsWithin(n, occurrences.Keys);
        return occurrences[n];
      }
      assert n !in seen;
      ExpandedStep(n);
      MeetKeeps(Now(), n);
      seen := seen + {n};
      unique := unique + [n];
      var parts := MeasureAll(n.parts, n.height);
      size := 1 + parts;
      SizeKeeps(old(Now()), Now(), n, size);
      occurrences := occurrences[n := size];
    }

    /** The sum of the unfolded sizes of several expressions. */
    method MeasureAll(ns: seq<Node>, ghost bound: nat) returns (size: nat)
      requires Sound(Now()) && AllAcyclic(ns, bound) && Pending(Now(), bound)
      modifies this
      ensures Sound(Now()) && size == ExpandedUpTo(ns, bound, |ns|)
      ensures Adds(old(Now()), Now(), ObjectsUpTo(ns, bound, |ns|))
      decreases bound, 0
    {
      size := 0;
      var i := 0;
      while i < |ns|
        invariant 0 <= i <= |ns| && Measured(old(Now()), Now(), ns, bound, i, size)
      {
        ghost var before := Now();
        var s := Measure(ns[i]);
        MeasuredOne(old(Now()), before, Now(), ns, bound, i, size);
        size := size + s;
        i := i + 1;
      }
    }
  }

  /** The total unfolded size of the roots, repeated roots counted as often as they occur,
      and the distinct objects of all roots, each once. */
  method GraphMetrics(roots: seq<Node>) returns (total: nat, unique: seq<Node>)
    requires AllAcyclic(roots, Above(roots))
    ensures total == ExpandedUpTo(roots, Above(roots), |roots|)
    ensures (set n | n in unique) == ObjectsUpTo(roots, Above(roots), |roots|)
    ensures forall i, j | 0 <= i < j < |unique| :: unique[i] != unique[j]
  {
    var m := new Metrics();
    total := m.MeasureAll(roots, Above(roots));
    unique := m.unique;
  }
}
