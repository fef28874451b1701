/** The memoised walk that performs the substitution on shared objects. */
module Inliner {
  import opened ExpressionGraph
  import opened LocalInlining

  /** The levels of all objects a walk can meet. */
  type Levels = map<Node, nat>

  /** The objects are closed under parts and bindings; levels do not rise towards parts
      and fall from a reference to its binding. */
  ghost predicate Leveled(locals: Locals, level: Levels) {
    && (forall n, p | n in level && p in n.parts :: p in level && level[p] <= level[n] && p.height < n.height)
    && (forall n | n in level && IsLocal(locals, n) ::
          locals[n.kind.name] in level && level[locals[n.kind.name]] < level[n])
    && (forall n | n in level :: Acyclic(n) && (n.kind.Atom? ==> n.parts == []))
  }

  /** `k` is resolved before `n`: it has a lower level, or the same and a lower height. */
  ghost predicate Before(level: Levels, k: Node, n: Node) {
    k in level && n in level &&
    (level[k] < level[n] || (level[k] == level[n] && k.height < n.height))
  }

  /** `out` is a rewritten `n`: its unfolding is the plain substitution in `n`. */
  ghost predicate Rewrites(locals: Locals, rank: Ranks, out: Node, n: Node)
    requires Ranked(locals, rank)
  {
    Acyclic(n) && Acyclic(out) && Unfold(out) == Expand(locals, rank, n)
  }

  /** An object with rewritten parts is a rewritten object. */
  lemma RewritesWhole(locals: Locals, rank: Ranks, out: Node, n: Node)
    requires Ranked(locals, rank) && Acyclic(n) && !IsLocal(locals, n)
    requires out.kind == n.kind && out.height == Above(out.parts)
    requires AllRewritten(locals, rank, out.parts, n.parts, |n.parts|)
    ensures Rewrites(locals, rank, out, n)
  {
    assert Acyclic(out);
    assert Unfold(out).parts == Expand(locals, rank, n).parts;
  }

  lemma LocalRewrites(locals: Locals, rank: Ranks, out: Node, n: Node)
    requires Ranked(locals, rank) && Acyclic(n) && IsLocal(locals, n)
    requires Rewrites(locals, rank, out, locals[n.kind.name])
    ensures Rewrites(locals, rank, out, n)
  {
  }

  /** A value without parts stands for itself. */
  lemma AtomRewrites(locals: Locals, rank: Ranks, n: Node)
    requires Ranked(locals, rank) && n.kind.Atom? && n.parts == []
    ensures Rewrites(locals, rank, n, n)
  {
  }

  /** The first `i` items are rewritten. */
  ghost predicate AllRewritten(locals: Locals, rank: Ranks, outs: seq<Node>, ns: seq<Node>, i: nat)
    requires Ranked(locals, rank)
  {
    |outs| == i <= |ns| && forall j | 0 <= j < i :: Rewrites(locals, rank, outs[j], ns[j])
  }

  lemma OneMoreRewritten(locals: Locals, rank: Ranks, outs: seq<Node>, ns: seq<Node>, out: Node)
    requires Ranked(locals, rank) && AllRewritten(locals, rank, outs, ns, |outs|) && |outs| < |ns|
    requires Rewrites(locals, rank, out, ns[|outs|])
    ensures AllRewritten(locals, rank, outs + [out], ns, |outs| + 1)
  {
  }

  // ------------------------------------------------------ the memo tables

  /** What the two memo tables hold. */
  datatype Memo = Memo(locals: map<string, Node>, nodes: map<Node, Node>)

  /** Where the walk goes on to from `a`: from a reference to its binding, from a tuple to its
      items, and from any other object to its fields, where a field that is a tuple is passed
      over for its items. */
  ghost function Next(locals: Locals, a: Node): set<Node> {
    if IsLocal(locals, a) then {locals[a.kind.name]}
    else if a.kind.Atom? then {}
    else if a.kind.Tuple? then set c | c in a.parts
    else (set c | c in a.parts && !c.kind.Tuple?) + (set t, c | t in a.parts && t.kind.Tuple? && c in t.parts :: c)
  }

  ghost predicate ClosedUnderWalk(locals: Locals, s: set<Node>) {
    forall a {:trigger Stays(locals, a, s)} | a in s :: Stays(locals, a, s)
  }

  ghost predicate Stays(locals: Locals, a: Node, s: set<Node>) {
    Next(locals, a) <= s
  }

  /** The memo tables have what they need for `n`. */
  ghost predicate Done(locals: Locals, m: Memo, n: Node) {
    if IsLocal(locals, n) then n.kind.name in m.locals else n.kind.Atom? || n in m.nodes
  }

  /** What the walk goes on to from `n` is done. */
  ghost predicate StepsDone(locals: Locals, m: Memo, n: Node) {
    forall c | c in Next(locals, n) :: Done(locals, m, c)
  }

  /** What the walk goes on to from anything done is done. */
  ghost predicate Complete(locals: Locals, m: Memo) {
    (forall x {:trigger Done(locals, m, locals[x])} | x in m.locals && x in locals :: Done(locals, m, locals[x])) &&
    (forall k {:trigger StepsDone(locals, m, k)} | k in m.nodes :: StepsDone(locals, m, k))
  }

  ghost predicate MemoHolds(locals: Locals, rank: Ranks, level: Levels, m: Memo)
    requires Ranked(locals, rank)
  {
    && (forall x | x in m.locals :: x in locals)
    && (forall x {:trigger Rewrites(locals, rank, m.locals[x], locals[x])} | x in m.locals ::
          Rewrites(locals, rank, m.locals[x], locals[x]))
    && (forall k | k in m.nodes :: k in level && !IsLocal(locals, k) && !k.kind.Atom?)
    && (forall k {:trigger Rewrites(locals, rank, m.nodes[k], k)} | k in m.nodes ::
          Rewrites(locals, rank, m.nodes[k], k))
  }

  /** From `m` to `n` nothing is forgotten, and what is new in the node memo is for objects
      resolved before `whole`, or for `whole` itself when `itself` is set. */
  ghost predicate Grows(level: Levels, m: Memo, n: Memo, whole: Node, itself: bool) {
    && (forall x | x in m.locals :: x in n.locals && n.locals[x] == m.locals[x])
    && (forall k | k in m.nodes :: k in n.nodes && n.nodes[k] == m.nodes[k])
    && (forall k | k in n.nodes && k !in m.nodes :: Before(level, k, whole) || (itself && k == whole))
  }

  /** A walk of `n`, which is resolved before `whole`, on the way to `whole`. */
  lemma GrowsOn(level: Levels, a: Memo, b: Memo, c: Memo, n: Node, itself: bool, whole: Node)
    requires Grows(level, a, b, whole, false) && Grows(level, b, c, n, itself)
    requires Before(level, n, whole)
    ensures Grows(level, a, c, whole, false)
  {
  }

  lemma GrowsAgain(level: Levels, a: Memo, b: Memo, c: Memo, whole: Node)
    requires Grows(level, a, b, whole, false) && Grows(level, b, c, whole, false)
    ensures Grows(level, a, c, whole, false)
  {
  }

  lemma NodeStored(locals: Locals, rank: Ranks, level: Levels, a: Memo, b: Memo, n: Node, out: Node)
    requires Ranked(locals, rank) && MemoHolds(locals, rank, level, b) && Grows(level, a, b, n, false)
    requires n in level && !IsLocal(locals, n) && !n.kind.Atom? && Rewrites(locals, rank, out, n) && n !in a.nodes
    ensures n !in b.nodes
    ensures var c := b.(nodes := b.nodes[n := out]);
      MemoHolds(locals, rank, level, c) && Grows(level, a, c, n, true)
  {
  }

  lemma LocalStored(locals: Locals, rank: Ranks, level: Levels, a: Memo, b: Memo, n: Node, out: Node)
    requires Ranked(locals, rank) && MemoHolds(locals, rank, level, b)
    requires Acyclic(n) && IsLocal(locals, n) && n.kind.name !in a.locals
    requires Before(level, locals[n.kind.name], n) && Grows(level, a, b, locals[n.kind.name], true)
    requires Rewrites(locals, rank, out, locals[n.kind.name])
    ensures Rewrites(locals, rank, out, n)
    ensures var c := b.(locals := b.locals[n.kind.name := out]);
      MemoHolds(locals, rank, level, c) && Grows(level, a, c, n, true)
  {
  }

  lemma NodeCompletes(locals: Locals, m: Memo, n: Node, out: Node)
    requires Complete(locals, m) && StepsDone(locals, m, n)
    ensures Complete(locals, m.(nodes := m.nodes[n := out]))
  {
    var next := m.(nodes := m.nodes[n := out]);
    DoneKept(locals, m, next);
    forall k | k in next.nodes
      ensures StepsDone(locals, next, k)
    {
      assert StepsDone(locals, m, k);
    }
    forall x | x in next.locals && x in locals
      ensures Done(locals, next, locals[x])
    {
      assert Done(locals, m, locals[x]);
    }
  }

  lemma LocalCompletes(locals: Locals, m: Memo, x: string, out: Node)
    requires Complete(locals, m) && x in locals && Done(locals, m, locals[x])
    ensures Complete(locals, m.(locals := m.locals[x := out]))
  {
    var next := m.(locals := m.locals[x := out]);
    DoneKept(locals, m, next);
    forall k | k in next.nodes
      ensures StepsDone(locals, next, k)
    {
      assert StepsDone(locals, m, k);
    }
    forall y | y in next.locals && y in locals
      ensures Done(locals, next, locals[y])
    {
      assert Done(locals, m, locals[y]);
    }
  }

  lemma DoneKept(locals: Locals, m: Memo, n: Memo)
    requires m.locals.Keys <= n.locals.Keys && m.nodes.Keys <= n.nodes.Keys
    ensures forall c | Done(locals, m, c) :: Done(locals, n, c)
    ensures forall c | FieldDone(locals, m, c) :: FieldDone(locals, n, c)
  {
  }

  /** A tuple that is a field is passed over for its items. */
  ghost predicate FieldDone(locals: Locals, m: Memo, n: Node) {
    if n.kind.Tuple? then forall c | c in n.parts :: Done(locals, m, c) else Done(locals, m, n)
  }

  ghost predicate ItemsDone(locals: Locals, m: Memo, ns: seq<Node>, i: nat) {
    i <= |ns| && forall j | 0 <= j < i :: Done(locals, m, ns[j])
  }

  ghost predicate FieldsDone(locals: Locals, m: Memo, ns: seq<Node>, i: nat) {
    i <= |ns| && forall j | 0 <= j < i :: FieldDone(locals, m, ns[j])
  }

  lemma PartsDone(locals: Locals, m: Memo, n: Node)
    requires !IsLocal(locals, n) && !n.kind.Atom?
    requires if n.kind.Tuple? then ItemsDone(locals, m, n.parts, |n.parts|) else FieldsDone(locals, m, n.parts, |n.parts|)
    ensures StepsDone(locals, m, n)
  {
    forall c | c in Next(locals, n)
      ensures Done(locals, m, c)
    {
      if n.kind.Tuple? || c in n.parts {
        var j :| 0 <= j < |n.parts| && n.parts[j] == c;
      } else {
        var t :| t in n.parts && t.kind.Tuple? && c in t.parts;
        var j :| 0 <= j < |n.parts| && n.parts[j] == t;
      }
    }
  }

  lemma OneMoreItem(locals: Locals, level: Levels, m: Memo, n: Memo, ns: seq<Node>, i: nat, whole: Node, itself: bool)
    requires i < |ns| && ItemsDone(locals, m, ns, i) && Grows(level, m, n, whole, itself) && Done(locals, n, ns[i])
    ensures ItemsDone(locals, n, ns, i + 1)
  {
    DoneKept(locals, m, n);
  }

  lemma OneMoreField(locals: Locals, level: Levels, m: Memo, n: Memo, ns: seq<Node>, i: nat, whole: Node, itself: bool)
    requires i < |ns| && FieldsDone(locals, m, ns, i) && Grows(level, m, n, whole, itself) && FieldDone(locals, n, ns[i])
    ensures FieldsDone(locals, n, ns, i + 1)
  {
    DoneKept(locals, m, n);
  }

  /** `out` is what the memo tables give for `n` from now on. */
  ghost predicate Recorded(locals: Locals, m: Memo, n: Node, out: Node) {
    if IsLocal(locals, n) then n.kind.name in m.locals && m.locals[n.kind.name] == out
    else if n.kind.Atom? then out == n
    else n in m.nodes && m.nodes[n] == out
  }

  /** The memo tables give every root its rewritten form. */
  ghost predicate AllRecorded(locals: Locals, m: Memo, roots: seq<Node>, outs: seq<Node>) {
    |outs| <= |roots| && forall i | 0 <= i < |outs| :: Recorded(locals, m, roots[i], outs[i])
  }

  lemma OneMoreRecorded(locals: Locals, level: Levels, m: Memo, n: Memo, roots: seq<Node>, outs: seq<Node>, out: Node)
    requires |outs| < |roots| && AllRecorded(locals, m, roots, outs)
    requires Grows(level, m, n, roots[|outs|], true) && Recorded(locals, n, roots[|outs|], out)
    ensures AllRecorded(locals, n, roots, outs + [out])
  {
  }

  // -------------------------------------------------- what gets allocated

  /** What an object is allocated for: a whole original, or a tuple that is a field of an
      original that is no tuple. */
  datatype Slot = Whole(original: Node) | Field(original: Node, index: nat)

  /** The tuples among the first `i` fields of anything but a tuple. */
  ghost function Fields(n: Node, i: nat): set<Slot>
    requires i <= |n.parts|
  {
    if i == 0 then {}
    else Fields(n, i - 1) + if !n.kind.Tuple? && n.parts[i - 1].kind.Tuple? then {Field(n, i - 1)} else {}
  }

  /** What is allocated for some originals: for each one object, and one for each tuple among
      its fields. */
  ghost function Slots(originals: set<Node>): set<Slot> {
    set n, k | n in originals && k in Own(n) :: k
  }

  ghost function Own(n: Node): set<Slot> {
    {Whole(n)} + Fields(n, |n.parts|)
  }

  lemma {:induction false} FieldsWithin(n: Node, i: nat)
    requires i <= |n.parts|
    ensures forall k | k in Fields(n, i) :: k.Field? && k.original == n && k.index < i
  {
    if i > 0 {
      FieldsWithin(n, i - 1);
    }
  }

  /** How many those are. */
  ghost function Tuples(n: Node, i: nat): nat
    requires i <= |n.parts|
  {
    if i == 0 then 0 else Tuples(n, i - 1) + if !n.kind.Tuple? && n.parts[i - 1].kind.Tuple? then 1 else 0
  }

  lemma OneSlotMore(ks: set<Slot>, k: Slot)
    requires k !in ks
    ensures |ks + {k}| == |ks| + 1
  {
  }

  lemma {:induction false} FieldsCounted(n: Node, i: nat)
    requires i <= |n.parts|
    ensures |Fields(n, i)| == Tuples(n, i)
  {
    if i > 0 {
      FieldsCounted(n, i - 1);
      FieldsWithin(n, i - 1);
      OneSlotMore(Fields(n, i - 1), Field(n, i - 1));
    }
  }

  lemma {:induction false} NoTuples(n: Node, i: nat)
    requires i <= |n.parts| && n.kind.Tuple?
    ensures Tuples(n, i) == 0
  {
    if i > 0 {
      NoTuples(n, i - 1);
    }
  }

  /** One original more. */
  lemma SlotsGrow(originals: set<Node>, n: Node)
    requires n !in originals
    ensures |Slots(originals + {n})| == |Slots(originals)| + 1 + Tuples(n, |n.parts|)
  {
    forall m | m in originals
      ensures Own(m) !! Own(n)
    {
      FieldsWithin(m, |m.parts|);
      FieldsWithin(n, |n.parts|);
    }
    FieldsWithin(n, |n.parts|);
    assert Slots(originals + {n}) == Slots(originals) + Own(n);
    assert Slots(originals) !! Own(n);
    FieldsCounted(n, |n.parts|);
    assert |Own(n)| == 1 + |Fields(n, |n.parts|)|;
  }

  // --------------------------------------- when nothing is copied twice

  /** The original that the object of a slot is a copy of. */
  ghost function Standing(k: Slot): Node {
    if k.Field? && k.index < |k.original.parts| then k.original.parts[k.index] else k.original
  }

  predicate HasTuple(n: Node, i: nat) {
    !n.kind.Tuple? && i < |n.parts| && n.parts[i].kind.Tuple?
  }

  /** The originals that are copied when `s` is rebuilt: those and the tuples among their fields. */
  ghost function Copied(s: set<Node>): set<Node> {
    s + set n, i: nat | n in s && i < |n.parts| && HasTuple(n, i) :: n.parts[i]
  }

  /** No tuple is a field in two places, or a field and walked on its own too. */
  ghost predicate OnePlace(s: set<Node>) {
    && (forall n, i: nat | n in s && HasTuple(n, i) :: n.parts[i] !in s)
    && (forall n, i: nat, m, j: nat | n in s && m in s && HasTuple(n, i) && HasTuple(m, j) && n.parts[i] == m.parts[j] ::
          n == m && i == j)
  }

  lemma {:induction false} FieldsAre(n: Node, i: nat, k: Slot)
    requires i <= |n.parts|
    ensures k in Fields(n, i) <==> k.Field? && k.original == n && k.index < i && HasTuple(n, k.index)
  {
    if i > 0 {
      FieldsAre(n, i - 1, k);
    }
  }

  lemma SlotsAre(s: set<Node>, k: Slot)
    ensures k in Slots(s) <==> k.original in s && (k.Whole? || HasTuple(k.original, k.index))
  {
    FieldsAre(k.original, |k.original.parts|, k);
    if n :| n in s && k in Own(n) {
      FieldsAre(n, |n.parts|, k);
    }
    assert k.Whole? && k.original in s ==> k in Own(k.original);
  }

  ghost function Image(ks: set<Slot>): set<Node> {
    set k | k in ks :: Standing(k)
  }

  ghost predicate Injective(ks: set<Slot>) {
    forall k, l | k in ks && l in ks && Standing(k) == Standing(l) :: k == l
  }

  lemma {:induction false} ImageSize(ks: set<Slot>)
    ensures |Image(ks)| <= |ks| && (|Image(ks)| == |ks| <==> Injective(ks))
  {
    if k :| k in ks {
      var rest := ks - {k};
      ImageSize(rest);
      assert Image(ks) == Image(rest) + {Standing(k)};
      assert |ks| == |rest| + 1;
      if Standing(k) in Image(rest) {
        var l :| l in rest && Standing(l) == Standing(k);
      }
    }
  }

  lemma CopiedIsImage(s: set<Node>)
    ensures Copied(s) == Image(Slots(s))
  {
    forall o | o in Copied(s)
      ensures o in Image(Slots(s))
    {
      if o in s {
        SlotsAre(s, Whole(o));
        assert Standing(Whole(o)) == o;
      } else {
        var n, i: nat :| n in s && i < |n.parts| && HasTuple(n, i) && n.parts[i] == o;
        SlotsAre(s, Field(n, i));
        assert Standing(Field(n, i)) == o;
      }
    }
    forall k | k in Slots(s)
      ensures Standing(k) in Copied(s)
    {
      SlotsAre(s, k);
    }
  }

  lemma OnePlaceIsInjective(s: set<Node>)
    ensures OnePlace(s) <==> Injective(Slots(s))
  {
    if OnePlace(s) {
      forall k, l | k in Slots(s) && l in Slots(s) && Standing(k) == Standing(l)
        ensures k == l
      {
        SlotsAre(s, k);
        SlotsAre(s, l);
      }
    }
    if Injective(Slots(s)) {
      forall n, i: nat | n in s && HasTuple(n, i)
        ensures n.parts[i] !in s
      {
        SlotsAre(s, Field(n, i));
        SlotsAre(s, Whole(n.parts[i]));
        assert Standing(Field(n, i)) == Standing(Whole(n.parts[i]));
      }
      forall n, i: nat, m, j: nat | n in s && m in s && HasTuple(n, i) && HasTuple(m, j) && n.parts[i] == m.parts[j]
        ensures n == m && i == j
      {
        SlotsAre(s, Field(n, i));
        SlotsAre(s, Field(m, j));
        assert Standing(Field(n, i)) == Standing(Field(m, j));
      }
    }
  }

  /** As many objects as originals copied are the least there can be, and they suffice exactly
      when every tuple among them is in one place. */
  lemma CopiesOnce(s: set<Node>)
    ensures |Copied(s)| <= |Slots(s)| && (|Copied(s)| == |Slots(s)| <==> OnePlace(s))
  {
    CopiedIsImage(s);
    ImageSize(Slots(s));
    OnePlaceIsInjective(s);
  }

  ghost function Records(ns: set<Node>): set<Node> {
    set n | n in ns && !n.kind.Tuple?
  }

  /** The objects built are as many as the slots of the originals entered and the tuples
      pending, and those that are no tuples as many as such originals. */
  ghost predicate Accounted(entered: set<Node>, built: set<Node>, pending: nat) {
    |built| == |Slots(entered)| + pending && |Records(built)| == |Records(entered)|
  }

  lemma TupleAccounted(entered: set<Node>, built: set<Node>, pending: nat, out: Node)
    requires Accounted(entered, built, pending) && out !in built && out.kind.Tuple?
    ensures Accounted(entered, built + {out}, pending + 1)
  {
    assert Records(built + {out}) == Records(built);
  }

  lemma WholeAccounted(entered: set<Node>, built: set<Node>, pending: nat, n: Node, out: Node)
    requires Accounted(entered, built, pending) && out !in built && n !in entered && out.kind == n.kind
    requires pending >= Tuples(n, |n.parts|)
    ensures Accounted(entered + {n}, built + {out}, pending - Tuples(n, |n.parts|))
  {
    SlotsGrow(entered, n);
    RecordsGrow(built, out);
    RecordsGrow(entered, n);
  }

  lemma RecordsGrow(ns: set<Node>, n: Node)
    requires n !in ns
    ensures |Records(ns + {n})| == |Records(ns)| + if n.kind.Tuple? then 0 else 1
  {
    assert Records(ns + {n}) == Records(ns) + if n.kind.Tuple? then {} else {n};
  }

  // ------------------------------------------------------------- the walk

  class Walker {
    const values: Locals
    var localCache: map<string, Node>
    var nodeCache: map<Node, Node>

    ghost const rank: Ranks
    ghost const level: Levels
    /** What the walk is confined to. */
    ghost const walked: set<Node>
    /** Every object allocated so far, and how many of them are tuples among the fields of
        records that are not finished. */
    ghost var built: set<Node>
    ghost var pending: nat

    ghost function Memory(): Memo
      reads this
    {
      Memo(localCache, nodeCache)
    }

    ghost predicate Valid()
      reads this
    {
      Ranked(values, rank) && Leveled(values, level) && ClosedUnderWalk(values, walked) &&
      MemoHolds(values, rank, level, Memory()) && Complete(values, Memory()) &&
      nodeCache.Keys <= walked && Accounted(nodeCache.Keys, built, pending)
    }

    constructor (values: Locals, ghost rank: Ranks, ghost level: Levels, ghost walked: set<Node>)
      requires Ranked(values, rank) && Leveled(values, level) && ClosedUnderWalk(values, walked)
      ensures Valid() && this.values == values && this.rank == rank && this.level == level && this.walked == walked
      ensures localCache == map[] && nodeCache == map[] && built == {} && pending == 0
      ensures forall o: Node | fresh(o) :: o in built
    {
      this.values, this.rank, this.level, this.walked := values, rank, level, walked;
      localCache, nodeCache, built, pending := map[], map[], {}, 0;
      new;
      assert Slots(nodeCache.Keys) == {} && Records({}) == {};
    }

    /** Rewrite one object, at most once whatever the number of paths that lead to it. */
    method Walk(n: Node) returns (out: Node)
      requires Valid() && n in level && n in walked
      modifies this
      ensures Valid() && Grows(level, old(Memory()), Memory(), n, true)
      ensures Rewrites(values, rank, out, n)
      ensures Recorded(values, Memory(), n, out)
      ensures pending == old(pending)
      ensures old(built) <= built && forall o: Node | fresh(o) :: o in built
      ensures forall o | o in built && o !in old(built) :: fresh(o)
      decreases level[n], n.height, 3
    {
      if IsLocal(values, n) {
        out := WalkLocal(n);
      } else if n.kind.Atom? {
        AtomRewrites(values, rank, n);
        out := n;
      } else if n in nodeCache {
        assert Rewrites(values, rank, nodeCache[n], n);
        out := nodeCache[n];
      } else {
        out := Rebuild(n);
      }
    }

    /** A reference to a local: its binding is rewritten the first time. */
    method WalkLocal(n: Node) returns (out: Node)
      requires Valid() && n in level && n in walked && IsLocal(values, n)
      modifies this
      ensures Valid() && Grows(level, old(Memory()), Memory(), n, true)
      ensures Rewrites(values, rank, out, n)
      ensures n.kind.name in localCache && localCache[n.kind.name] == out
      ensures pending == old(pending)
      ensures old(built) <= built && forall o: Node | fresh(o) :: o in built
      ensures forall o | o in built && o !in old(built) :: fresh(o)
      decreases level[n], n.height, 2
    {
      var x := n.kind.name;
      if x in localCache {
        out := localCache[x];
        assert Rewrites(values, rank, out, values[x]);
        LocalRewrites(values, rank, out, n);
      } else {
        assert Stays(values, n, walked);
        out := Walk(values[x]);
        label Found:
        Bind(n, out, old(Memory()));
        forall o: Node | fresh(o)
          ensures o in built
        {
          assert fresh@Found(o) || o in old@Found(built);
        }
      }
    }

    /** Remember the rewritten binding of a local. */
    method Bind(n: Node, out: Node, ghost before: Memo)
      requires Valid() && n in level && IsLocal(values, n) && n.kind.name !in before.locals
      requires Grows(level, before, Memory(), values[n.kind.name], true)
      requires Rewrites(values, rank, out, values[n.kind.name]) && Recorded(values, Memory(), values[n.kind.name], out)
      modifies `localCache
      ensures Valid() && Grows(level, before, Memory(), n, true)
      ensures Rewrites(values, rank, out, n)
      ensures localCache == old(localCache)[n.kind.name := out]
      ensures forall o: Node | fresh(o) :: o in built
    {
      LocalStored(values, rank, level, before, Memory(), n, out);
      LocalCompletes(values, Memory(), n.kind.name, out);
      localCache := localCache[n.kind.name := out];
    }

    /** An object met for the first time. */
    method Rebuild(n: Node) returns (out: Node)
      requires Valid() && n in level && n in walked && n !in nodeCache && !IsLocal(values, n) && !n.kind.Atom?
      modifies this
      ensures Valid() && Grows(level, old(Memory()), Memory(), n, true)
      ensures Rewrites(values, rank, out, n) && fresh(out)
      ensures n in nodeCache && nodeCache[n] == out
      ensures pending == old(pending)
      ensures old(built) <= built && forall o: Node | fresh(o) :: o in built
      ensures forall o | o in built && o !in old(built) :: fresh(o)
      decreases level[n], n.height, 2
    {
      var parts: seq<Node>;
      assert Stays(values, n, walked);
      if n.kind.Tuple? {
        parts := WalkItems(n);
        NoTuples(n, |n.parts|);
      } else {
        parts := WalkFields(n);
      }
      PartsDone(values, Memory(), n);
      ghost var memo := Memory();
      label Walked:
      out := Construct(n, parts);
      forall o: Node | fresh(o)
        ensures o in built
      {
        assert fresh@Walked(o) || o in old@Walked(built);
      }
      NodeStored(values, rank, level, old(Memory()), memo, n, out);
    }

    /** Allocate the object for `n`, whose parts are done, and enter it into the memo. */
    method Construct(n: Node, parts: seq<Node>) returns (out: Node)
      requires Valid() && n in level && n in walked && n !in nodeCache && !IsLocal(values, n) && !n.kind.Atom?
      requires AllRewritten(values, rank, parts, n.parts, |n.parts|) && pending >= Tuples(n, |n.parts|)
      requires StepsDone(values, Memory(), n)
      modifies `nodeCache, `built, `pending
      ensures Valid() && Rewrites(values, rank, out, n) && fresh(out)
      ensures Memory() == old(Memory()).(nodes := old(nodeCache)[n := out])
      ensures pending == old(pending) - Tuples(n, |n.parts|)
      ensures old(built) <= built && forall o: Node | fresh(o) :: o in built
      ensures forall o | o in built && o !in old(built) :: fresh(o)
    {
      out := Allocate(n.kind, parts);
      ghost var all := built + {out};
      label Allocated:
      Enter(n, out);
      forall o: Node | fresh(o)
        ensures o in built
      {
        assert fresh@Allocated(o) || o in all;
      }
    }

    method Enter(n: Node, out: Node)
      requires Valid() && n in level && n in walked && n !in nodeCache && !IsLocal(values, n) && !n.kind.Atom?
      requires out !in built && out.kind == n.kind && out.height == Above(out.parts)
      requires AllRewritten(values, rank, out.parts, n.parts, |n.parts|) && pending >= Tuples(n, |n.parts|)
      requires StepsDone(values, Memory(), n)
      modifies `nodeCache, `built, `pending
      ensures Valid() && Rewrites(values, rank, out, n)
      ensures Memory() == old(Memory()).(nodes := old(nodeCache)[n := out])
      ensures pending == old(pending) - Tuples(n, |n.parts|) && built == old(built) + {out}
      ensures forall o: Node | fresh(o) :: o in built
    {
      RewritesWhole(values, rank, out, n);
      NodeStored(values, rank, level, Memory(), Memory(), n, out);
      NodeCompletes(values, Memory(), n, out);
      WholeAccounted(nodeCache.Keys, built, pending, n, out);
      assert nodeCache[n := out].Keys == nodeCache.Keys + {n};
      pending := pending - Tuples(n, |n.parts|);
      built := built + {out};
      nodeCache := nodeCache[n := out];
    }

    /** The only allocation there is. */
    method Allocate(kind: Kind, parts: seq<Node>) returns (out: Node)
      ensures fresh(out) && out.kind == kind && out.parts == parts && out.height == Above(parts)
      ensures out !in built && forall o: Node | fresh(o) :: o in built + {out}
    {
      out := new Node(kind, parts, Above(parts));
      forall o: Node | fresh(o)
        ensures o in built + {out}
      {
        assert Same(o, out);
      }
    }

    /** The items of a tuple. */
    method WalkItems(n: Node) returns (outs: seq<Node>)
      requires Valid() && n in level && forall c | c in n.parts :: c in walked
      modifies this
      ensures Valid() && Grows(level, old(Memory()), Memory(), n, false)
      ensures AllRewritten(values, rank, outs, n.parts, |n.parts|)
      ensures ItemsDone(values, Memory(), n.parts, |n.parts|)
      ensures pending == old(pending)
      ensures old(built) <= built && forall o: Node | fresh(o) :: o in built
      ensures forall o | o in built && o !in old(built) :: fresh(o)
      decreases level[n], n.height, 0
    {
      outs := [];
      while |outs| < |n.parts|
        invariant Valid() && Grows(level, old(Memory()), Memory(), n, false)
        invariant AllRewritten(values, rank, outs, n.parts, |outs|) && ItemsDone(values, Memory(), n.parts, |outs|)
        invariant pending == old(pending)
        invariant old(built) <= built && forall o: Node | fresh(o) :: o in built
        invariant forall o | o in built && o !in old(built) :: fresh(o)
      {
        ghost var before, was := Memory(), built;
        var item := n.parts[|outs|];
        label Item:
        var out := Walk(item);
        GrowsOn(level, old(Memory()), before, Memory(), item, true, n);
        OneMoreItem(values, level, before, Memory(), n.parts, |outs|, item, true);
        OneMoreRewritten(values, rank, outs, n.parts, out);
        forall o: Node | fresh(o)
          ensures o in built
        {
          assert fresh@Item(o) || o in was;
        }
        outs := outs + [out];
      }
    }

    /** The fields of a record: a tuple among them is rebuilt in place, without the memo. */
    method WalkFields(n: Node) returns (outs: seq<Node>)
      requires Valid() && n in level && n in walked && !IsLocal(values, n) && !n.kind.Atom? && !n.kind.Tuple?
      modifies this
      ensures Valid() && Grows(level, old(Memory()), Memory(), n, false)
      ensures AllRewritten(values, rank, outs, n.parts, |n.parts|)
      ensures FieldsDone(values, Memory(), n.parts, |n.parts|)
      ensures pending == old(pending) + Tuples(n, |n.parts|)
      ensures old(built) <= built && forall o: Node | fresh(o) :: o in built
      ensures forall o | o in built && o !in old(built) :: fresh(o)
      decreases level[n], n.height, 1
    {
      outs := [];
      while |outs| < |n.parts|
        invariant Valid() && Grows(level, old(Memory()), Memory(), n, false)
        invariant AllRewritten(values, rank, outs, n.parts, |outs|) && FieldsDone(values, Memory(), n.parts, |outs|)
        invariant pending == old(pending) + Tuples(n, |outs|)
        invariant old(built) <= built && forall o: Node | fresh(o) :: o in built
        invariant forall o | o in built && o !in old(built) :: fresh(o)
      {
        ghost var before, was := Memory(), built;
        label Next:
        var out := WalkField(n, |outs|);
        GrowsAgain(level, old(Memory()), before, Memory(), n);
        OneMoreField(values, level, before, Memory(), n.parts, |outs|, n, false);
        OneMoreRewritten(values, rank, outs, n.parts, out);
        forall o: Node | fresh(o)
          ensures o in built
        {
          assert fresh@Next(o) || o in was;
        }
        outs := outs + [out];
      }
    }

    method WalkField(n: Node, i: nat) returns (out: Node)
      requires Valid() && n in level && n in walked && !IsLocal(values, n) && !n.kind.Atom? && !n.kind.Tuple?
      requires i < |n.parts|
      modifies this
      ensures Valid() && Grows(level, old(Memory()), Memory(), n, false)
      ensures Rewrites(values, rank, out, n.parts[i])
      ensures FieldDone(values, Memory(), n.parts[i])
      ensures pending == old(pending) + (Tuples(n, i + 1) - Tuples(n, i))
      ensures old(built) <= built && forall o: Node | fresh(o) :: o in built
      ensures forall o | o in built && o !in old(built) :: fresh(o)
      decreases level[n], n.height, 0
    {
      var field := n.parts[i];
      if field.kind.Tuple? {
        assert Stays(values, n, walked);
        out := CopyTuple(field);
      } else {
        assert Stays(values, n, walked) && field in Next(values, n);
        out := Walk(field);
      }
      GrowsOn(level, old(Memory()), old(Memory()), Memory(), field, true, n);
    }

    /** A tuple that is a field. */
    method CopyTuple(field: Node) returns (out: Node)
      requires Valid() && field in level && field.kind.Tuple? && forall c | c in field.parts :: c in walked
      modifies this
      ensures Valid() && Grows(level, old(Memory()), Memory(), field, true)
      ensures Rewrites(values, rank, out, field)
      ensures FieldDone(values, Memory(), field)
      ensures pending == old(pending) + 1
      ensures old(built) <= built && forall o: Node | fresh(o) :: o in built
      ensures forall o | o in built && o !in old(built) :: fresh(o)
      decreases level[field], field.height, 1
    {
      var items := WalkItems(field);
      ghost var was := built;
      label Items:
      out := Allocate(Tuple, items);
      RewritesWhole(values, rank, out, field);
      TupleAccounted(nodeCache.Keys, built, pending, out);
      built := built + {out};
      pending := pending + 1;
      forall o: Node | fresh(o)
        ensures o in built
      {
        assert fresh@Items(o) || o in was;
      }
    }
  }
}
