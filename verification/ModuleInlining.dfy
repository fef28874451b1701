/** Inlining locals throughout a hierarchy of modules. */
module ModuleInlining {
  import opened ExpressionGraph
  import opened LocalInlining
  import opened Inliner

  datatype Local = Local(name: string, expression: Node)

  /** A module with its local bindings, all its expression roots, and its children. */
  class Module {
    const locals: seq<Local>
    const roots: seq<Node>
    const children: seq<Module>

    ghost const depth: nat
    /** Evidence that the bindings can be resolved. */
    ghost const rank: Ranks
    ghost const level: Levels

    constructor (locals: seq<Local>, roots: seq<Node>, children: seq<Module>,
                 ghost depth: nat, ghost rank: Ranks, ghost level: Levels)
      ensures this.locals == locals && this.roots == roots && this.children == children
      ensures this.depth == depth && this.rank == rank && this.level == level
    {
      this.locals, this.roots, this.children := locals, roots, children;
      this.depth, this.rank, this.level := depth, rank, level;
    }
  }

  /** The last binding of a name counts. */
  function Bindings(locals: seq<Local>): Locals {
    if locals == [] then map[] else
      var last := locals[|locals| - 1];
      Bindings(locals[..|locals| - 1])[last.name := last.expression]
  }

  /** Module nesting is finite, and wherever there are locals they can be resolved. */
  ghost predicate Resolvable(m: Module)
    decreases m.depth
  {
    && (forall c | c in m.children :: c.depth < m.depth && Resolvable(c))
    && (m.locals != [] ==>
          Ranked(Bindings(m.locals), m.rank) && Leveled(Bindings(m.locals), m.level) &&
          forall n | n in m.roots :: n in m.level)
  }

  /** There are no locals in the whole hierarchy. */
  ghost predicate NoLocals(m: Module)
    decreases m.depth
  {
    m.locals == [] && forall c | c in m.children :: c.depth < m.depth && NoLocals(c)
  }

  /** `out` is `m` with locals erased and every root the plain substitution in its original. */
  ghost predicate Inlined(out: Module, m: Module)
    requires Resolvable(m)
    decreases m.depth
  {
    && out.locals == [] && |out.roots| == |m.roots| && |out.children| == |m.children|
    && (if m.locals == [] then out.roots == m.roots
        else AllRewritten(Bindings(m.locals), m.rank, out.roots, m.roots, |m.roots|))
    && forall i | 0 <= i < |m.children| :: Inlined(out.children[i], m.children[i])
  }

  /** Levels exist for any finite set of objects closed under parts and bindings. */
  lemma LevelsExist(locals: Locals, rank: Ranks, objects: set<Node>) returns (level: Levels)
    requires Ranked(locals, rank) && ClosedUnderParts(objects)
    requires forall x | x in locals :: locals[x] in objects
    requires forall n | n in objects :: Acyclic(n) && (n.kind.Atom? ==> n.parts == [])
    ensures Leveled(locals, level) && level.Keys == objects
  {
    level := map n | n in objects :: Level(locals, rank, n);
  }

  ghost function Deeper(ms: seq<Module>): (d: nat)
    ensures forall m | m in ms :: m.depth < d
  {
    if ms == [] then 0 else
      var d := Deeper(ms[1..]);
      if ms[0].depth < d then d else ms[0].depth + 1
  }

  /** A module whose bindings can be ranked can be inlined. */
  method ModuleFor(locals: seq<Local>, roots: seq<Node>, ghost rank: Ranks, ghost objects: set<Node>)
    returns (m: Module)
    requires Ranked(Bindings(locals), rank) && ClosedUnderParts(objects)
    requires (forall x | x in Bindings(locals) :: Bindings(locals)[x] in objects) && forall n | n in roots :: n in objects
    requires forall n | n in objects :: Acyclic(n) && (n.kind.Atom? ==> n.parts == [])
    ensures m.locals == locals && m.roots == roots && m.children == [] && Resolvable(m)
  {
    ghost var level := LevelsExist(Bindings(locals), rank, objects);
    m := new Module(locals, roots, [], 0, rank, level);
  }

  // ----------------------------------------------------- what is walked

  /** The walk comes from `a` to `b` in `m` steps. */
  ghost predicate WalkReaches(values: Locals, a: Node, b: Node, m: nat)
    decreases m
  {
    if m == 0 then a == b else exists c | c in Next(values, a) :: WalkReaches(values, c, b, m - 1)
  }

  lemma {:induction false} WalkFurther(values: Locals, a: Node, b: Node, c: Node, m: nat)
    requires WalkReaches(values, a, b, m) && c in Next(values, b)
    ensures WalkReaches(values, a, c, m + 1)
    decreases m
  {
    if m == 0 {
      assert WalkReaches(values, c, c, 0);
    } else {
      var d :| d in Next(values, a) && WalkReaches(values, d, b, m - 1);
      WalkFurther(values, d, b, c, m - 1);
    }
  }

  /** The objects, out of `objects`, that the walk of the roots comes to. */
  ghost function Walked(values: Locals, roots: seq<Node>, objects: set<Node>): set<Node> {
    set n | n in objects && exists r, m: nat :: r in roots && WalkReaches(values, r, n, m)
  }

  /** Those of them that are rebuilt: all but references to locals, and values without parts. */
  ghost function Rebuilt(values: Locals, roots: seq<Node>, objects: set<Node>): set<Node> {
    set n | n in Walked(values, roots, objects) && !IsLocal(values, n) && !n.kind.Atom?
  }

  lemma WalkedStays(values: Locals, roots: seq<Node>, level: Levels, a: Node)
    requires Leveled(values, level) && a in Walked(values, roots, level.Keys)
    ensures Stays(values, a, Walked(values, roots, level.Keys))
  {
    var r, m: nat :| r in roots && WalkReaches(values, r, a, m);
    forall c | c in Next(values, a)
      ensures c in Walked(values, roots, level.Keys)
    {
      WalkFurther(values, r, a, c, m);
      NextLeveled(values, level, a, c);
    }
  }

  lemma NextLeveled(values: Locals, level: Levels, a: Node, c: Node)
    requires Leveled(values, level) && a in level && c in Next(values, a)
    ensures c in level
  {
  }

  lemma RootsWalked(values: Locals, roots: seq<Node>, objects: set<Node>)
    requires forall n | n in roots :: n in objects
    ensures forall n | n in roots :: n in Walked(values, roots, objects)
  {
    forall n | n in roots
      ensures n in Walked(values, roots, objects)
    {
      assert WalkReaches(values, n, n, 0);
    }
  }

  /** From what is done the walk comes only to what is done. */
  lemma {:induction false} WalkDone(values: Locals, m: Memo, a: Node, b: Node, steps: nat)
    requires Complete(values, m) && Done(values, m, a) && WalkReaches(values, a, b, steps)
    ensures Done(values, m, b)
    decreases steps
  {
    if steps > 0 {
      var c :| c in Next(values, a) && WalkReaches(values, c, b, steps - 1);
      NextDone(values, m, a, c);
      WalkDone(values, m, c, b, steps - 1);
    }
  }

  lemma NextDone(values: Locals, m: Memo, a: Node, c: Node)
    requires Complete(values, m) && Done(values, m, a) && c in Next(values, a)
    ensures Done(values, m, c)
  {
    if IsLocal(values, a) {
      assert Done(values, m, values[a.kind.name]);
    } else {
      assert StepsDone(values, m, a);
    }
  }

  /** Rewrite some roots with one pair of memo tables.  The objects allocated are known exactly
      from the input: one for every original rebuilt, which makes one record for each original
      record, and one for every tuple among their fields.  They are no more than the originals
      copied exactly when every tuple is in one place. */
  method InlineRoots(values: Locals, roots: seq<Node>, ghost rank: Ranks, ghost level: Levels)
    returns (outs: seq<Node>, ghost built: set<Node>)
    requires Ranked(values, rank) && Leveled(values, level)
    requires forall n | n in roots :: n in level
    ensures AllRewritten(values, rank, outs, roots, |roots|)
    ensures forall i, j | 0 <= i < j < |roots| && roots[i] == roots[j] :: outs[i] == outs[j]
    ensures forall o: Node | fresh(o) :: o in built
    ensures forall o | o in built :: fresh(o)
    ensures |built| == |Slots(Rebuilt(values, roots, level.Keys))|
    ensures |Records(built)| == |Records(Rebuilt(values, roots, level.Keys))|
    ensures |built| <= |Copied(Rebuilt(values, roots, level.Keys))| <==> OnePlace(Rebuilt(values, roots, level.Keys))
  {
    ghost var walked := Walked(values, roots, level.Keys);
    forall a | a in walked
      ensures Stays(values, a, walked)
    {
      WalkedStays(values, roots, level, a);
    }
    RootsWalked(values, roots, level.Keys);
    ghost var rebuilt;
    outs, built, rebuilt := WalkRoots(values, roots, rank, level, walked);
    RebuiltIs(values, roots, level.Keys, rebuilt);
    CopiesOnce(rebuilt);
  }

  lemma RebuiltIs(values: Locals, roots: seq<Node>, objects: set<Node>, rebuilt: set<Node>)
    requires rebuilt <= Walked(values, roots, objects) && forall n | n in rebuilt :: !IsLocal(values, n) && !n.kind.Atom?
    requires forall r, n, m: nat | r in roots && WalkReaches(values, r, n, m) && !IsLocal(values, n) && !n.kind.Atom? :: n in rebuilt
    ensures rebuilt == Rebuilt(values, roots, objects)
  {
    forall n | n in Rebuilt(values, roots, objects)
      ensures n in rebuilt
    {
      var r, m: nat :| r in roots && WalkReaches(values, r, n, m);
    }
  }

  method WalkRoots(values: Locals, roots: seq<Node>, ghost rank: Ranks, ghost level: Levels, ghost walked: set<Node>)
    returns (outs: seq<Node>, ghost built: set<Node>, ghost rebuilt: set<Node>)
    requires Ranked(values, rank) && Leveled(values, level) && ClosedUnderWalk(values, walked)
    requires forall n | n in roots :: n in level && n in walked
    ensures AllRewritten(values, rank, outs, roots, |roots|)
    ensures forall i, j | 0 <= i < j < |roots| && roots[i] == roots[j] :: outs[i] == outs[j]
    ensures forall o: Node | fresh(o) :: o in built
    ensures forall o | o in built :: fresh(o)
    ensures |built| == |Slots(rebuilt)| && |Records(built)| == |Records(rebuilt)|
    ensures rebuilt <= walked && forall n | n in rebuilt :: !IsLocal(values, n) && !n.kind.Atom?
    ensures forall r, n, m: nat | r in roots && WalkReaches(values, r, n, m) && !IsLocal(values, n) && !n.kind.Atom? :: n in rebuilt
  {
    var walker := new Walker(values, rank, level, walked);
    outs := [];
    while |outs| < |roots|
      invariant walker.Valid() && walker.values == values && walker.rank == rank && walker.level == level
      invariant walker.walked == walked && fresh(walker) && AllRewritten(values, rank, outs, roots, |outs|)
      invariant AllRecorded(values, walker.Memory(), roots, outs)
      invariant walker.pending == 0 && forall o: Node | fresh(o) :: o in walker.built
      invariant forall o | o in walker.built :: fresh(o)
    {
      ghost var before, was := walker.Memory(), walker.built;
      label Root:
      var out := walker.Walk(roots[|outs|]);
      OneMoreRewritten(values, rank, outs, roots, out);
      OneMoreRecorded(values, level, before, walker.Memory(), roots, outs, out);
      forall o: Node | fresh(o)
        ensures o in walker.built
      {
        assert fresh@Root(o) || o in was;
      }
      outs := outs + [out];
    }
    built, rebuilt := walker.built, walker.nodeCache.Keys;
    ghost var memo := walker.Memory();
    forall r, n, m: nat | r in roots && WalkReaches(values, r, n, m) && !IsLocal(values, n) && !n.kind.Atom?
      ensures n in rebuilt
    {
      RootDone(values, memo, roots, outs, r);
      WalkDone(values, memo, r, n, m);
    }
  }

  lemma RootDone(values: Locals, m: Memo, roots: seq<Node>, outs: seq<Node>, r: Node)
    requires |outs| == |roots| && AllRecorded(values, m, roots, outs) && r in roots
    ensures Done(values, m, r)
  {
    var i :| 0 <= i < |roots| && roots[i] == r;
    assert Recorded(values, m, roots[i], outs[i]);
  }

  // ----------------------------------------------- a tuple that is shared

  lemma {:induction false} SharedWalk(a: Node, t: Node, x: Node, n: Node, m: nat)
    requires a.kind.Record? && t.kind.Tuple? && x.kind.Atom? && a.parts == [t] && t.parts == [x]
    requires WalkReaches(map[], a, n, m)
    ensures n == a || n == x
  {
    if m > 0 {
      var c :| c in Next(map[], a) && WalkReaches(map[], c, n, m - 1);
      assert c == x;
      assert m - 1 > 0 ==> Next(map[], x) == {};
    }
  }

  lemma SharedRebuilt(a: Node, b: Node, t: Node, x: Node)
    requires a.kind.Record? && b.kind.Record? && t.kind.Tuple? && x.kind.Atom?
    requires a.parts == [t] && b.parts == [t] && t.parts == [x]
    ensures Rebuilt(map[], [a, b], {a, b, t, x}) == {a, b}
  {
    var objects := {a, b, t, x};
    RootsWalked(map[], [a, b], objects);
    assert a in [a, b] && b in [a, b];
    forall n | n in Walked(map[], [a, b], objects)
      ensures n == a || n == b || n == x
    {
      var r, m: nat :| r in [a, b] && WalkReaches(map[], r, n, m);
      SharedWalk(r, t, x, n, m);
    }
  }

  /** Two records that share a tuple are copied with four objects, where three were: each gets
      a tuple of its own. */
  method SharedTupleCopied(a: Node, b: Node, t: Node, x: Node) returns (outs: seq<Node>, ghost built: set<Node>)
    requires a != b && a.kind.Record? && b.kind.Record? && t.kind.Tuple? && x.kind.Atom?
    requires a.parts == [t] && b.parts == [t] && t.parts == [x] && x.parts == []
    requires x.height < t.height && t.height < a.height && t.height < b.height
    ensures forall o: Node | fresh(o) :: o in built
    ensures forall o | o in built :: fresh(o)
    ensures |built| == 4 && Copied({a, b}) == {a, b, t} && |{a, b, t}| == 3
  {
    ghost var level: Levels := map[a := 0, b := 0, t := 0, x := 0];
    assert level.Keys == {a, b, t, x};
    SharedLeveled(a, b, t, x, level);
    SharedRebuilt(a, b, t, x);
    SharedSlots(a, b, t);
    outs, built := InlineRoots(map[], [a, b], map[], level);
  }

  lemma SharedLeveled(a: Node, b: Node, t: Node, x: Node, level: Levels)
    requires a.kind.Record? && b.kind.Record? && t.kind.Tuple? && x.kind.Atom?
    requires a.parts == [t] && b.parts == [t] && t.parts == [x] && x.parts == []
    requires x.height < t.height && t.height < a.height && t.height < b.height
    requires level.Keys == {a, b, t, x} && forall n | n in level :: level[n] == 0
    ensures Ranked(map[], map[]) && Leveled(map[], level)
  {
    assert Acyclic(x) && Acyclic(t) && Acyclic(a) && Acyclic(b);
  }

  lemma SharedSlots(a: Node, b: Node, t: Node)
    requires a != b && a.kind.Record? && b.kind.Record? && t.kind.Tuple? && a.parts == [t] && b.parts == [t]
    ensures |Slots({a, b})| == 4 && Copied({a, b}) == {a, b, t} && |{a, b, t}| == 3
  {
    assert a != t && b != t;
    SlotsGrow({}, a);
    SlotsGrow({a}, b);
    assert Slots({}) == {} && {} + {a} == {a} && {a} + {b} == {a, b};
    assert Tuples(a, 1) == Tuples(b, 1) == 1;
    assert HasTuple(a, 0) && a.parts[0] == t;
  }

  /** Erase the locals of a module and of everything below it.  A hierarchy that has none
      is returned as it is. */
  method InlineLocals(m: Module) returns (out: Module)
    requires Resolvable(m)
    ensures Resolvable(out) && NoLocals(out) && Inlined(out, m)
    ensures NoLocals(m) ==> out == m
    decreases m.depth
  {
    var children: seq<Module> := [];
    while |children| < |m.children|
      invariant |children| <= |m.children|
      invariant forall i | 0 <= i < |children| ::
        Resolvable(children[i]) && NoLocals(children[i]) && Inlined(children[i], m.children[i])
      invariant NoLocals(m) ==> children == m.children[..|children|]
    {
      var child := InlineLocals(m.children[|children|]);
      children := children + [child];
    }
    if m.locals == [] {
      if children == m.children {
        return m;
      }
      out := new Module([], m.roots, children, Deeper(children), map[], map[]);
    } else {
      var roots, _ := InlineRoots(Bindings(m.locals), m.roots, m.rank, m.level);
      out := new Module([], roots, children, Deeper(children), map[], map[]);
    }
  }

  /** A second application changes nothing: it returns the very object it is given. */
  method InlineTwice(m: Module) returns (once: Module, twice: Module)
    requires Resolvable(m)
    ensures Resolvable(m) && Inlined(once, m) && twice == once
  {
    once := InlineLocals(m);
    twice := InlineLocals(once);
  }

  // -------------------------------- what is left of the locals, name by name

  /** The last local of the name `x` is the one at `i`. */
  ghost predicate IsLast(locals: seq<Local>, i: int, x: string) {
    0 <= i < |locals| && locals[i].name == x && forall j | i < j < |locals| :: locals[j].name != x
  }

  /** The binding of a name is its last local. */
  lemma {:induction false} LastCounts(locals: seq<Local>, i: int, x: string)
    requires IsLast(locals, i, x)
    ensures x in Bindings(locals) && Bindings(locals)[x] == locals[i].expression
  {
    var rest := locals[..|locals| - 1];
    if i < |rest| {
      assert locals[|rest|].name != x;
      LastCounts(rest, i, x);
    }
  }

  lemma {:induction false} BoundIsLast(locals: seq<Local>, x: string) returns (i: int)
    requires x in Bindings(locals)
    ensures IsLast(locals, i, x)
  {
    var rest, last := locals[..|locals| - 1], locals[|locals| - 1];
    if last.name == x {
      i := |rest|;
    } else {
      i := BoundIsLast(rest, x);
    }
  }

  lemma {:induction false} NamedIsBound(locals: seq<Local>, l: Local)
    requires l in locals
    ensures l.name in Bindings(locals)
  {
    var rest, last := locals[..|locals| - 1], locals[|locals| - 1];
    assert locals == rest + [last];
    if l in rest {
      NamedIsBound(rest, l);
    }
  }

  /** The tree has a reference to the name somewhere. */
  ghost predicate Refers(t: Tree, x: string) {
    (t.kind.Ref? && t.kind.name == x) || exists p | p in t.parts :: Refers(p, x)
  }

  lemma {:induction false} FreeOfName(values: Locals, t: Tree, x: string)
    requires Free(values, t) && x in values
    ensures !Refers(t, x)
  {
    if p :| p in t.parts && Refers(p, x) {
      FreeOfName(values, p, x);
    }
  }

  /** In the whole hierarchy no root refers to a name that was a local of its module. */
  ghost predicate Erased(out: Module, m: Module)
    decreases m.depth
  {
    && out.locals == [] && |out.roots| == |m.roots| && |out.children| == |m.children|
    && (forall n, l | n in out.roots && l in m.locals :: Acyclic(n) && !Refers(Unfold(n), l.name))
    && forall i | 0 <= i < |m.children| :: m.children[i].depth < m.depth && Erased(out.children[i], m.children[i])
  }

  /** Inlining leaves no reference to any local, the overridden ones included. */
  lemma {:induction false} InliningErases(out: Module, m: Module)
    requires Resolvable(m) && Inlined(out, m)
    ensures Erased(out, m)
    decreases m.depth
  {
    forall n, l | n in out.roots && l in m.locals
      ensures Acyclic(n) && !Refers(Unfold(n), l.name)
    {
      var locals := Bindings(m.locals);
      var i :| 0 <= i < |out.roots| && out.roots[i] == n;
      assert Rewrites(locals, m.rank, n, m.roots[i]);
      ExpandIsFree(locals, m.rank, m.roots[i]);
      NamedIsBound(m.locals, l);
      FreeOfName(locals, Unfold(n), l.name);
    }
    forall i | 0 <= i < |m.children|
      ensures m.children[i].depth < m.depth && Erased(out.children[i], m.children[i])
    {
      assert m.children[i] in m.children;
      InliningErases(out.children[i], m.children[i]);
    }
  }

  /** `full` gives each local the value of the last expression of its name, and every other
      name what `inputs` gives it. */
  ghost predicate GivesLast<V>(locals: seq<Local>, algebra: Algebra<V>, inputs: string -> V, full: string -> V) {
    && (forall i, x | IsLast(locals, i, x) ::
          Acyclic(locals[i].expression) && full(x) == Value(Unfold(locals[i].expression), algebra, full))
    && forall x | (forall l | l in locals :: l.name != x) :: full(x) == inputs(x)
  }

  lemma GivesAt<V>(locals: seq<Local>, algebra: Algebra<V>, inputs: string -> V, full: string -> V, x: string)
    requires GivesLast(locals, algebra, inputs, full)
    ensures x in Bindings(locals) ==> Acyclic(Bindings(locals)[x]) && full(x) == Value(Unfold(Bindings(locals)[x]), algebra, full)
    ensures x !in Bindings(locals) ==> full(x) == inputs(x)
  {
    if x in Bindings(locals) {
      var i := BoundIsLast(locals, x);
      LastCounts(locals, i, x);
    } else {
      forall l | l in locals
        ensures l.name != x
      {
        NamedIsBound(locals, l);
      }
    }
  }

  lemma GivesLastBinds<V>(locals: seq<Local>, rank: Ranks, algebra: Algebra<V>, inputs: string -> V, full: string -> V)
    requires Ranked(Bindings(locals), rank) && GivesLast(locals, algebra, inputs, full)
    ensures Binds(Bindings(locals), rank, algebra, inputs, full)
  {
    forall x
      ensures full(x) == if x in Bindings(locals) then Value(Unfold(Bindings(locals)[x]), algebra, full) else inputs(x)
    {
      GivesAt(locals, algebra, inputs, full, x);
    }
  }

  /** What inlining guarantees for a root of a module with locals: under the inputs alone it
      denotes what the original root denotes with every local bound to the value of the last
      expression of its name. */
  lemma InlinedRootMeaning<V>(out: Module, m: Module, i: nat, algebra: Algebra<V>, inputs: string -> V, full: string -> V)
    requires Resolvable(m) && Inlined(out, m) && m.locals != [] && i < |m.roots|
    requires GivesLast(m.locals, algebra, inputs, full)
    ensures Acyclic(m.roots[i]) && Acyclic(out.roots[i])
    ensures forall l | l in m.locals :: !Refers(Unfold(out.roots[i]), l.name)
    ensures Value(Unfold(out.roots[i]), algebra, inputs) == Value(Unfold(m.roots[i]), algebra, full)
  {
    var locals, n := Bindings(m.locals), m.roots[i];
    assert Rewrites(locals, m.rank, out.roots[i], n);
    GivesLastBinds(m.locals, m.rank, algebra, inputs, full);
    ExpandPreservesMeaning(locals, m.rank, n, algebra, inputs, full);
    InliningErases(out, m);
    assert out.roots[i] in out.roots;
  }
}
