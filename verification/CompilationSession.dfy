/** The demand-driven session: products are built at most once, values and failures are
    remembered, and what a demand yields does not depend on what came before it. */
module CompilationSession {
  import opened ProductGraph

  /** What a session remembers: results so far, products being built, and the builders
      run so far in the order they were started. */
  datatype Memory<V> = Memory(
    values: map<Key, V>, failures: map<Key, Error>, evaluating: set<Key>, started: seq<Key>)

  /** No product has two kinds of standing at once. */
  ghost predicate Apart<V>(g: Recipe<V>, m: Memory<V>) {
    m.values.Keys !! m.failures.Keys && m.values.Keys !! m.evaluating && m.failures.Keys !! m.evaluating &&
    m.values.Keys + m.failures.Keys + m.evaluating <= g.table.Keys
  }

  /** A remembered value is the outcome of its product; a remembered failure is the
      outcome of its product wherever that has one. */
  ghost predicate Meant<V>(g: Recipe<V>, m: Memory<V>) {
    (forall k {:trigger HasOutcome(g, k, m.values[k])} | k in m.values :: HasOutcome(g, k, m.values[k])) &&
    (forall k {:trigger Fails(g, k, m.failures[k])} | k in m.failures :: Fails(g, k, m.failures[k]))
  }

  /** Dependencies of computed products have been computed. */
  ghost predicate Closed<V>(g: Recipe<V>, m: Memory<V>) {
    forall k, d | k in m.values && k in g.table && d in g.table[k] :: d in m.values
  }

  /** The builders started are those of the products that have some standing, each once. */
  ghost predicate Logged<V>(m: Memory<V>) {
    (forall i, j | 0 <= i < j < |m.started| :: m.started[i] != m.started[j]) &&
    (forall k :: k in m.started <==> k in m.values || k in m.failures || k in m.evaluating)
  }

  ghost predicate Sound<V>(g: Recipe<V>, m: Memory<V>) {
    Apart(g, m) && Meant(g, m) && Closed(g, m) && Logged(m)
  }

  /** Nothing remembered in `m` is lost or changed in `n`. */
  ghost predicate Grown<V>(m: Memory<V>, n: Memory<V>) {
    && n.evaluating == m.evaluating && m.started <= n.started
    && (forall k | k in m.values :: k in n.values && n.values[k] == m.values[k])
    && (forall k | k in m.failures :: k in n.failures && n.failures[k] == m.failures[k])
  }

  lemma GrownTransitive<V>(a: Memory<V>, b: Memory<V>, c: Memory<V>)
    requires Grown(a, b) && Grown(b, c)
    ensures Grown(a, c)
  {
  }

  /** Only builders of products that `key` depends on have been started, or its own. */
  ghost predicate Beneath<V>(g: Recipe<V>, key: Key, before: seq<Key>, after: seq<Key>) {
    forall k | k in after && k !in before :: Below(g, key, k)
  }

  ghost predicate Below<V>(g: Recipe<V>, key: Key, k: Key) {
    exists m: nat :: Reaches(g, key, k, m)
  }

  lemma ReachesSelf<V>(g: Recipe<V>, key: Key)
    ensures Below(g, key, key)
  {
    assert Reaches(g, key, key, 0);
  }

  lemma BeneathMore<V>(g: Recipe<V>, key: Key, d: Key, a: seq<Key>, b: seq<Key>, c: seq<Key>)
    requires key in g.table && d in g.table[key] && Beneath(g, key, a, b) && Beneath(g, d, b, c)
    ensures Beneath(g, key, a, c)
  {
    forall k | k in c && k !in a
      ensures Below(g, key, k)
    {
      if k !in b {
        var m: nat :| Reaches(g, d, k, m);
        assert Reaches(g, key, k, m + 1);
      }
    }
  }

  /** Starting a builder. */
  lemma Starts<V>(g: Recipe<V>, m: Memory<V>, key: Key)
    requires Sound(g, m) && key in g.table && key !in m.values && key !in m.failures && key !in m.evaluating
    ensures Sound(g, m.(evaluating := m.evaluating + {key}, started := m.started + [key]))
  {
  }

  /** Remembering what a builder came to. */
  lemma Ends<V>(g: Recipe<V>, m: Memory<V>, key: Key, r: Result<V>)
    requires Sound(g, m) && key in m.evaluating && Yields(g, key, r)
    requires r.Ok? ==> forall d | d in g.table[key] :: d in m.values
    ensures Sound(g, Ended(m, key, r))
  {
    var n := Ended(m, key, r);
    assert Meant(g, n);
    assert Closed(g, n);
    assert Apart(g, n);
    assert Logged(n);
  }

  function Ended<V>(m: Memory<V>, key: Key, r: Result<V>): Memory<V> {
    match r
    case Ok(v) => m.(values := m.values[key := v], evaluating := m.evaluating - {key})
    case Raised(e) => m.(failures := m.failures[key := e], evaluating := m.evaluating - {key})
  }

  /** A whole build, from before its start (`m`) to after its end, remembers the rest. */
  lemma BuildGrows<V>(m: Memory<V>, n: Memory<V>, key: Key, r: Result<V>)
    requires key !in m.values && key !in m.failures && key !in m.evaluating
    requires key !in n.values && key !in n.failures
    requires Grown(m.(evaluating := m.evaluating + {key}, started := m.started + [key]), n)
    ensures Grown(m, Ended(n, key, r))
  {
  }

  class Session<V> {
    const recipe: Recipe<V>
    var values: map<Key, V>
    var failures: map<Key, Error>
    var evaluating: set<Key>
    ghost var started: seq<Key>

    ghost function Remembered(): Memory<V>
      reads this
    {
      Memory(values, failures, evaluating, started)
    }

    ghost predicate Valid()
      reads this
    {
      Sound(recipe, Remembered())
    }

    constructor (recipe: Recipe<V>)
      ensures Valid() && this.recipe == recipe
      ensures values == map[] && failures == map[] && evaluating == {} && started == []
    {
      this.recipe := recipe;
      values, failures, evaluating, started := map[], map[], {}, [];
    }

    /** Demand one product. */
    method Demand(key: Key) returns (r: Result<V>)
      requires Valid() && Awaited(recipe, evaluating, key)
      modifies this
      ensures Valid() && Grown(old(Remembered()), Remembered())
      ensures Yields(recipe, key, r)
      ensures r.Ok? ==> key in values && values[key] == r.value
      ensures r.Raised? && key in recipe.table && key !in evaluating ==>
              key in failures && failures[key] == r.error
      ensures key !in recipe.table || key in old(values) || key in old(failures) || key in evaluating ==>
              values == old(values) && failures == old(failures) && started == old(started)
      ensures key !in recipe.table ==> r == Raised(UnknownProduct(key))
      ensures key in old(values) ==> r == Ok(old(values)[key])
      ensures key in old(failures) ==> r == Raised(old(failures)[key])
      ensures key in evaluating ==> r == Raised(DependencyCycle(key))
      ensures Beneath(recipe, key, old(started), started)
      decreases recipe.table.Keys - evaluating, 1
    {
      if key !in recipe.table {
        return Raised(UnknownProduct(key));
      }
      if key in values {
        assert HasOutcome(recipe, key, values[key]);
        return Ok(values[key]);
      }
      if key in failures {
        assert Fails(recipe, key, failures[key]);
        return Raised(failures[key]);
      }
      if key in evaluating {
        OnCycle(recipe, key, evaluating);
        return Raised(DependencyCycle(key));
      }
      r := Build(key);
    }

    /** Run the builder of a product that has no result yet, and remember what comes of it. */
    method Build(key: Key) returns (r: Result<V>)
      requires Valid() && Awaited(recipe, evaluating, key)
      requires key in recipe.table && key !in values && key !in failures && key !in evaluating
      modifies this
      ensures Valid() && Grown(old(Remembered()), Remembered())
      ensures Yields(recipe, key, r)
      ensures match r
        case Ok(v) => key in values && values[key] == v
        case Raised(e) => key in failures && failures[key] == e
      ensures Beneath(recipe, key, old(started), started)
      decreases recipe.table.Keys - evaluating, 0
    {
      ghost var before := Remembered();
      Starts(recipe, before, key);
      BeingBuilt(recipe, evaluating, key);
      evaluating := evaluating + {key};
      started := started + [key];
      ReachesSelf(recipe, key);
      r := RunBuilder(key);
      Conclude(key, r, before);
    }

    /** Demand the dependencies, and make of them what the builder makes. */
    method RunBuilder(key: Key) returns (r: Result<V>)
      requires Valid() && key in recipe.table && key in evaluating
      requires forall d | d in recipe.table[key] :: Awaited(recipe, evaluating, d)
      modifies this
      ensures Valid() && Grown(old(Remembered()), Remembered()) && Yields(recipe, key, r)
      ensures r.Ok? ==> forall d | d in recipe.table[key] :: d in values
      ensures Beneath(recipe, key, old(started), started)
      decreases recipe.table.Keys - evaluating, 3
    {
      var d := DemandDependencies(key);
      match d {
        case Ok(vs) =>
          r := recipe.build(key, vs);
          SuppliedOutcomes(recipe.table[key], vs, |vs|);
          BuilderDecides(recipe, key, vs);
        case Raised(e) =>
          r := Raised(e);
      }
    }

    /** Remember what came of a build. */
    method Conclude(key: Key, r: Result<V>, ghost before: Memory<V>)
      requires Valid() && key in evaluating && key in recipe.table && Yields(recipe, key, r)
      requires r.Ok? ==> forall d | d in recipe.table[key] :: d in values
      requires key !in before.values && key !in before.failures && key !in before.evaluating
      requires Grown(before.(evaluating := before.evaluating + {key}, started := before.started + [key]), Remembered())
      modifies `evaluating, `values, `failures
      ensures Valid() && Grown(before, Remembered())
      ensures match r
        case Ok(v) => key in values && values[key] == v
        case Raised(e) => key in failures && failures[key] == e
    {
      Ends(recipe, Remembered(), key, r);
      BuildGrows(before, Remembered(), key, r);
      evaluating := evaluating - {key};
      match r {
        case Ok(v) => values := values[key := v];
        case Raised(e) => failures := failures[key := e];
      }
    }

    /** Demand the dependencies of the product being built, up to the first failure. */
    method DemandDependencies(key: Key) returns (r: Result<seq<V>>)
      requires Valid() && key in recipe.table && key in evaluating
      requires forall d | d in recipe.table[key] :: Awaited(recipe, evaluating, d)
      modifies this
      ensures Valid() && Grown(old(Remembered()), Remembered())
      ensures match r
        case Ok(vs) => Supplied(recipe.table[key], vs, |recipe.table[key]|)
        case Raised(e) => Fails(recipe, key, e)
      ensures Beneath(recipe, key, old(started), started)
      decreases recipe.table.Keys - evaluating, 2
    {
      var ks := recipe.table[key];
      var vs := [];
      var i := 0;
      while i < |ks|
        invariant 0 <= i <= |ks|
        invariant Valid() && Grown(old(Remembered()), Remembered()) && Supplied(ks, vs, i)
        invariant Beneath(recipe, key, old(started), started)
      {
        ghost var before := Remembered();
        var d := Demand(ks[i]);
        GrownTransitive(old(Remembered()), before, Remembered());
        BeneathMore(recipe, key, ks[i], old(started), before.started, started);
        if d.Raised? {
          SuppliedFails(key, vs, i, d.error);
          return Raised(d.error);
        }
        SuppliedMore(before, ks, vs, i, d.value);
        vs := vs + [d.value];
        i := i + 1;
      }
      r := Ok(vs);
    }

    /** The first `i` of the products are remembered with the values `vs`. */
    ghost predicate Supplied(ks: seq<Key>, vs: seq<V>, i: nat)
      reads this
    {
      |vs| == i <= |ks| && forall j | 0 <= j < i :: ks[j] in values && values[ks[j]] == vs[j]
    }

    lemma SuppliedMore(before: Memory<V>, ks: seq<Key>, vs: seq<V>, i: nat, v: V)
      requires i < |ks| && |vs| == i && Grown(before, Remembered())
      requires forall j | 0 <= j < i :: ks[j] in before.values && before.values[ks[j]] == vs[j]
      requires ks[i] in values && values[ks[i]] == v
      ensures Supplied(ks, vs + [v], i + 1)
    {
    }

    lemma SuppliedFails(key: Key, vs: seq<V>, i: nat, e: Error)
      requires Valid() && key in recipe.table && i < |recipe.table[key]| && Supplied(recipe.table[key], vs, i)
      requires Fails(recipe, recipe.table[key][i], e)
      ensures Fails(recipe, key, e)
    {
      SuppliedOutcomes(recipe.table[key], vs, i);
      FailurePropagates(recipe, key, i, vs, e);
    }

    lemma SuppliedOutcomes(ks: seq<Key>, vs: seq<V>, i: nat)
      requires Valid() && Supplied(ks, vs, i)
      ensures forall j | 0 <= j < i :: HasOutcome(recipe, ks[j], vs[j])
    {
      forall j | 0 <= j < i
        ensures HasOutcome(recipe, ks[j], vs[j])
      {
        assert HasOutcome(recipe, ks[j], Remembered().values[ks[j]]);
      }
    }
  }

  /** `k` is settled and its outcome is the value `v`. */
  ghost predicate HasOutcome<V>(g: Recipe<V>, k: Key, v: V) {
    exists n: nat :: Settled(g, k, n) && Outcome(g, k, n) == Ok(v)
  }

  /** If `k` is settled at all, its outcome is the error `e`. */
  ghost predicate Fails<V>(g: Recipe<V>, k: Key, e: Error) {
    forall n: nat | Settled(g, k, n) :: Outcome(g, k, n) == Raised(e)
  }

  /** The demand of `k` yielded what `k` denotes. */
  ghost predicate Yields<V>(g: Recipe<V>, k: Key, r: Result<V>) {
    match r
    case Ok(v) => HasOutcome(g, k, v)
    case Raised(e) => Fails(g, k, e)
  }

  lemma {:induction false} OutcomesEach<V>(g: Recipe<V>, ks: seq<Key>, n: nat, i: nat)
    requires (forall d | d in ks :: Settled(g, d, n)) && Outcomes(g, ks, n).Ok? && i < |ks|
    ensures Outcome(g, ks[i], n) == Ok(Outcomes(g, ks, n).value[i])
    decreases i
  {
    if i > 0 {
      OutcomesEach(g, ks[1..], n, i - 1);
    }
  }

  /** The remembered values of several products, in order. */
  ghost predicate ValuesOf<V>(m: Memory<V>, ks: seq<Key>, vs: seq<V>) {
    |vs| == |ks| && forall i | 0 <= i < |ks| :: ks[i] in m.values && m.values[ks[i]] == vs[i]
  }

  /** Every remembered value is what the builder of its product makes of the remembered values
      of its dependencies, in the order in which the table lists them. */
  lemma RememberedIsBuilt<V>(g: Recipe<V>, m: Memory<V>, k: Key) returns (vs: seq<V>)
    requires Sound(g, m) && k in m.values
    ensures k in g.table && ValuesOf(m, g.table[k], vs) && g.build(k, vs) == Ok(m.values[k])
  {
    assert HasOutcome(g, k, m.values[k]);
    var n: nat :| Settled(g, k, n) && Outcome(g, k, n) == Ok(m.values[k]);
    var ks := g.table[k];
    vs := Outcomes(g, ks, n - 1).value;
    forall i | 0 <= i < |ks|
      ensures ks[i] in m.values && m.values[ks[i]] == vs[i]
    {
      assert ks[i] in g.table[k];
      OutcomesEach(g, ks, n - 1, i);
      assert HasOutcome(g, ks[i], m.values[ks[i]]);
      var j: nat :| Settled(g, ks[i], j) && Outcome(g, ks[i], j) == Ok(m.values[ks[i]]);
      OutcomeUnique(g, ks[i], j, n - 1);
    }
  }

  /** Every product being built depends on `k`. */
  ghost predicate Awaited<V>(g: Recipe<V>, evaluating: set<Key>, k: Key) {
    forall e | e in evaluating :: exists m: nat :: m > 0 && Reaches(g, e, k, m)
  }

  lemma BeingBuilt<V>(g: Recipe<V>, evaluating: set<Key>, key: Key)
    requires Awaited(g, evaluating, key) && key in g.table
    ensures forall d | d in g.table[key] :: Awaited(g, evaluating + {key}, d)
  {
    forall d | d in g.table[key]
      ensures Awaited(g, evaluating + {key}, d)
    {
      DependencyAwaited(g, evaluating, key, d);
    }
  }

  lemma OnCycle<V>(g: Recipe<V>, key: Key, evaluating: set<Key>)
    requires key in evaluating && key in g.table && Awaited(g, evaluating, key)
    ensures Fails(g, key, DependencyCycle(key))
  {
    var m: nat :| m > 0 && Reaches(g, key, key, m);
    forall n: nat
      ensures !Settled(g, key, n)
    {
      SettledOffCycle(g, key, m, n);
    }
  }

  lemma DependencyAwaited<V>(g: Recipe<V>, evaluating: set<Key>, key: Key, d: Key)
    requires Awaited(g, evaluating, key) && key in g.table && d in g.table[key]
    ensures Awaited(g, evaluating + {key}, d)
  {
    forall e | e in evaluating + {key}
      ensures exists m: nat :: m > 0 && Reaches(g, e, d, m)
    {
      if e == key {
        assert Reaches(g, d, d, 0);
        assert Reaches(g, key, d, 1);
      } else {
        var m: nat :| m > 0 && Reaches(g, e, key, m);
        ReachesFurther(g, e, key, d, m);
      }
    }
  }

  /** When a dependency fails after others have succeeded, so does the product. */
  lemma FailurePropagates<V>(g: Recipe<V>, key: Key, i: nat, vs: seq<V>, e: Error)
    requires key in g.table && i < |g.table[key]| && |vs| == i
    requires forall j | 0 <= j < i :: HasOutcome(g, g.table[key][j], vs[j])
    requires Fails(g, g.table[key][i], e)
    ensures Fails(g, key, e)
  {
    var ks := g.table[key];
    forall n: nat | Settled(g, key, n)
      ensures Outcome(g, key, n) == Raised(e)
    {
      forall j | 0 <= j < i
        ensures ks[j] in g.table[key] && Outcome(g, ks[j], n - 1).Ok?
      {
        assert ks[j] in g.table[key];
        var m: nat :| Settled(g, ks[j], m) && Outcome(g, ks[j], m) == Ok(vs[j]);
        OutcomeUnique(g, ks[j], n - 1, m);
      }
      assert ks[i] in g.table[key];
      OutcomesRaised(g, ks, n - 1, i, e);
    }
  }

  /** When all dependencies have succeeded the builder decides. */
  lemma BuilderDecides<V>(g: Recipe<V>, key: Key, vs: seq<V>)
    requires key in g.table && |vs| == |g.table[key]|
    requires forall j | 0 <= j < |vs| :: HasOutcome(g, g.table[key][j], vs[j])
    ensures Yields(g, key, g.build(key, vs))
  {
    var ks := g.table[key];
    var n := CommonDepth(g, ks, vs);
    OutcomesOk(g, ks, n, vs);
    assert Settled(g, key, n + 1) && Outcome(g, key, n + 1) == g.build(key, vs);
    forall m: nat | Settled(g, key, m)
      ensures Outcome(g, key, m) == g.build(key, vs)
    {
      OutcomeUnique(g, key, m, n + 1);
    }
  }

  /** One depth that settles all of several products. */
  lemma {:induction false} CommonDepth<V>(g: Recipe<V>, ks: seq<Key>, vs: seq<V>) returns (n: nat)
    requires |ks| == |vs| && forall j | 0 <= j < |ks| :: HasOutcome(g, ks[j], vs[j])
    ensures forall j | 0 <= j < |ks| :: Settled(g, ks[j], n) && Outcome(g, ks[j], n) == Ok(vs[j])
    decreases |ks|
  {
    n := 0;
    if ks != [] {
      var a: nat :| Settled(g, ks[0], a) && Outcome(g, ks[0], a) == Ok(vs[0]);
      assert forall j | 0 <= j < |ks| - 1 :: ks[1..][j] == ks[j + 1] && vs[1..][j] == vs[j + 1];
      var b := CommonDepth(g, ks[1..], vs[1..]);
      n := if a < b then b else a;
      forall j | 0 <= j < |ks|
        ensures Settled(g, ks[j], n) && Outcome(g, ks[j], n) == Ok(vs[j])
      {
        var m := if j == 0 then a else b;
        if j > 0 {
          assert ks[1..][j - 1] == ks[j] && vs[1..][j - 1] == vs[j];
        }
        SettledDeeper(g, ks[j], m, n);
        OutcomeUnique(g, ks[j], m, n);
      }
    }
  }
}
