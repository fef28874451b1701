/** What a demand yields is settled by the table and the builders alone. */
module SessionTheorems {
  import opened ProductGraph
  import opened CompilationSession

  /** A demand succeeds exactly when nothing below the product is cyclic and every name
      it reaches is a product whose builder succeeds. */
  lemma DemandSucceedsWhen<V>(g: Recipe<V>, k: Key, r: Result<V>)
    requires Yields(g, k, r)
    ensures r.Ok? <==> !CycleBelow(g, k) && AllBuild(g, k)
  {
    SettledIffAcyclic(g, k);
    if r.Ok? {
      assert exists n: nat :: Settled(g, k, n);
    }
    if n: nat :| Settled(g, k, n) {
      YieldsOutcome(g, k, r, n);
      SucceedsWhenAllBuild(g, k, n);
    }
  }

  /** Demands of one product in sessions with different pasts both succeed, with the same
      value, or both fail; without a cycle below the product even the errors agree. */
  lemma HistoryIndependent<V>(g: Recipe<V>, k: Key, r: Result<V>, q: Result<V>)
    requires Yields(g, k, r) && Yields(g, k, q)
    ensures r.Ok? <==> q.Ok?
    ensures r.Ok? ==> r == q
    ensures !CycleBelow(g, k) ==> r == q
  {
    SettledIffAcyclic(g, k);
    if n: nat :| Settled(g, k, n) {
      YieldsOutcome(g, k, r, n);
      YieldsOutcome(g, k, q, n);
    }
  }

  lemma YieldsOutcome<V>(g: Recipe<V>, k: Key, r: Result<V>, n: nat)
    requires Yields(g, k, r) && Settled(g, k, n)
    ensures r == Outcome(g, k, n)
  {
    if r.Ok? {
      var m: nat :| Settled(g, k, m) && Outcome(g, k, m) == Ok(r.value);
      OutcomeUnique(g, k, n, m);
    }
  }

  /** Two sessions over one recipe, each with any past, asked for the same product. */
  method DemandInBoth<V>(a: Session<V>, b: Session<V>, key: Key) returns (r: Result<V>, q: Result<V>)
    requires a != b && a.recipe == b.recipe && a.Valid() && b.Valid()
    requires a.evaluating == {} && b.evaluating == {}
    modifies a, b
    ensures a.Valid() && b.Valid() && a.evaluating == {} && b.evaluating == {}
    ensures (r.Ok? <==> q.Ok?) && (r.Ok? ==> r == q)
    ensures !CycleBelow(a.recipe, key) ==> r == q
  {
    r := a.Demand(key);
    q := b.Demand(key);
    HistoryIndependent(a.recipe, key, r, q);
  }

  /** Asking again yields the same result. */
  method DemandTwice<V>(a: Session<V>, key: Key) returns (r: Result<V>, q: Result<V>)
    requires a.Valid() && a.evaluating == {}
    modifies a
    ensures a.Valid() && a.evaluating == {} && q == r
  {
    r := a.Demand(key);
    ghost var before := a.started;
    q := a.Demand(key);
    assert a.started == before;
    HistoryIndependent(a.recipe, key, r, q);
    if key !in a.recipe.table {
      assert Settled(a.recipe, key, 0);
      SettledIffAcyclic(a.recipe, key);
    }
  }

  // ------------------------------------------------------- the shipped table

  const PRODUCTS: map<Key, seq<Key>> := map[
    Syntax := [],
    Semantic := [Syntax],
    Selection := [Semantic],
    Formal := [Selection],
    Planning := [Selection],
    SimulationPlan := [Planning],
    TargetInstance := [Selection],
    Documents := [Selection],
    Reports := [Selection, Planning],
    Materialized := [Syntax, Selection, Formal, Planning, TargetInstance, Documents, Reports]]

  /** The level of a product in the shipped table. */
  function Level(k: Key): nat {
    match k
    case Syntax => 1
    case Semantic => 2
    case Selection => 3
    case Reports => 5
    case SimulationPlan => 5
    case Materialized => 6
    case _ => 4
  }

  lemma LevelsDescend(k: Key, d: Key)
    requires k in PRODUCTS && d in PRODUCTS[k]
    ensures Level(d) < Level(k)
  {
  }

  lemma {:induction false} ShippedSettled<V>(g: Recipe<V>, k: Key, n: nat)
    requires g.table == PRODUCTS && n >= Level(k)
    ensures Settled(g, k, n)
    decreases n
  {
    if k in g.table {
      forall d | d in g.table[k]
        ensures Settled(g, d, n - 1)
      {
        LevelsDescend(k, d);
        ShippedSettled(g, d, n - 1);
      }
    }
  }

  lemma ShippedAcyclic<V>(g: Recipe<V>, k: Key)
    requires g.table == PRODUCTS
    ensures !CycleBelow(g, k)
  {
    var n: nat := 6;
    ShippedSettled(g, k, n);
    SettledIffAcyclic(g, k);
    assert Settled(g, k, n);
  }

  /** With the shipped table every demand, failing ones included, is independent of the
      session's past, whatever the builders do. */
  lemma ShippedHistoryIndependent<V>(g: Recipe<V>, k: Key, r: Result<V>, q: Result<V>)
    requires g.table == PRODUCTS && Yields(g, k, r) && Yields(g, k, q)
    ensures r == q
  {
    ShippedAcyclic(g, k);
    HistoryIndependent(g, k, r, q);
  }

  // ------------------------------------- what a demand of a shipped product does

  /** The products whose builders run when `k` is demanded afresh. */
  function Needs(k: Key): set<Key> {
    match k
    case Syntax => {Syntax}
    case Semantic => {Syntax, Semantic}
    case Selection => {Syntax, Semantic, Selection}
    case Formal => {Syntax, Semantic, Selection, Formal}
    case Planning => {Syntax, Semantic, Selection, Planning}
    case SimulationPlan => {Syntax, Semantic, Selection, Planning, SimulationPlan}
    case TargetInstance => {Syntax, Semantic, Selection, TargetInstance}
    case Documents => {Syntax, Semantic, Selection, Documents}
    case Reports => {Syntax, Semantic, Selection, Planning, Reports}
    case Materialized =>
      {Syntax, Semantic, Selection, Formal, Planning, TargetInstance, Documents, Reports, Materialized}
    case Other(_) => {}
  }

  /** The products that cannot be had when the builder of `j` fails. */
  function Breaks(j: Key): set<Key> {
    match j
    case Syntax => PRODUCTS.Keys
    case Semantic => PRODUCTS.Keys - {Syntax}
    case Selection => PRODUCTS.Keys - {Syntax, Semantic}
    case Planning => {Planning, SimulationPlan, Reports, Materialized}
    case SimulationPlan => {SimulationPlan}
    case Materialized => {Materialized}
    case Other(_) => {}
    case _ => {j, Materialized}
  }

  lemma NeedsOrBreaks(k: Key, j: Key)
    ensures j in Needs(k) <==> k in Breaks(j)
  {
  }

  lemma NeedsOfParts(k: Key, d: Key)
    requires k in PRODUCTS && d in PRODUCTS[k]
    ensures d in PRODUCTS && Needs(d) <= Needs(k)
  {
  }

  /** Of a product needed by `k`, other than itself, some dependency of `k` has need. */
  function Via(k: Key, j: Key): Key {
    match k
    case Semantic => Syntax
    case Selection => Semantic
    case SimulationPlan => Planning
    case Reports => if j == Planning then Planning else Selection
    case Materialized =>
      if j == Formal || j == Planning || j == TargetInstance || j == Documents || j == Reports then j else Selection
    case _ => Selection
  }

  lemma NeedsByWay(k: Key, j: Key)
    requires k in PRODUCTS && j in Needs(k) && j != k
    ensures Via(k, j) in PRODUCTS[k] && j in Needs(Via(k, j))
  {
  }

  lemma {:induction false} NeededIsReached<V>(g: Recipe<V>, k: Key, j: Key) returns (m: nat)
    requires g.table == PRODUCTS && k in PRODUCTS && j in Needs(k)
    ensures Reaches(g, k, j, m)
    decreases Level(k)
  {
    if j == k {
      m := 0;
    } else {
      NeedsByWay(k, j);
      NeedsOfParts(k, Via(k, j));
      LevelsDescend(k, Via(k, j));
      m := NeededIsReached(g, Via(k, j), j);
      m := m + 1;
    }
  }

  lemma {:induction false} ReachedIsNeeded<V>(g: Recipe<V>, k: Key, j: Key, m: nat)
    requires g.table == PRODUCTS && k in PRODUCTS && Reaches(g, k, j, m)
    ensures j in Needs(k)
    decreases m
  {
    if m > 0 {
      var d :| d in PRODUCTS[k] && Reaches(g, d, j, m - 1);
      NeedsOfParts(k, d);
      ReachedIsNeeded(g, d, j, m - 1);
      assert j in Needs(d);
    }
  }

  /** The builder of `j`, where its dependencies are to be had, succeeds. */
  ghost predicate Builds<V>(g: Recipe<V>, j: Key)
    requires g.table == PRODUCTS
  {
    ShippedSettled(g, j, 6);
    BuilderSucceeds(g, j, 6)
  }

  lemma BuildsWheneverSettled<V>(g: Recipe<V>, j: Key, i: nat)
    requires g.table == PRODUCTS && Settled(g, j, i)
    ensures BuilderSucceeds(g, j, i) <==> Builds(g, j)
  {
    ShippedSettled(g, j, 6);
    BuilderSucceedsAnyway(g, j, i, 6);
  }

  ghost predicate AllNeededBuild<V>(g: Recipe<V>, k: Key)
    requires g.table == PRODUCTS
  {
    forall j | j in Needs(k) :: Builds(g, j)
  }

  lemma NeededBuild<V>(g: Recipe<V>, k: Key)
    requires g.table == PRODUCTS && k in PRODUCTS
    ensures AllBuild(g, k) <==> AllNeededBuild(g, k)
  {
    if AllBuild(g, k) {
      forall j | j in Needs(k)
        ensures Builds(g, j)
      {
        var m := NeededIsReached(g, k, j);
        ShippedSettled(g, j, 6);
        assert BuilderSucceeds(g, j, 6);
      }
    }
    if AllNeededBuild(g, k) {
      forall j: Key, m: nat, i: nat | Reaches(g, k, j, m) && Settled(g, j, i)
        ensures BuilderSucceeds(g, j, i)
      {
        ReachedIsNeeded(g, k, j, m);
        BuildsWheneverSettled(g, j, i);
      }
    }
  }

  /** A demand of a shipped product succeeds exactly when the builders it needs succeed. */
  lemma ShippedSucceedsWhen<V>(g: Recipe<V>, k: Key, r: Result<V>)
    requires g.table == PRODUCTS && k in PRODUCTS && Yields(g, k, r)
    ensures r.Ok? <==> forall j | j in Needs(k) :: Builds(g, j)
  {
    ShippedAcyclic(g, k);
    DemandSucceedsWhen(g, k, r);
    NeededBuild(g, k);
  }

  /** A builder that fails makes exactly the demands of the products it breaks fail. */
  lemma FailureBreaks<V>(g: Recipe<V>, j: Key, k: Key, r: Result<V>)
    requires g.table == PRODUCTS && k in PRODUCTS && Yields(g, k, r) && !Builds(g, j)
    ensures k in Breaks(j) ==> r.Raised?
    ensures k !in Breaks(j) && (forall i | i in PRODUCTS && i != j :: Builds(g, i)) ==> r.Ok?
  {
    ShippedSucceedsWhen(g, k, r);
    NeedsOrBreaks(k, j);
    NeedsProducts(k);
  }

  lemma NeedsProducts(k: Key)
    ensures Needs(k) <= PRODUCTS.Keys
  {
  }

  /** A demand of a shipped product in a session of its own: it succeeds exactly when the
      builders it needs succeed, and has then run these builders, each once, and no others. */
  method DemandAfresh<V>(recipe: Recipe<V>, key: Key) returns (r: Result<V>, s: Session<V>)
    requires recipe.table == PRODUCTS && key in PRODUCTS
    ensures fresh(s) && s.Valid() && s.recipe == recipe && s.evaluating == {}
    ensures r.Ok? <==> forall j | j in Needs(key) :: Builds(recipe, j)
    ensures r.Ok? ==> forall j :: j in s.started <==> j in Needs(key)
    ensures forall j | j in s.started :: j in Needs(key)
    ensures forall i, j | 0 <= i < j < |s.started| :: s.started[i] != s.started[j]
  {
    s := new Session(recipe);
    r := s.Demand(key);
    ShippedSucceedsWhen(recipe, key, r);
    forall j | j in s.started
      ensures j in Needs(key)
    {
      assert Below(recipe, key, j);
      var m: nat :| Reaches(recipe, key, j, m);
      ReachedIsNeeded(recipe, key, j, m);
    }
    if r.Ok? {
      forall j | j in Needs(key)
        ensures j in s.started
      {
        var m := NeededIsReached(recipe, key, j);
        ComputedBelow(recipe, s.Remembered(), key, j, m);
      }
    }
  }

  /** What a computed product depends on has been computed. */
  lemma {:induction false} ComputedBelow<V>(g: Recipe<V>, m: Memory<V>, k: Key, j: Key, n: nat)
    requires Closed(g, m) && k in m.values && Reaches(g, k, j, n)
    ensures j in m.values
    decreases n
  {
    if n > 0 {
      var d :| d in g.table[k] && Reaches(g, d, j, n - 1);
      ComputedBelow(g, m, d, j, n - 1);
    }
  }
}
