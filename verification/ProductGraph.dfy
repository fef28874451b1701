/** What a table of compilation products and their builders denotes, apart from any
    order in which products are demanded. */
module ProductGraph {

  import Dependencies

  /** The shipped products, and any others a table may have. */
  datatype Key = Syntax | Semantic | Selection | Formal | Planning | SimulationPlan | TargetInstance
               | Documents | Reports | Materialized | Other(name: string)

  datatype Error = UnknownProduct(key: Key) | DependencyCycle(key: Key) | BuilderError(text: string)

  datatype Result<+V> = Ok(value: V) | Raised(error: Error)

  /** The products with the dependencies their builders demand, in order, and what each
      builder makes of the values of its dependencies. */
  datatype Recipe<!V> = Recipe(table: map<Key, seq<Key>>, build: (Key, seq<V>) -> Result<V>)

  /** Everything below `k` is free of cycles and at most `n` levels deep.  Names that are
      no products count as leaves. */
  ghost predicate Settled<V>(g: Recipe<V>, k: Key, n: nat)
    decreases n
  {
    k !in g.table || (n > 0 && forall d | d in g.table[k] :: Settled(g, d, n - 1))
  }

  /** The outcome of demanding `k` on its own. */
  ghost function Outcome<V>(g: Recipe<V>, k: Key, n: nat): Result<V>
    requires Settled(g, k, n)
    decreases n, 1
  {
    if k !in g.table then Raised(UnknownProduct(k)) else
      match Outcomes(g, g.table[k], n - 1)
      case Ok(values) => g.build(k, values)
      case Raised(error) => Raised(error)
  }

  /** The values of several products, or the first error among them. */
  ghost function Outcomes<V>(g: Recipe<V>, ks: seq<Key>, n: nat): (r: Result<seq<V>>)
    requires forall d | d in ks :: Settled(g, d, n)
    ensures r.Ok? ==> |r.value| == |ks|
    decreases n, 2, |ks|
  {
    if ks == [] then Ok([]) else
      match Outcome(g, ks[0], n)
      case Raised(error) => Raised(error)
      case Ok(v) =>
        match Outcomes(g, ks[1..], n)
        case Raised(error) => Raised(error)
        case Ok(vs) => Ok([v] + vs)
  }

  /** There is a chain of `m` dependencies from `a` down to `b`. */
  ghost predicate Reaches<V>(g: Recipe<V>, a: Key, b: Key, m: nat)
    decreases m
  {
    if m == 0 then a == b else a in g.table && exists d | d in g.table[a] :: Reaches(g, d, b, m - 1)
  }

  lemma {:induction false} SettledDeeper<V>(g: Recipe<V>, k: Key, n: nat, m: nat)
    requires Settled(g, k, n) && n <= m
    ensures Settled(g, k, m)
    decreases n
  {
    if k in g.table {
      forall d | d in g.table[k]
        ensures Settled(g, d, m - 1)
      {
        SettledDeeper(g, d, n - 1, m - 1);
      }
    }
  }

  /** The outcome does not depend on the depth bound. */
  lemma {:induction false} OutcomeUnique<V>(g: Recipe<V>, k: Key, n: nat, m: nat)
    requires Settled(g, k, n) && Settled(g, k, m)
    ensures Outcome(g, k, n) == Outcome(g, k, m)
    decreases n, 1
  {
    if k in g.table {
      OutcomesUnique(g, g.table[k], n - 1, m - 1);
    }
  }

  lemma {:induction false} OutcomesUnique<V>(g: Recipe<V>, ks: seq<Key>, n: nat, m: nat)
    requires forall d | d in ks :: Settled(g, d, n) && Settled(g, d, m)
    ensures Outcomes(g, ks, n) == Outcomes(g, ks, m)
    decreases n, 2, |ks|
  {
    if ks != [] {
      OutcomeUnique(g, ks[0], n, m);
      OutcomesUnique(g, ks[1..], n, m);
    }
  }

  /** All of `ks` came out well. */
  lemma {:induction false} OutcomesOk<V>(g: Recipe<V>, ks: seq<Key>, n: nat, vs: seq<V>)
    requires |ks| == |vs| && forall d | d in ks :: Settled(g, d, n)
    requires forall j | 0 <= j < |ks| :: Outcome(g, ks[j], n) == Ok(vs[j])
    ensures Outcomes(g, ks, n) == Ok(vs)
    decreases |ks|
  {
    if ks != [] {
      OutcomesOk(g, ks[1..], n, vs[1..]);
      assert vs == [vs[0]] + vs[1..];
    } else {
      assert vs == [];
    }
  }

  /** The first of `ks` that fails decides. */
  lemma {:induction false} OutcomesRaised<V>(g: Recipe<V>, ks: seq<Key>, n: nat, i: nat, e: Error)
    requires i < |ks| && forall d | d in ks :: Settled(g, d, n)
    requires forall j | 0 <= j < i :: Outcome(g, ks[j], n).Ok?
    requires Outcome(g, ks[i], n) == Raised(e)
    ensures Outcomes(g, ks, n) == Raised(e)
    decreases i
  {
    if i > 0 {
      OutcomesRaised(g, ks[1..], n, i - 1, e);
    }
  }

  lemma ReachesFurther<V>(g: Recipe<V>, a: Key, k: Key, d: Key, m: nat)
    requires Reaches(g, a, k, m) && k in g.table && d in g.table[k]
    ensures Reaches(g, a, d, m + 1)
  {
    ReachesIsLeads(g, a, k, m);
    Dependencies.LeadsFurther(DependsOn(g), a, k, d, m);
    ReachesIsLeads(g, a, d, m + 1);
  }

  /** A settled product is on no cycle. */
  lemma SettledOffCycle<V>(g: Recipe<V>, k: Key, m: nat, n: nat)
    requires m > 0 && k in g.table && Reaches(g, k, k, m)
    ensures !Settled(g, k, n)
  {
    ReachesIsLeads(g, k, k, m);
    Dependencies.GroundedOffCycle(DependsOn(g), k, m, n);
    SettledIsGrounded(g, k, n);
  }

  // ------------------------------------------------------------- cycles

  /** Some chain of dependencies from `k` comes to a product that depends on itself. */
  ghost predicate CycleBelow<V>(g: Recipe<V>, k: Key) {
    exists j, i: nat, m: nat :: Reaches(g, k, j, i) && j in g.table && m > 0 && Reaches(g, j, j, m)
  }

  ghost function DependsOn<V>(g: Recipe<V>): Dependencies.Table<Key> {
    map k | k in g.table :: set d | d in g.table[k]
  }

  lemma {:induction false} SettledIsGrounded<V>(g: Recipe<V>, k: Key, n: nat)
    ensures Settled(g, k, n) <==> Dependencies.Grounded(DependsOn(g), k, n)
    decreases n
  {
    var t := DependsOn(g);
    if k in g.table && n > 0 {
      assert forall d :: d in t[k] <==> d in g.table[k];
      forall d | d in g.table[k]
        ensures Settled(g, d, n - 1) <==> Dependencies.Grounded(DependsOn(g), d, n - 1)
      {
        SettledIsGrounded(g, d, n - 1);
      }
    }
  }

  lemma {:induction false} ReachesIsLeads<V>(g: Recipe<V>, a: Key, b: Key, m: nat)
    ensures Reaches(g, a, b, m) <==> Dependencies.Leads(DependsOn(g), a, b, m)
    decreases m
  {
    var t := DependsOn(g);
    if m > 0 && a in g.table {
      assert forall d :: d in t[a] <==> d in g.table[a];
      forall d | d in g.table[a]
        ensures Reaches(g, d, b, m - 1) <==> Dependencies.Leads(DependsOn(g), d, b, m - 1)
      {
        ReachesIsLeads(g, d, b, m - 1);
      }
    }
  }

  lemma CycleBelowIs<V>(g: Recipe<V>, k: Key)
    ensures CycleBelow(g, k) <==> Dependencies.CycleBelow(DependsOn(g), k)
  {
    if j, i: nat, m: nat :| Reaches(g, k, j, i) && j in g.table && m > 0 && Reaches(g, j, j, m) {
      ReachesIsLeads(g, k, j, i);
      ReachesIsLeads(g, j, j, m);
    }
    var t := DependsOn(g);
    if j, i: nat, m: nat :| Dependencies.Leads(t, k, j, i) && j in t && m > 0 && Dependencies.Leads(t, j, j, m) {
      ReachesIsLeads(g, k, j, i);
      ReachesIsLeads(g, j, j, m);
    }
  }

  /** Some depth settles a product exactly when there is no cycle below it. */
  lemma SettledIffAcyclic<V>(g: Recipe<V>, k: Key)
    ensures (exists n: nat :: Settled(g, k, n)) <==> !CycleBelow(g, k)
  {
    CycleBelowIs(g, k);
    Dependencies.GroundedIffAcyclic(DependsOn(g), k);
    if n: nat :| Settled(g, k, n) {
      SettledIsGrounded(g, k, n);
    }
    if n: nat :| Dependencies.Grounded(DependsOn(g), k, n) {
      SettledIsGrounded(g, k, n);
    }
  }

  /** The builder of `j`, given good values of its dependencies, does its job. */
  ghost predicate BuilderSucceeds<V>(g: Recipe<V>, j: Key, n: nat)
    requires Settled(g, j, n)
  {
    j in g.table &&
    (Outcomes(g, g.table[j], n - 1).Ok? ==> g.build(j, Outcomes(g, g.table[j], n - 1).value).Ok?)
  }

  lemma BuilderSucceedsAnyway<V>(g: Recipe<V>, j: Key, n: nat, m: nat)
    requires Settled(g, j, n) && Settled(g, j, m)
    ensures BuilderSucceeds(g, j, n) <==> BuilderSucceeds(g, j, m)
  {
    if j in g.table {
      OutcomesUnique(g, g.table[j], n - 1, m - 1);
    }
  }

  /** Every name reached from `k` is a product whose builder succeeds. */
  ghost predicate AllBuild<V>(g: Recipe<V>, k: Key) {
    forall j: Key, m: nat, i: nat | Reaches(g, k, j, m) && Settled(g, j, i) :: BuilderSucceeds(g, j, i)
  }

  /** A settled product succeeds exactly when every name it reaches is a product whose
      builder succeeds. */
  lemma {:induction false} SucceedsWhenAllBuild<V>(g: Recipe<V>, k: Key, n: nat)
    requires Settled(g, k, n)
    ensures Outcome(g, k, n).Ok? <==> AllBuild(g, k)
    decreases n
  {
    if Outcome(g, k, n).Ok? {
      forall j: Key, m: nat, i: nat | Reaches(g, k, j, m) && Settled(g, j, i)
        ensures BuilderSucceeds(g, j, i)
      {
        ReachedSucceeds(g, k, n, j, m, i);
      }
    } else if AllBuild(g, k) {
      assert Reaches(g, k, k, 0) && BuilderSucceeds(g, k, n);
      var i, e := FirstFailure(g, g.table[k], n - 1);
      var d := g.table[k][i];
      assert d in g.table[k];
      forall j: Key, m: nat, b: nat | Reaches(g, d, j, m) && Settled(g, j, b)
        ensures BuilderSucceeds(g, j, b)
      {
        assert Reaches(g, k, j, m + 1);
      }
      SucceedsWhenAllBuild(g, d, n - 1);
    }
  }

  lemma {:induction false} FirstFailure<V>(g: Recipe<V>, ks: seq<Key>, n: nat) returns (i: nat, e: Error)
    requires forall d | d in ks :: Settled(g, d, n)
    requires Outcomes(g, ks, n).Raised?
    ensures i < |ks| && Outcome(g, ks[i], n) == Raised(e)
    decreases |ks|
  {
    if Outcome(g, ks[0], n).Raised? {
      i, e := 0, Outcome(g, ks[0], n).error;
    } else {
      i, e := FirstFailure(g, ks[1..], n);
      i := i + 1;
    }
  }

  lemma {:induction false} PartSucceeds<V>(g: Recipe<V>, ks: seq<Key>, n: nat, d: Key)
    requires forall d | d in ks :: Settled(g, d, n)
    requires Outcomes(g, ks, n).Ok? && d in ks
    ensures Outcome(g, d, n).Ok?
    decreases |ks|
  {
    if d != ks[0] {
      PartSucceeds(g, ks[1..], n, d);
    }
  }

  lemma {:induction false} ReachedSucceeds<V>(g: Recipe<V>, k: Key, n: nat, j: Key, m: nat, i: nat)
    requires Settled(g, k, n) && Outcome(g, k, n).Ok? && Reaches(g, k, j, m) && Settled(g, j, i)
    ensures BuilderSucceeds(g, j, i)
    decreases m
  {
    if m == 0 {
      OutcomesUnique(g, g.table[k], n - 1, i - 1);
    } else {
      var c :| c in g.table[k] && Reaches(g, c, j, m - 1);
      PartSucceeds(g, g.table[k], n - 1, c);
      ReachedSucceeds(g, c, n - 1, j, m - 1, i);
    }
  }
}
