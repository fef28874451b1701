/** Finite tables of dependencies: what has no cycle below it has a bounded depth. */
module Dependencies {

  /** What each name depends on.  Names outside the table depend on nothing. */
  type Table<Name> = map<Name, set<Name>>

  /** Everything below `k` is at most `n` levels deep. */
  ghost predicate Grounded<Name(!new)>(t: Table<Name>, k: Name, n: nat)
    decreases n
  {
    k !in t || (n > 0 && forall d | d in t[k] :: Grounded(t, d, n - 1))
  }

  /** There is a chain of `m` dependencies from `a` down to `b`. */
  ghost predicate Leads<Name(!new)>(t: Table<Name>, a: Name, b: Name, m: nat)
    decreases m
  {
    if m == 0 then a == b else a in t && exists d | d in t[a] :: Leads(t, d, b, m - 1)
  }

  /** Some chain from `k` comes to a name that depends on itself. */
  ghost predicate CycleBelow<Name(!new)>(t: Table<Name>, k: Name) {
    exists j, i: nat, m: nat :: Leads(t, k, j, i) && j in t && m > 0 && Leads(t, j, j, m)
  }

  lemma {:induction false} LeadsFurther<Name(!new)>(t: Table<Name>, a: Name, k: Name, d: Name, m: nat)
    requires Leads(t, a, k, m) && k in t && d in t[k]
    ensures Leads(t, a, d, m + 1)
    decreases m
  {
    if m == 0 {
      assert Leads(t, d, d, 0);
    } else {
      var c :| c in t[a] && Leads(t, c, k, m - 1);
      LeadsFurther(t, c, k, d, m - 1);
    }
  }

  lemma {:induction false} LedIsGrounded<Name(!new)>(t: Table<Name>, a: Name, b: Name, m: nat, n: nat)
    requires Grounded(t, a, n) && Leads(t, a, b, m) && b in t
    ensures m < n && Grounded(t, b, n - m)
    decreases m
  {
    if m > 0 {
      var c :| c in t[a] && Leads(t, c, b, m - 1);
      LedIsGrounded(t, c, b, m - 1, n - 1);
    }
  }

  lemma {:induction false} GroundedOffCycle<Name(!new)>(t: Table<Name>, k: Name, m: nat, n: nat)
    requires m > 0 && k in t && Leads(t, k, k, m)
    ensures !Grounded(t, k, n)
    decreases n
  {
    if Grounded(t, k, n) {
      LedIsGrounded(t, k, k, m, n);
      GroundedOffCycle(t, k, m, n - m);
    }
  }

  /** All of `path` lead to `k`. */
  ghost predicate LeadHere<Name(!new)>(t: Table<Name>, path: set<Name>, k: Name) {
    forall e | e in path :: exists m: nat :: m > 0 && Leads(t, e, k, m)
  }

  lemma PathGrows<Name(!new)>(t: Table<Name>, path: set<Name>, k: Name, d: Name)
    requires LeadHere(t, path, k) && k in t && d in t[k]
    ensures LeadHere(t, path + {k}, d)
  {
    forall e | e in path + {k}
      ensures exists m: nat :: m > 0 && Leads(t, e, d, m)
    {
      if e in path {
        var m: nat :| m > 0 && Leads(t, e, k, m);
        LeadsFurther(t, e, k, d, m);
      } else {
        assert Leads(t, k, k, 0);
        LeadsFurther(t, k, k, d, 0);
      }
    }
  }

  lemma CycleFurtherDown<Name(!new)>(t: Table<Name>, k: Name, d: Name)
    requires k in t && d in t[k] && CycleBelow(t, d)
    ensures CycleBelow(t, k)
  {
    var j, i: nat, m: nat :| Leads(t, d, j, i) && j in t && m > 0 && Leads(t, j, j, m);
    assert Leads(t, k, j, i + 1);
  }

  lemma OnPathIsCycle<Name(!new)>(t: Table<Name>, path: set<Name>, k: Name)
    requires LeadHere(t, path, k) && k in path && k in t
    ensures CycleBelow(t, k)
  {
    var m: nat :| m > 0 && Leads(t, k, k, m);
    assert Leads(t, k, k, 0);
  }

  /** Without a cycle a chain meets every name of the table once at most. */
  lemma {:induction false} GroundedUnlessCycle<Name(!new)>(t: Table<Name>, path: set<Name>, k: Name)
    requires path <= t.Keys && LeadHere(t, path, k) && !CycleBelow(t, k)
    ensures Grounded(t, k, |t.Keys - path|)
    decreases |t.Keys - path|
  {
    if k in t {
      if k in path {
        OnPathIsCycle(t, path, k);
      }
      assert t.Keys - (path + {k}) == (t.Keys - path) - {k};
      forall d | d in t[k]
        ensures Grounded(t, d, |t.Keys - path| - 1)
      {
        PathGrows(t, path, k, d);
        if CycleBelow(t, d) {
          CycleFurtherDown(t, k, d);
        }
        GroundedUnlessCycle(t, path + {k}, d);
      }
    }
  }

  lemma GroundedHasNoCycle<Name(!new)>(t: Table<Name>, k: Name, n: nat)
    requires Grounded(t, k, n)
    ensures !CycleBelow(t, k)
  {
    if CycleBelow(t, k) {
      var j, i: nat, m: nat :| Leads(t, k, j, i) && j in t && m > 0 && Leads(t, j, j, m);
      LedIsGrounded(t, k, j, i, n);
      GroundedOffCycle(t, j, m, n - i);
    }
  }

  lemma GroundedByNames<Name(!new)>(t: Table<Name>, k: Name)
    requires !CycleBelow(t, k)
    ensures Grounded(t, k, |t.Keys|)
  {
    var path: set<Name> := {};
    GroundedUnlessCycle(t, path, k);
    assert t.Keys - path == t.Keys;
  }

  /** A name has a bounded depth exactly when there is no cycle below it; the number of names
      is then bound enough. */
  lemma GroundedIffAcyclic<Name(!new)>(t: Table<Name>, k: Name)
    ensures (exists n: nat :: Grounded(t, k, n)) <==> !CycleBelow(t, k)
    ensures !CycleBelow(t, k) ==> Grounded(t, k, |t.Keys|)
  {
    if n: nat :| Grounded(t, k, n) {
      GroundedHasNoCycle(t, k, n);
    }
    if !CycleBelow(t, k) {
      GroundedByNames(t, k);
      var n: nat := |t.Keys|;
      assert Grounded(t, k, n);
    }
  }

  // ------------------------------------------------------------- depths

  lemma {:induction false} GroundedDeeper<Name(!new)>(t: Table<Name>, k: Name, n: nat, m: nat)
    requires Grounded(t, k, n) && n <= m
    ensures Grounded(t, k, m)
    decreases n
  {
    if k in t {
      forall d | d in t[k]
        ensures Grounded(t, d, m - 1)
      {
        GroundedDeeper(t, d, n - 1, m - 1);
      }
    }
  }

  /** The least depth, given one. */
  ghost function Depth<Name(!new)>(t: Table<Name>, k: Name, n: nat): (d: nat)
    requires Grounded(t, k, n)
    ensures Grounded(t, k, d)
  {
    if n > 0 && Grounded(t, k, n - 1) then Depth(t, k, n - 1) else n
  }

  lemma {:induction false} DepthLeast<Name(!new)>(t: Table<Name>, k: Name, n: nat, m: nat)
    requires Grounded(t, k, n) && Grounded(t, k, m)
    ensures Depth(t, k, n) <= m
    decreases n
  {
    if n > 0 && Grounded(t, k, n - 1) {
      DepthLeast(t, k, n - 1, m);
    } else if m < n {
      GroundedDeeper(t, k, m, n - 1);
    }
  }

  /** Depths fall along dependencies. */
  lemma DepthFalls<Name(!new)>(t: Table<Name>, k: Name, d: Name, n: nat, m: nat)
    requires Grounded(t, k, n) && k in t && d in t[k] && Grounded(t, d, m)
    ensures Depth(t, d, m) < Depth(t, k, n)
  {
    DepthLeast(t, d, m, Depth(t, k, n) - 1);
  }
}
