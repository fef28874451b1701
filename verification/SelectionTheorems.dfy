/** What the selection depends on: the set of candidates, and nothing else about the list. */
module SelectionTheorems {
  import opened Selection

  /** Candidates of the same identity are the same candidate. */
  ghost predicate Identified(cs: seq<Candidate>) {
    forall c, d | c in cs && d in cs :: c.identity == d.identity ==> c == d
  }

  // -------------------------------------------------- keys tell identities apart

  lemma {:induction false} TiesAligned(a: Cost, b: Cost, ms: seq<Metric>, objective: Metric)
    ensures |Ties(a, ms, objective)| == |Ties(b, ms, objective)|
  {
    if ms != [] {
      TiesAligned(a, b, ms[1..], objective);
    }
  }

  lemma {:induction false} SpellingInjective(s: string, t: string)
    requires Spelling(s) == Spelling(t)
    ensures s == t
  {
    if s != [] && t != [] {
      assert Spelling(s)[0] == Spelling(t)[0] && Spelling(s)[1..] == Spelling(t)[1..];
      SpellingInjective(s[1..], t[1..]);
      assert s == [s[0]] + s[1..] && t == [t[0]] + t[1..];
    }
  }

  lemma SplitKeys(a: seq<Extended>, b: seq<Extended>, c: seq<Extended>, d: seq<Extended>)
    requires a + b == c + d && |a| == |c|
    ensures a == c && b == d
  {
    assert a == (a + b)[..|a|] && c == (c + d)[..|a|];
    assert b == (a + b)[|a|..] && d == (c + d)[|a|..];
  }

  lemma SameKeySameIdentity(c: Candidate, d: Candidate, q: Request)
    requires SortKey(c, q) == SortKey(d, q)
    ensures c.identity == d.identity
  {
    var order := ORDER;
    var k, l := ApplyPolicy(c.cost, q.policy), ApplyPolicy(d.cost, q.policy);
    TiesAligned(k, l, order, q.objective);
    var front := SortKey(c, q)[..3 + |Ties(k, order, q.objective)|];
    var other := SortKey(d, q)[..3 + |Ties(k, order, q.objective)|];
    assert SortKey(c, q) == front + Spelling(c.identity);
    assert SortKey(d, q) == other + Spelling(d.identity);
    SplitKeys(front, Spelling(c.identity), other, Spelling(d.identity));
    SpellingInjective(c.identity, d.identity);
  }

  // ------------------------------------------------------- order and losers

  /** Whatever losers are dropped, and in whatever order and number the others are listed,
      the candidate that was best stays the one and only best. */
  lemma WinnerSurvives(cs: seq<Candidate>, ds: seq<Candidate>, q: Request, c: Candidate)
    requires Identified(cs) && Best(c, cs, q)
    requires c in ds && forall d | d in ds :: d in cs
    ensures Best(c, ds, q) && forall d | Best(d, ds, q) :: d == c
  {
    forall d | Best(d, ds, q)
      ensures d == c
    {
      Connected(SortKey(c, q), SortKey(d, q));
      SameOrBefore(c, d, q);
    }
  }

  lemma SameOrBefore(c: Candidate, d: Candidate, q: Request)
    ensures SortKey(c, q) == SortKey(d, q) ==> c.identity == d.identity
  {
    if SortKey(c, q) == SortKey(d, q) {
      SameKeySameIdentity(c, d, q);
    }
  }

  /** Two lists of the same candidates select the same one. */
  lemma SelectionIgnoresOrder(cs: seq<Candidate>, ds: seq<Candidate>, q: Request, i: nat, j: nat)
    requires Identified(cs) && forall c :: c in cs <==> c in ds
    requires Chosen(i, cs, q) && Chosen(j, ds, q)
    ensures cs[i] == ds[j]
  {
    WinnerSurvives(cs, ds, q, cs[i]);
  }

  /** Whatever order the candidates are listed in, the same one is selected. */
  ghost predicate OrderIsIrrelevant(cs: seq<Candidate>, q: Request, i: nat)
    requires i < |cs|
  {
    forall ds: seq<Candidate>, j: nat | multiset(ds) == multiset(cs) && Chosen(j, ds, q) :: ds[j] == cs[i]
  }

  /** Two different candidates are both best. */
  ghost predicate Tied(cs: seq<Candidate>, q: Request, c: Candidate, d: Candidate) {
    c != d && Best(c, cs, q) && Best(d, cs, q)
  }

  lemma TiedKeys(cs: seq<Candidate>, q: Request, c: Candidate, d: Candidate)
    requires Tied(cs, q, c, d)
    ensures SortKey(c, q) == SortKey(d, q) && c.identity == d.identity
  {
    Connected(SortKey(c, q), SortKey(d, q));
    SameKeySameIdentity(c, d, q);
  }

  lemma SameElements(cs: seq<Candidate>, ds: seq<Candidate>)
    requires multiset(ds) == multiset(cs)
    ensures forall c :: c in ds <==> c in cs
  {
    forall c
      ensures c in ds <==> c in cs
    {
      assert c in ds <==> c in multiset(ds);
      assert c in cs <==> c in multiset(cs);
    }
  }

  /** Any best candidate is selected when it is listed first. */
  lemma BestFirst(cs: seq<Candidate>, q: Request, d: Candidate) returns (ds: seq<Candidate>)
    requires Best(d, cs, q)
    ensures multiset(ds) == multiset(cs) && ds != [] && ds[0] == d && Chosen(0, ds, q)
  {
    var k :| 0 <= k < |cs| && cs[k] == d;
    ds := [d] + (cs[..k] + cs[k + 1..]);
    assert cs == cs[..k] + [d] + cs[k + 1..];
    SameElements(cs, ds);
  }

  /** The order matters exactly when two different candidates are both best; their keys and
      so their identities are then the same. */
  lemma OrderMattersExactlyOnTies(cs: seq<Candidate>, q: Request, i: nat)
    requires Chosen(i, cs, q)
    ensures OrderIsIrrelevant(cs, q, i) <==> !exists c, d :: Tied(cs, q, c, d)
    ensures forall c, d | Tied(cs, q, c, d) :: SortKey(c, q) == SortKey(d, q) && c.identity == d.identity
  {
    forall c, d | Tied(cs, q, c, d)
      ensures SortKey(c, q) == SortKey(d, q) && c.identity == d.identity && !OrderIsIrrelevant(cs, q, i)
    {
      TiedKeys(cs, q, c, d);
      var ds := BestFirst(cs, q, if c == cs[i] then d else c);
    }
    if !exists c, d :: Tied(cs, q, c, d) {
      forall ds: seq<Candidate>, j: nat | multiset(ds) == multiset(cs) && Chosen(j, ds, q)
        ensures ds[j] == cs[i]
      {
        SameElements(cs, ds);
        assert !Tied(cs, q, ds[j], cs[i]);
      }
    }
  }

  // ----------------------------------------------------------------- evidence

  /** The objective as given, and its value when it is known. */
  function Objective(c: Candidate, q: Request): (m: Measure) {
    ApplyPolicy(c.cost, q.policy).Of(q.objective)
  }

  /** How good a legal candidate is by its objective alone; less is better. */
  function Merit(c: Candidate, q: Request): real
    requires Legal(c, q)
  {
    var v := Objective(c, q).amount.value;
    if q.objective == Fmax then -v else v
  }

  /** Routing is stronger evidence than synthesis, and both are stronger than an estimate. */
  predicate Stronger(a: Source, b: Source) {
    (a == RoutedMeasurement && b != RoutedMeasurement) || (a == SynthesisMeasurement && b == StructuralEstimate)
  }

  /** A clock rate is better when it is higher, anything else when it is lower. */
  predicate Better(objective: Metric, a: Amount, b: Amount) {
    a.Known? && b.Known? && if objective == Fmax then a.value > b.value else a.value < b.value
  }

  /** Where measurements are preferred, no legal candidate has stronger evidence than the
      winner, and none of equal evidence is better. Otherwise none is better at all. */
  lemma WinnerIsStrongest(c: Candidate, d: Candidate, cs: seq<Candidate>, q: Request)
    requires Best(c, cs, q) && d in cs && Legal(d, q)
    ensures q.policy == MeasuredPreferred ==> !Stronger(Objective(d, q).source, Objective(c, q).source)
    ensures q.policy != MeasuredPreferred || Objective(d, q).source == Objective(c, q).source ==>
      !Better(q.objective, Objective(d, q).amount, Objective(c, q).amount)
  {
    KeyOrder(c, d, cs, q);
  }

  lemma KeyOrder(c: Candidate, d: Candidate, cs: seq<Candidate>, q: Request)
    requires Best(c, cs, q) && d in cs && Legal(d, q)
    ensures q.policy == MeasuredPreferred ==> Rank(Objective(c, q).source) <= Rank(Objective(d, q).source)
    ensures q.policy == MeasuredPreferred ==>
      Rank(Objective(c, q).source) == Rank(Objective(d, q).source) ==> Merit(c, q) <= Merit(d, q)
    ensures q.policy != MeasuredPreferred ==> Merit(c, q) <= Merit(d, q)
  {
    var a, b := SortKey(d, q), SortKey(c, q);
    assert !Before(a, b);
    assert a[1] == Finite(Merit(d, q)) && b[1] == Finite(Merit(c, q));
    assert a[1..][0] == a[1] && b[1..][0] == b[1];
    assert Before(a, b) == (Less(a[0], b[0]) || (a[0] == b[0] && Before(a[1..], b[1..])));
    assert Less(a[1], b[1]) ==> Before(a[1..], b[1..]);
  }

  function Without(ms: seq<Metric>, objective: Metric): seq<Metric> {
    if ms == [] then [] else (if ms[0] == objective then [] else [ms[0]]) + Without(ms[1..], objective)
  }

  /** The metrics that break ties, first things first. */
  function TieBreakers(objective: Metric): seq<Metric> {
    Without([Latency, Interval, Dsp, Bram, Lut, Ff], objective)
  }

  function SizeOf(c: Candidate, m: Metric, q: Request): Extended {
    Size(ApplyPolicy(c.cost, q.policy).Of(m).amount)
  }

  ghost predicate Listed(ties: seq<Extended>, c: Cost, ms: seq<Metric>) {
    |ties| == |ms| && forall i | 0 <= i < |ms| :: ties[i] == Size(c.Of(ms[i]).amount)
  }

  lemma ListedCons(ties: seq<Extended>, c: Cost, ms: seq<Metric>, m: Metric)
    requires Listed(ties, c, ms)
    ensures Listed([Size(c.Of(m).amount)] + ties, c, [m] + ms)
  {
  }

  lemma {:induction false} TiesListed(c: Cost, ms: seq<Metric>, objective: Metric)
    ensures Listed(Ties(c, ms, objective), c, Without(ms, objective))
  {
    if ms != [] {
      var ties, rest := Ties(c, ms[1..], objective), Without(ms[1..], objective);
      TiesListed(c, ms[1..], objective);
      if ms[0] == objective {
        assert [] + ties == ties && [] + rest == rest;
      } else {
        ListedCons(ties, c, rest, ms[0]);
      }
    }
  }

  /** The pieces that make up a key. */
  ghost predicate MadeOf(key: seq<Extended>, front: seq<Extended>, ties: seq<Extended>, cost: Extended, last: seq<Extended>) {
    |front| == 2 && key == front + ties + [cost] + last
  }

  lemma Pieces(key: seq<Extended>, front: seq<Extended>, ties: seq<Extended>, cost: Extended, last: seq<Extended>)
    requires MadeOf(key, front, ties, cost, last)
    ensures |key| >= |ties| + 3 && key[|ties| + 3..] == last && key[|ties| + 2] == cost
    ensures forall i | 0 <= i < |ties| :: key[i + 2] == ties[i]
  {
  }

  lemma KeyMadeOf(c: Candidate, q: Request) returns (front: seq<Extended>)
    ensures MadeOf(SortKey(c, q), front, Ties(ApplyPolicy(c.cost, q.policy), ORDER, q.objective),
      Finite(c.cost.structural as real), Spelling(c.identity))
  {
    front := SortKey(c, q)[..2];
  }

  lemma TieBreakersTied(c: Cost, objective: Metric)
    ensures Listed(Ties(c, ORDER, objective), c, TieBreakers(objective))
  {
    TiesListed(c, ORDER, objective);
    assert ORDER == [Latency, Interval, Dsp, Bram, Lut, Ff];
  }

  /** The parts of a key. */
  lemma KeyParts(c: Candidate, q: Request)
    ensures var n := |TieBreakers(q.objective)|;
      && |SortKey(c, q)| >= n + 3 && SortKey(c, q)[n + 3..] == Spelling(c.identity)
      && SortKey(c, q)[n + 2] == Finite(c.cost.structural as real)
      && forall i | 0 <= i < n :: SortKey(c, q)[i + 2] == SizeOf(c, TieBreakers(q.objective)[i], q)
  {
    var cost := ApplyPolicy(c.cost, q.policy);
    var front := KeyMadeOf(c, q);
    TieBreakersTied(cost, q.objective);
    Pieces(SortKey(c, q), front, Ties(cost, ORDER, q.objective), Finite(c.cost.structural as real), Spelling(c.identity));
  }

  lemma KeyFront(c: Candidate, q: Request)
    requires Legal(c, q)
    ensures SortKey(c, q)[1] == Finite(Merit(c, q))
    ensures SortKey(c, q)[0] == Finite(if q.policy == MeasuredPreferred then Rank(Objective(c, q).source) else 0.0)
  {
  }

  /** Where keys that are not before each other agree so far, they are in order there. */
  lemma {:induction false} FirstDifference(a: seq<Extended>, b: seq<Extended>, i: nat)
    requires !Before(a, b) && i <= |a| && i <= |b| && a[..i] == b[..i]
    ensures i < |a| && i < |b| ==> !Less(a[i], b[i])
    ensures !Before(a[i..], b[i..])
  {
    if i > 0 {
      assert a[0] == a[..i][0] == b[..i][0] == b[0];
      assert a[1..][..i - 1] == a[..i][1..] == b[..i][1..] == b[1..][..i - 1];
      FirstDifference(a[1..], b[1..], i - 1);
      assert a[1..][i - 1..] == a[i..] && b[1..][i - 1..] == b[i..];
    } else {
      assert a[0..] == a && b[0..] == b;
    }
  }

  /** The amount is known, and the other is higher or not known. */
  predicate Under(a: Amount, b: Amount) {
    a.Known? && (b.Unknown? || a.value < b.value)
  }

  function AmountOf(c: Candidate, m: Metric, q: Request): Amount {
    ApplyPolicy(c.cost, q.policy).Of(m).amount
  }

  /** `s` comes before `t` in a dictionary. */
  ghost predicate Earlier(s: string, t: string) {
    exists k: nat :: DiffersAt(s, t, k)
  }

  ghost predicate DiffersAt(s: string, t: string, k: nat) {
    k <= |s| && k < |t| && s[..k] == t[..k] && (k == |s| || s[k] < t[k])
  }

  lemma {:induction false} EarlierIsBefore(s: string, t: string, k: nat)
    requires DiffersAt(s, t, k)
    ensures Before(Spelling(s), Spelling(t))
    decreases k
  {
    if k > 0 {
      assert s[0] == s[..k][0] == t[..k][0] == t[0];
      assert s[1..][..k - 1] == s[..k][1..] == t[..k][1..] == t[1..][..k - 1];
      EarlierIsBefore(s[1..], t[1..], k - 1);
      assert Spelling(s)[1..] == Spelling(s[1..]) && Spelling(t)[1..] == Spelling(t[1..]);
    }
  }

  /** How ties are broken.  On equal evidence and equal objective, and equal in the first `i`
      of the other metrics, no legal candidate is lower in the next than the winner, known
      amounts counting as lower than unknown ones; equal in all of them, none has a lower
      structural cost; equal in that too, none has an earlier identity. */
  lemma WinnerBreaksTies(c: Candidate, d: Candidate, cs: seq<Candidate>, q: Request, i: nat)
    requires Best(c, cs, q) && d in cs && Legal(d, q) && Objective(c, q).amount == Objective(d, q).amount
    requires q.policy == MeasuredPreferred ==> Objective(c, q).source == Objective(d, q).source
    requires i <= |TieBreakers(q.objective)|
    requires forall j | 0 <= j < i :: AmountOf(c, TieBreakers(q.objective)[j], q) == AmountOf(d, TieBreakers(q.objective)[j], q)
    ensures i < |TieBreakers(q.objective)| ==>
      !Under(AmountOf(d, TieBreakers(q.objective)[i], q), AmountOf(c, TieBreakers(q.objective)[i], q))
    ensures i == |TieBreakers(q.objective)| ==> c.cost.structural <= d.cost.structural
    ensures i == |TieBreakers(q.objective)| && c.cost.structural == d.cost.structural ==> !Earlier(d.identity, c.identity)
  {
    KeysAgree(c, d, q, i);
    TieDecided(c, d, q, i);
    if k: nat :| DiffersAt(d.identity, c.identity, k) {
      EarlierIsBefore(d.identity, c.identity, k);
    }
  }

  /** Keys that agree in their first `i + 2` places and are not the other way round. */
  lemma TieDecided(c: Candidate, d: Candidate, q: Request, i: nat)
    requires i <= |TieBreakers(q.objective)| && !Before(SortKey(d, q), SortKey(c, q))
    requires |SortKey(c, q)| >= i + 2 && |SortKey(d, q)| >= i + 2 && SortKey(d, q)[..i + 2] == SortKey(c, q)[..i + 2]
    ensures i < |TieBreakers(q.objective)| ==>
      !Less(SizeOf(d, TieBreakers(q.objective)[i], q), SizeOf(c, TieBreakers(q.objective)[i], q))
    ensures i == |TieBreakers(q.objective)| ==> c.cost.structural <= d.cost.structural
    ensures i == |TieBreakers(q.objective)| && c.cost.structural == d.cost.structural ==>
      !Before(Spelling(d.identity), Spelling(c.identity))
  {
    KeyParts(c, q);
    KeyParts(d, q);
    NextDecides(SortKey(d, q), SortKey(c, q), i + 2);
  }

  /** The first places in which two keys differ, the next and the one after it. */
  lemma NextDecides(a: seq<Extended>, b: seq<Extended>, i: nat)
    requires !Before(a, b) && i < |a| && i < |b| && a[..i] == b[..i]
    ensures !Less(a[i], b[i])
    ensures a[i] == b[i] ==> !Before(a[i + 1..], b[i + 1..])
  {
    FirstDifference(a, b, i);
    if a[i] == b[i] {
      LastAgreement(a, b, i);
      FirstDifference(a, b, i + 1);
    }
  }

  lemma LastAgreement(a: seq<Extended>, b: seq<Extended>, i: nat)
    requires i < |a| && i < |b| && a[..i] == b[..i] && a[i] == b[i]
    ensures a[..i + 1] == b[..i + 1]
  {
    assert a[..i + 1] == a[..i] + [a[i]] && b[..i + 1] == b[..i] + [b[i]];
  }

  lemma KeysAgree(c: Candidate, d: Candidate, q: Request, i: nat)
    requires Legal(c, q) && Legal(d, q) && Merit(c, q) == Merit(d, q)
    requires q.policy == MeasuredPreferred ==> Objective(c, q).source == Objective(d, q).source
    requires i <= |TieBreakers(q.objective)|
    requires forall j | 0 <= j < i :: SizeOf(c, TieBreakers(q.objective)[j], q) == SizeOf(d, TieBreakers(q.objective)[j], q)
    ensures |SortKey(c, q)| >= i + 2 && |SortKey(d, q)| >= i + 2 && SortKey(d, q)[..i + 2] == SortKey(c, q)[..i + 2]
  {
    var ts := TieBreakers(q.objective);
    var a, b := SortKey(d, q), SortKey(c, q);
    KeyParts(c, q);
    KeyParts(d, q);
    KeyFront(c, q);
    KeyFront(d, q);
    forall j | 0 <= j < i + 2
      ensures a[j] == b[j]
    {
      if j >= 2 {
        assert a[(j - 2) + 2] == SizeOf(d, ts[j - 2], q) == SizeOf(c, ts[j - 2], q) == b[(j - 2) + 2];
      }
    }
    Agreement(a, b, i + 2);
  }

  lemma Agreement(a: seq<Extended>, b: seq<Extended>, i: nat)
    requires i <= |a| && i <= |b| && forall j | 0 <= j < i :: a[j] == b[j]
    ensures a[..i] == b[..i]
  {
  }

  /** What required measurement means: the winner's resources were measured, and its clock
      rate routed, wherever they are the objective or are constrained. */
  lemma RequiredIsMeasured(c: Candidate, cs: seq<Candidate>, q: Request, m: Metric)
    requires Best(c, cs, q) && q.policy == MeasuredRequired
    requires m == q.objective || exists k :: k in q.constraints && k.metric == m
    ensures m in {Lut, Ff, Dsp, Bram} ==> Measured(c.cost.Of(m).source)
    ensures m == Fmax ==> c.cost.Of(m).source == RoutedMeasurement
  {
    var cost := ApplyPolicy(c.cost, q.policy);
    if m != q.objective {
      var k :| k in q.constraints && k.metric == m;
      assert Check(cost, k) == Satisfied;
    }
    assert cost.Of(m).amount.Known?;
  }

  // ------------------------------------------------------------------ ranking

  function Insert(c: Candidate, rs: seq<Candidate>, q: Request): seq<Candidate> {
    if rs == [] || !Before(SortKey(rs[0], q), SortKey(c, q)) then [c] + rs
    else [rs[0]] + Insert(c, rs[1..], q)
  }

  /** The legal candidates in order of their keys; those of equal keys as they were listed. */
  function RankRecords(cs: seq<Candidate>, q: Request): seq<Candidate> {
    if cs == [] then []
    else if Legal(cs[0], q) then Insert(cs[0], RankRecords(cs[1..], q), q)
    else RankRecords(cs[1..], q)
  }

  ghost predicate InOrder(rs: seq<Candidate>, q: Request) {
    rs != [] ==> NoneBefore(SortKey(rs[0], q), rs[1..], q) && InOrder(rs[1..], q)
  }

  ghost predicate NoneBefore(key: seq<Extended>, rs: seq<Candidate>, q: Request) {
    forall x | x in rs :: !Before(SortKey(x, q), key)
  }

  lemma {:induction false} InsertKeepsAll(c: Candidate, rs: seq<Candidate>, q: Request)
    ensures multiset(Insert(c, rs, q)) == multiset{c} + multiset(rs)
  {
    if rs != [] {
      assert rs == [rs[0]] + rs[1..];
      InsertKeepsAll(c, rs[1..], q);
    }
  }

  lemma {:induction false} InsertPlaces(c: Candidate, rs: seq<Candidate>, q: Request)
    requires InOrder(rs, q)
    ensures InOrder(Insert(c, rs, q), q)
  {
    var key, result := SortKey(c, q), Insert(c, rs, q);
    if rs == [] {
    } else if !Before(SortKey(rs[0], q), key) {
      assert result[1..] == rs;
      forall x | x in rs
        ensures !Before(SortKey(x, q), key)
      {
        NotBeforeFirst(key, rs, x, q);
      }
    } else {
      var rest := Insert(c, rs[1..], q);
      assert result[1..] == rest;
      InsertPlaces(c, rs[1..], q);
      InsertKeepsAll(c, rs[1..], q);
      Asymmetric(SortKey(rs[0], q), key);
      forall x | x in rest
        ensures !Before(SortKey(x, q), SortKey(rs[0], q))
      {
        assert x in multiset(rest);
        assert x == c || x in multiset(rs[1..]);
      }
    }
  }

  lemma Asymmetric(a: seq<Extended>, b: seq<Extended>)
    requires Before(a, b)
    ensures !Before(b, a)
  {
    if Before(b, a) {
      Transitive(a, b, a);
    }
    Irreflexive(a);
  }

  lemma NotBeforeFirst(key: seq<Extended>, rs: seq<Candidate>, x: Candidate, q: Request)
    requires InOrder(rs, q) && x in rs && !Before(SortKey(rs[0], q), key)
    ensures !Before(SortKey(x, q), key)
  {
    var first := SortKey(rs[0], q);
    Irreflexive(first);
    assert rs == [rs[0]] + rs[1..];
    if Before(SortKey(x, q), key) {
      Connected(first, key);
      if first != key {
        Transitive(SortKey(x, q), key, first);
      }
    }
  }

  function LegalOnes(cs: seq<Candidate>, q: Request): multiset<Candidate> {
    if cs == [] then multiset{}
    else (if Legal(cs[0], q) then multiset{cs[0]} else multiset{}) + LegalOnes(cs[1..], q)
  }

  /** The ranking lists every legal candidate as often as it was given, in order, and its
      first is the one selected, ties included. */
  lemma {:induction false} RankingSorts(cs: seq<Candidate>, q: Request)
    ensures InOrder(RankRecords(cs, q), q)
    ensures multiset(RankRecords(cs, q)) == LegalOnes(cs, q)
  {
    if cs != [] {
      RankingSorts(cs[1..], q);
      if Legal(cs[0], q) {
        InsertPlaces(cs[0], RankRecords(cs[1..], q), q);
        InsertKeepsAll(cs[0], RankRecords(cs[1..], q), q);
      }
    }
  }

  /** Those of one key, in the order they are listed. */
  function OfKey(cs: seq<Candidate>, key: seq<Extended>, q: Request): seq<Candidate> {
    if cs == [] then []
    else (if Legal(cs[0], q) && SortKey(cs[0], q) == key then [cs[0]] else []) + OfKey(cs[1..], key, q)
  }

  lemma {:induction false} InsertedOfKey(c: Candidate, rs: seq<Candidate>, key: seq<Extended>, q: Request)
    ensures OfKey(Insert(c, rs, q), key, q) == OfKey([c], key, q) + OfKey(rs, key, q)
  {
    if rs == [] || !Before(SortKey(rs[0], q), SortKey(c, q)) {
      assert ([c] + rs)[1..] == rs && [c][1..] == [];
    } else {
      Irreflexive(SortKey(c, q));
      InsertedOfKey(c, rs[1..], key, q);
      var rest := Insert(c, rs[1..], q);
      assert ([rs[0]] + rest)[1..] == rest && [c][1..] == [];
      assert !(SortKey(c, q) == key && SortKey(rs[0], q) == key);
    }
  }

  /** Candidates of equal keys keep the order in which they were listed. */
  lemma {:induction false} RankingKeepsOrder(cs: seq<Candidate>, key: seq<Extended>, q: Request)
    ensures OfKey(RankRecords(cs, q), key, q) == OfKey(cs, key, q)
  {
    if cs != [] {
      RankingKeepsOrder(cs[1..], key, q);
      OfKeyFirst(cs, key, q);
      if Legal(cs[0], q) {
        InsertedOfKey(cs[0], RankRecords(cs[1..], q), key, q);
      } else {
        assert OfKey([cs[0]], key, q) == [];
        Nothing(OfKey(cs[1..], key, q));
      }
    }
  }

  lemma OfKeyFirst(cs: seq<Candidate>, key: seq<Extended>, q: Request)
    requires cs != []
    ensures OfKey(cs, key, q) == OfKey([cs[0]], key, q) + OfKey(cs[1..], key, q)
  {
    assert [cs[0]][1..] == [];
  }

  lemma Nothing<T>(a: seq<T>)
    ensures [] + a == a
  {
  }

  lemma {:induction false} WinnerRanksFirst(cs: seq<Candidate>, q: Request, i: nat)
    requires Chosen(i, cs, q)
    ensures RankRecords(cs, q) != [] && RankRecords(cs, q)[0] == cs[i]
  {
    var tail := cs[1..];
    if i == 0 {
      RankingSorts(tail, q);
      var rs := RankRecords(tail, q);
      if rs != [] {
        assert rs[0] in multiset(rs);
        LegalOnesAreLegal(tail, q, rs[0]);
      }
    } else {
      assert cs[i] == tail[i - 1];
      forall j | 0 <= j < i - 1 && Legal(tail[j], q)
        ensures Before(SortKey(tail[i - 1], q), SortKey(tail[j], q))
      {
        assert tail[j] == cs[j + 1];
      }
      WinnerRanksFirst(tail, q, i - 1);
    }
  }

  lemma {:induction false} LegalOnesAreLegal(cs: seq<Candidate>, q: Request, c: Candidate)
    ensures c in LegalOnes(cs, q) <==> c in cs && Legal(c, q)
  {
    if cs != [] {
      LegalOnesAreLegal(cs[1..], q, c);
      assert cs == [cs[0]] + cs[1..];
    }
  }
}
