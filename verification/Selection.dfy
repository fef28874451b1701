/** Deterministic extraction of one implementation candidate under constraints. */
module Selection {

  datatype Source = StructuralEstimate | SynthesisMeasurement | RoutedMeasurement

  datatype Policy = EstimateOnly | MeasuredPreferred | MeasuredRequired

  datatype Metric = Lut | Ff | Dsp | Bram | Latency | Interval | Fmax

  datatype Amount = Unknown | Known(value: real)

  datatype Measure = Measure(amount: Amount, source: Source)

  datatype Cost = Cost(lut: Measure, ff: Measure, dsp: Measure, bram: Measure,
                       latency: Measure, interval: Measure, fmax: Measure, structural: int)
  {
    function Of(m: Metric): Measure {
      match m
      case Lut => lut
      case Ff => ff
      case Dsp => dsp
      case Bram => bram
      case Latency => latency
      case Interval => interval
      case Fmax => fmax
    }
  }

  datatype Candidate = Candidate(identity: string, cost: Cost)

  /** A bound that is absent is `Unknown`. */
  datatype Constraint = Constraint(metric: Metric, maximum: Amount, minimum: Amount)

  datatype Status = Satisfied | Violated | Unproven

  datatype Request = Request(objective: Metric, constraints: seq<Constraint>, policy: Policy)

  // -------------------------------------------------- legality of one candidate

  predicate Measured(s: Source) {
    s == SynthesisMeasurement || s == RoutedMeasurement
  }

  /** Where measurements are required, resources must have been measured and the clock
      rate must come from routing; anything else counts as unknown. */
  function Admit(m: Metric, v: Measure, policy: Policy): Measure {
    if policy != MeasuredRequired then v
    else if (m == Lut || m == Ff || m == Dsp || m == Bram) && !Measured(v.source) then Measure(Unknown, v.source)
    else if m == Fmax && v.source != RoutedMeasurement then Measure(Unknown, v.source)
    else v
  }

  function ApplyPolicy(c: Cost, policy: Policy): Cost {
    Cost(Admit(Lut, c.lut, policy), Admit(Ff, c.ff, policy), Admit(Dsp, c.dsp, policy),
      Admit(Bram, c.bram, policy), Admit(Latency, c.latency, policy), Admit(Interval, c.interval, policy),
      Admit(Fmax, c.fmax, policy), c.structural)
  }

  function Check(c: Cost, k: Constraint): Status {
    match c.Of(k.metric).amount
    case Unknown => Unproven
    case Known(v) =>
      if k.maximum.Known? && v > k.maximum.value then Violated
      else if k.minimum.Known? && v < k.minimum.value then Violated
      else Satisfied
  }

  predicate Legal(c: Candidate, q: Request) {
    var cost := ApplyPolicy(c.cost, q.policy);
    cost.Of(q.objective).amount.Known? && forall k | k in q.constraints :: Check(cost, k) == Satisfied
  }

  // ------------------------------------------- what legality comes to

  /** The amount is known, at most the maximum if there is one, and at least the minimum if
      there is one. */
  predicate InBounds(a: Amount, k: Constraint) {
    a.Known? && (k.maximum.Known? ==> a.value <= k.maximum.value) && (k.minimum.Known? ==> k.minimum.value <= a.value)
  }

  /** The evidence counts for a resource: where measurements are required it was synthesised
      or routed. */
  predicate Evident(v: Measure, policy: Policy) {
    policy == MeasuredRequired ==> v.source == SynthesisMeasurement || v.source == RoutedMeasurement
  }

  /** The cost keeps the constraint, on evidence that counts. */
  predicate Keeps(c: Cost, k: Constraint, policy: Policy) {
    && (k.metric == Lut ==> InBounds(c.lut.amount, k) && Evident(c.lut, policy))
    && (k.metric == Ff ==> InBounds(c.ff.amount, k) && Evident(c.ff, policy))
    && (k.metric == Dsp ==> InBounds(c.dsp.amount, k) && Evident(c.dsp, policy))
    && (k.metric == Bram ==> InBounds(c.bram.amount, k) && Evident(c.bram, policy))
    && (k.metric == Latency ==> InBounds(c.latency.amount, k))
    && (k.metric == Interval ==> InBounds(c.interval.amount, k))
    && (k.metric == Fmax ==> InBounds(c.fmax.amount, k) && (policy == MeasuredRequired ==> c.fmax.source == RoutedMeasurement))
  }

  /** A candidate may be selected: its objective is known, and all constraints are kept. */
  ghost predicate Eligible(c: Candidate, q: Request) {
    Keeps(c.cost, Constraint(q.objective, Unknown, Unknown), q.policy) &&
    forall k | k in q.constraints :: Keeps(c.cost, k, q.policy)
  }

  lemma CheckedExactly(c: Cost, k: Constraint, policy: Policy)
    ensures Check(ApplyPolicy(c, policy), k) == Satisfied <==> Keeps(c, k, policy)
  {
  }

  lemma KnownExactly(c: Cost, m: Metric, policy: Policy)
    ensures ApplyPolicy(c, policy).Of(m).amount.Known? <==> Keeps(c, Constraint(m, Unknown, Unknown), policy)
  {
  }

  /** Legality is eligibility. */
  lemma LegalExactly(c: Candidate, q: Request)
    ensures Legal(c, q) <==> Eligible(c, q)
  {
    KnownExactly(c.cost, q.objective, q.policy);
    forall k | k in q.constraints
      ensures Check(ApplyPolicy(c.cost, q.policy), k) == Satisfied <==> Keeps(c.cost, k, q.policy)
    {
      CheckedExactly(c.cost, k, q.policy);
    }
  }

  // ----------------------------------------------------------------- ranking

  /** Numbers with an infinity above them all. */
  datatype Extended = Finite(value: real) | Infinite

  predicate Less(a: Extended, b: Extended) {
    a.Finite? && (b.Infinite? || a.value < b.value)
  }

  /** Dictionary order, as tuples and strings are compared. */
  predicate Before(a: seq<Extended>, b: seq<Extended>) {
    b != [] && (a == [] || Less(a[0], b[0]) || (a[0] == b[0] && Before(a[1..], b[1..])))
  }

  function Rank(s: Source): real {
    match s
    case RoutedMeasurement => 0.0
    case SynthesisMeasurement => 1.0
    case StructuralEstimate => 2.0
  }

  function Size(a: Amount): Extended {
    if a.Known? then Finite(a.value) else Infinite
  }

  function Ties(c: Cost, ms: seq<Metric>, objective: Metric): seq<Extended> {
    if ms == [] then []
    else (if ms[0] == objective then [] else [Size(c.Of(ms[0]).amount)]) + Ties(c, ms[1..], objective)
  }

  function Spelling(s: string): seq<Extended> {
    if s == [] then [] else [Finite(s[0] as int as real)] + Spelling(s[1..])
  }

  /** The order in which the metrics other than the objective break ties. */
  const ORDER: seq<Metric> := [Latency, Interval, Dsp, Bram, Lut, Ff]

  /** The key candidates are compared by: evidence, objective, other metrics in a fixed
      order, structural cost, and last the identity, letter by letter. */
  function SortKey(c: Candidate, q: Request): seq<Extended> {
    var cost := ApplyPolicy(c.cost, q.policy);
    var v := cost.Of(q.objective);
    var primary := if v.amount.Unknown? then Infinite
                   else if q.objective == Fmax then Finite(-v.amount.value) else Finite(v.amount.value);
    [Finite(if q.policy == MeasuredPreferred then Rank(v.source) else 0.0), primary]
    + Ties(cost, ORDER, q.objective)
    + [Finite(cost.structural as real)]
    + Spelling(c.identity)
  }

  /** `c` is legal and no legal candidate among `cs` ranks before it. */
  ghost predicate Best(c: Candidate, cs: seq<Candidate>, q: Request) {
    c in cs && Legal(c, q) && forall d | d in cs && Legal(d, q) :: !Before(SortKey(d, q), SortKey(c, q))
  }

  /** `i` is where `ExtractBest` stops: the first of the best. */
  ghost predicate Chosen(i: nat, cs: seq<Candidate>, q: Request) {
    i < |cs| && Best(cs[i], cs, q)
    && forall j | 0 <= j < i && Legal(cs[j], q) :: Before(SortKey(cs[i], q), SortKey(cs[j], q))
  }

  /** Selects the first of the best; fails exactly when every candidate has an unknown objective
      or leaves some constraint broken or unknown. */
  method ExtractBest(cs: seq<Candidate>, q: Request) returns (found: bool, selected: nat)
    ensures found <==> exists c :: c in cs && Legal(c, q)
    ensures found <==> exists c :: c in cs && Eligible(c, q)
    ensures found ==> Chosen(selected, cs, q) && Eligible(cs[selected], q)
  {
    found, selected := FirstBest(cs, q);
    EligibleAmong(cs, q);
  }

  /** The least of the legal candidates, the first where there are several. */
  method FirstBest(cs: seq<Candidate>, q: Request) returns (found: bool, selected: nat)
    ensures found <==> exists c :: c in cs && Legal(c, q)
    ensures found ==> Chosen(selected, cs, q)
  {
    found, selected := false, 0;
    var i := 0;
    while i < |cs|
      invariant 0 <= i <= |cs|
      invariant found <==> exists c :: c in cs[..i] && Legal(c, q)
      invariant found ==> Chosen(selected, cs[..i], q)
    {
      assert cs[..i + 1] == cs[..i] + [cs[i]];
      NextChosen(cs[..i], cs[i], q, found, selected);
      if Legal(cs[i], q) && (!found || Before(SortKey(cs[i], q), SortKey(cs[selected], q))) {
        found, selected := true, i;
      }
      i := i + 1;
    }
    assert cs[..i] == cs;
  }

  /** Which candidate is chosen when one more is looked at. */
  lemma NextChosen(rs: seq<Candidate>, c: Candidate, q: Request, found: bool, selected: nat)
    requires found <==> exists d :: d in rs && Legal(d, q)
    requires found ==> Chosen(selected, rs, q)
    ensures Legal(c, q) && (!found || Before(SortKey(c, q), SortKey(rs[selected], q))) ==> Chosen(|rs|, rs + [c], q)
    ensures !(Legal(c, q) && (!found || Before(SortKey(c, q), SortKey(rs[selected], q)))) && found ==> Chosen(selected, rs + [c], q)
  {
    Irreflexive(SortKey(c, q));
    if found && Legal(c, q) && Before(SortKey(c, q), SortKey(rs[selected], q)) {
      NewBest(rs, rs[selected], c, q);
    }
  }

  lemma EligibleAmong(cs: seq<Candidate>, q: Request)
    ensures forall c | c in cs :: Legal(c, q) <==> Eligible(c, q)
  {
    forall c | c in cs
      ensures Legal(c, q) <==> Eligible(c, q)
    {
      LegalExactly(c, q);
    }
  }

  lemma {:induction false} Irreflexive(a: seq<Extended>)
    ensures !Before(a, a)
  {
    if a != [] {
      Irreflexive(a[1..]);
    }
  }

  lemma {:induction false} Transitive(a: seq<Extended>, b: seq<Extended>, c: seq<Extended>)
    requires Before(a, b) && Before(b, c)
    ensures Before(a, c)
  {
    if a != [] && a[0] == b[0] == c[0] {
      Transitive(a[1..], b[1..], c[1..]);
    }
  }

  lemma {:induction false} Connected(a: seq<Extended>, b: seq<Extended>)
    ensures Before(a, b) || Before(b, a) || a == b
  {
    if a != [] && b != [] && a[0] == b[0] {
      Connected(a[1..], b[1..]);
      assert a == [a[0]] + a[1..] && b == [b[0]] + b[1..];
    }
  }

  lemma NewBest(cs: seq<Candidate>, was: Candidate, c: Candidate, q: Request)
    requires Best(was, cs, q) && Legal(c, q) && Before(SortKey(c, q), SortKey(was, q))
    ensures Best(c, cs + [c], q)
    ensures forall d | d in cs && Legal(d, q) :: Before(SortKey(c, q), SortKey(d, q))
  {
    Irreflexive(SortKey(c, q));
    forall d | d in cs && Legal(d, q)
      ensures Before(SortKey(c, q), SortKey(d, q)) && !Before(SortKey(d, q), SortKey(c, q))
    {
      Connected(SortKey(d, q), SortKey(was, q));
      if SortKey(d, q) != SortKey(was, q) {
        Transitive(SortKey(c, q), SortKey(was, q), SortKey(d, q));
      }
      if Before(SortKey(d, q), SortKey(c, q)) {
        Transitive(SortKey(c, q), SortKey(d, q), SortKey(c, q));
        Irreflexive(SortKey(c, q));
      }
    }
  }
}
