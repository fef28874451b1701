/** Whole runs of the crossing: it refines a bounded queue from joint reset on. */
module FifoRuns {
  import Bits
  import opened AsyncFifo
  import opened FifoSafety

  /** The state after a sequence of instants. */
  function Run<T>(w: nat, zero: T, s: State<T>, xs: seq<Event<T>>): (t: State<T>)
    requires w >= 3 && |s.cells| == Depth(w)
    ensures |t.cells| == Depth(w)
    decreases |xs|
  {
    if xs == [] then s else Run(w, zero, Step(w, zero, s, xs[0]), xs[1..])
  }

  /** The history after a sequence of instants. */
  function History<T>(w: nat, zero: T, s: State<T>, g: View<T>, xs: seq<Event<T>>): View<T>
    requires w >= 3 && |s.cells| == Depth(w)
    decreases |xs|
  {
    if xs == [] then g else History(w, zero, Step(w, zero, s, xs[0]), After(w, s, g, xs[0]), xs[1..])
  }

  /** What an observer of the two ports sees at one instant. */
  datatype Transfer<T> = Transfer(accepted: seq<T>, delivered: seq<T>)

  function Observe<T>(s: State<T>, x: Event<T>, accepts: bool, delivers: bool): Transfer<T> {
    Transfer(if accepts then [x.payload] else [], if delivers then [s.readData] else [])
  }

  function Transfers<T>(w: nat, zero: T, s: State<T>, xs: seq<Event<T>>): seq<Transfer<T>>
    requires w >= 3 && |s.cells| == Depth(w)
    decreases |xs|
  {
    if xs == [] then [] else
      [Observe(s, xs[0], Accepts(w, s, xs[0]), Delivers(w, s, xs[0]))] +
      Transfers(w, zero, Step(w, zero, s, xs[0]), xs[1..])
  }

  function Accepted<T>(ts: seq<Transfer<T>>): seq<T> {
    if ts == [] then [] else ts[0].accepted + Accepted(ts[1..])
  }

  function Delivered<T>(ts: seq<Transfer<T>>): seq<T> {
    if ts == [] then [] else ts[0].delivered + Delivered(ts[1..])
  }

  // ------------------------------------------------------ the bounded queue

  /** A queue of at most `depth` words does this transfer: a delivered word is the
      head of the queue, and an accepted word finds room before anything leaves. */
  predicate QueueDoes<T(==)>(depth: nat, queue: seq<T>, t: Transfer<T>) {
    t.delivered <= queue && |t.delivered| <= 1 && |t.accepted| <= 1 &&
    |queue| + |t.accepted| <= depth
  }

  function QueueAfter<T>(queue: seq<T>, t: Transfer<T>): seq<T>
    requires |t.delivered| <= |queue|
  {
    queue[|t.delivered|..] + t.accepted
  }

  predicate QueueRuns<T(==)>(depth: nat, queue: seq<T>, ts: seq<Transfer<T>>)
    decreases |ts|
  {
    ts == [] || (QueueDoes(depth, queue, ts[0]) && QueueRuns(depth, QueueAfter(queue, ts[0]), ts[1..]))
  }

  /** Words accepted and not yet delivered. */
  function InFlight<T>(g: View<T>): seq<T>
    requires |g.popped| <= |g.pushed|
  {
    g.pushed[|g.popped|..]
  }

  // ------------------------------------------------------------ reset rules

  /** The registers of each domain as its reset leaves them. */
  ghost predicate SourceCleared<T>(s: State<T>) {
    s.writeBinary == 0 && s.writeGray == 0 && s.readGraySync1 == 0 && s.readGraySync2 == 0 && !s.full
  }

  ghost predicate DestinationCleared<T>(s: State<T>) {
    s.readBinary == 0 && s.readGray == 0 && s.writeGraySync1 == 0 && s.writeGraySync2 == 0 && !s.outputValid
  }

  ghost predicate Cleared<T>(w: nat, s: State<T>) {
    w >= 3 && |s.cells| == Depth(w) && SourceCleared(s) && DestinationCleared(s)
  }

  /** Once a domain has had an edge outside reset it is not reset again.  The two
      domains may be released at different times. */
  ghost predicate Coordinated<T>(xs: seq<Event<T>>, sourceReleased: bool, destinationReleased: bool)
    decreases |xs|
  {
    xs == [] ||
    var x := xs[0];
    && (x.sourceEdge && x.sourceReset ==> !sourceReleased)
    && (x.destinationEdge && x.destinationReset ==> !destinationReleased)
    && Coordinated(xs[1..], sourceReleased || (x.sourceEdge && !x.sourceReset),
                   destinationReleased || (x.destinationEdge && !x.destinationReset))
  }

  /** At every instant the first synchroniser stages catch a possible sample. */
  ghost predicate AllCaught<T>(w: nat, zero: T, s: State<T>, xs: seq<Event<T>>)
    requires w >= 3 && |s.cells| == Depth(w)
    decreases |xs|
  {
    xs == [] ||
    (Catches(w, s, xs[0], Step(w, zero, s, xs[0])) && AllCaught(w, zero, Step(w, zero, s, xs[0]), xs[1..]))
  }

  // ------------------------------------------------------------------ runs

  lemma ClearedIsInitial<T>(w: nat, s: State<T>)
    requires Cleared(w, s)
    ensures Inv(w, s, EmptyView())
  {
    assert Bits.Gray(0) == 0;
  }

  /** A domain that has not been released yet stands at pointer zero, and a source that has
      not has nothing in flight. */
  ghost predicate Idle<T>(w: nat, g: View<T>, sourceReleased: bool, destinationReleased: bool) {
    (!sourceReleased ==> Pointer(|g.pushed|, w) == 0 && |g.pushed| == |g.popped|) &&
    (!destinationReleased ==> Pointer(|g.popped|, w) == 0)
  }

  lemma IdleIsHarmless<T>(w: nat, g: View<T>, x: Event<T>, sr: bool, dr: bool)
    requires Idle(w, g, sr, dr)
    requires x.sourceEdge && x.sourceReset ==> !sr
    requires x.destinationEdge && x.destinationReset ==> !dr
    ensures Harmless(w, g, x)
  {
  }

  /** One instant, both as a step of the crossing and as a step of the queue. */
  lemma StepRefines<T>(w: nat, zero: T, s: State<T>, g: View<T>, x: Event<T>)
    requires Inv(w, s, g) && Harmless(w, g, x) && Catches(w, s, x, Step(w, zero, s, x))
    ensures var t := Observe(s, x, Accepts(w, s, x), Delivers(w, s, x));
      var n := After(w, s, g, x);
      && Inv(w, Step(w, zero, s, x), n)
      && n.pushed == g.pushed + t.accepted && n.popped == g.popped + t.delivered
      && QueueDoes(Depth(w), InFlight(g), t) && InFlight(n) == QueueAfter(InFlight(g), t)
      && (t.accepted != [] ==> x.sourceEdge && !x.sourceReset)
      && (t.delivered != [] ==> x.destinationEdge && !x.destinationReset)
  {
    InvSized(w, s, g);
    StepTicks(w, zero, s, x);
    var a, d, t := Accepts(w, s, x), Delivers(w, s, x), Step(w, zero, s, x);
    TickKeepsInv(w, zero, s, g, x, t, a, d);
    TransferRefines(w, s, g, x, a, d);
  }

  lemma TransferRefines<T>(w: nat, s: State<T>, g: View<T>, x: Event<T>, a: bool, d: bool)
    requires w >= 3 && Lags(Depth(w), g) && g.popped <= g.pushed && Orderly(Depth(w), s, g, x, a, d)
    ensures var t, n := Observe(s, x, a, d), NextView(s, g, x, a, d);
      && n.pushed == g.pushed + t.accepted && n.popped == g.popped + t.delivered
      && |n.popped| <= |n.pushed|
      && QueueDoes(Depth(w), InFlight(g), t) && InFlight(n) == QueueAfter(InFlight(g), t)
  {
    var t, q := Observe(s, x, a, d), InFlight(g);
    if d {
      assert q[0] == g.pushed[|g.popped|];
    }
    assert InFlight(NextView(s, g, x, a, d)) == QueueAfter(q, t);
  }

  lemma TransfersUnfold<T>(w: nat, zero: T, s: State<T>, xs: seq<Event<T>>)
    requires w >= 3 && |s.cells| == Depth(w) && xs != []
    ensures var ts := Transfers(w, zero, s, xs);
      && ts != [] && ts[0] == Observe(s, xs[0], Accepts(w, s, xs[0]), Delivers(w, s, xs[0]))
      && ts[1..] == Transfers(w, zero, Step(w, zero, s, xs[0]), xs[1..])
  {
  }

  /** Histories before (`g`), after the first transfer (`m`) and after all of them (`n`). */
  lemma HistoriesCompose<T>(depth: nat, g: View<T>, m: View<T>, n: View<T>, ts: seq<Transfer<T>>)
    requires |g.popped| <= |g.pushed| && |m.popped| <= |m.pushed| && ts != []
    requires QueueDoes(depth, InFlight(g), ts[0]) && InFlight(m) == QueueAfter(InFlight(g), ts[0])
    requires m.pushed == g.pushed + ts[0].accepted && m.popped == g.popped + ts[0].delivered
    requires QueueRuns(depth, InFlight(m), ts[1..])
    requires n.pushed == m.pushed + Accepted(ts[1..]) && n.popped == m.popped + Delivered(ts[1..])
    ensures QueueRuns(depth, InFlight(g), ts)
    ensures n.pushed == g.pushed + Accepted(ts) && n.popped == g.popped + Delivered(ts)
  {
    QueueRunsCons(depth, InFlight(g), ts);
    Associates(g.pushed, ts[0].accepted, Accepted(ts[1..]));
    Associates(g.popped, ts[0].delivered, Delivered(ts[1..]));
  }

  lemma QueueRunsCons<T>(depth: nat, queue: seq<T>, ts: seq<Transfer<T>>)
    requires ts != [] && QueueDoes(depth, queue, ts[0])
    requires QueueRuns(depth, QueueAfter(queue, ts[0]), ts[1..])
    ensures QueueRuns(depth, queue, ts)
  {
  }

  lemma Associates<T>(a: seq<T>, b: seq<T>, c: seq<T>)
    ensures (a + b) + c == a + (b + c)
  {
  }

  /** `n` is the history of a run from `s` with history `g`. */
  ghost predicate Extends<T>(w: nat, zero: T, s: State<T>, g: View<T>, xs: seq<Event<T>>, n: View<T>)
    requires w >= 3 && |s.cells| == Depth(w) && |g.popped| <= |g.pushed|
  {
    var ts := Transfers(w, zero, s, xs);
    && QueueRuns(Depth(w), InFlight(g), ts)
    && n.pushed == g.pushed + Accepted(ts) && n.popped == g.popped + Delivered(ts)
  }

  lemma ExtendsByNothing<T>(w: nat, zero: T, s: State<T>, g: View<T>)
    requires w >= 3 && |s.cells| == Depth(w) && |g.popped| <= |g.pushed|
    ensures Extends(w, zero, s, g, [], g)
  {
  }

  lemma AllCaughtUnfold<T>(w: nat, zero: T, s: State<T>, xs: seq<Event<T>>)
    requires w >= 3 && |s.cells| == Depth(w) && xs != [] && AllCaught(w, zero, s, xs)
    ensures Catches(w, s, xs[0], Step(w, zero, s, xs[0]))
    ensures AllCaught(w, zero, Step(w, zero, s, xs[0]), xs[1..])
    ensures Run(w, zero, s, xs) == Run(w, zero, Step(w, zero, s, xs[0]), xs[1..])
    ensures forall g :: History(w, zero, s, g, xs) ==
                        History(w, zero, Step(w, zero, s, xs[0]), After(w, s, g, xs[0]), xs[1..])
  {
  }

  lemma ExtendsByStep<T>(w: nat, zero: T, s: State<T>, g: View<T>, xs: seq<Event<T>>, n: View<T>)
    requires Inv(w, s, g) && xs != [] && Harmless(w, g, xs[0])
    requires Catches(w, s, xs[0], Step(w, zero, s, xs[0]))
    requires |After(w, s, g, xs[0]).popped| <= |After(w, s, g, xs[0]).pushed|
    requires Extends(w, zero, Step(w, zero, s, xs[0]), After(w, s, g, xs[0]), xs[1..], n)
    ensures Extends(w, zero, s, g, xs, n)
  {
    StepRefines(w, zero, s, g, xs[0]);
    TransfersUnfold(w, zero, s, xs);
    HistoriesCompose(Depth(w), g, After(w, s, g, xs[0]), n, Transfers(w, zero, s, xs));
  }

  /** A run that is legal from a point where the given domains have been released:
      resets are coordinated and every synchroniser sample is a possible one. */
  ghost predicate Legal<T>(w: nat, zero: T, s: State<T>, g: View<T>, xs: seq<Event<T>>, sr: bool, dr: bool) {
    Inv(w, s, g) && Idle(w, g, sr, dr) && Coordinated(xs, sr, dr) && AllCaught(w, zero, s, xs)
  }

  /** One instant of a legal run leaves a legal run. */
  lemma LegalUnfold<T>(w: nat, zero: T, s: State<T>, g: View<T>, xs: seq<Event<T>>, sr: bool, dr: bool)
    requires Legal(w, zero, s, g, xs, sr, dr) && xs != []
    ensures Harmless(w, g, xs[0]) && Catches(w, s, xs[0], Step(w, zero, s, xs[0]))
    ensures Legal(w, zero, Step(w, zero, s, xs[0]), After(w, s, g, xs[0]), xs[1..],
              sr || (xs[0].sourceEdge && !xs[0].sourceReset),
              dr || (xs[0].destinationEdge && !xs[0].destinationReset))
  {
    AllCaughtUnfold(w, zero, s, xs);
    IdleIsHarmless(w, g, xs[0], sr, dr);
    StepRefines(w, zero, s, g, xs[0]);
  }

  /** From any reachable point, a legal run keeps the invariant and is a run of the
      bounded queue that holds the words in flight. */
  lemma {:induction false} RunRefines<T>(w: nat, zero: T, s: State<T>, g: View<T>, xs: seq<Event<T>>,
                                         sr: bool, dr: bool)
    requires Legal(w, zero, s, g, xs, sr, dr)
    ensures Inv(w, Run(w, zero, s, xs), History(w, zero, s, g, xs))
    ensures Extends(w, zero, s, g, xs, History(w, zero, s, g, xs))
    decreases |xs|
  {
    if xs == [] {
      ExtendsByNothing(w, zero, s, g);
    } else {
      var x := xs[0];
      LegalUnfold(w, zero, s, g, xs, sr, dr);
      AllCaughtUnfold(w, zero, s, xs);
      RunRefines(w, zero, Step(w, zero, s, x), After(w, s, g, x), xs[1..],
        sr || (x.sourceEdge && !x.sourceReset), dr || (x.destinationEdge && !x.destinationReset));
      ExtendsByStep(w, zero, s, g, xs, History(w, zero, s, g, xs));
    }
  }

  /** Refinement.  From joint reset, under every interleaving of edges, every pattern
      of valid and ready, every order of release from reset and every torn sample,
      the transfers at the two ports are a run of a queue of `Depth(w)` words:
      nothing is lost, duplicated or reordered, and the depth is never exceeded. */
  lemma {:induction false} CrossingRefinesQueue<T>(w: nat, zero: T, s: State<T>, xs: seq<Event<T>>)
    requires Cleared(w, s) && Coordinated(xs, false, false) && AllCaught(w, zero, s, xs)
    ensures var ts := Transfers(w, zero, s, xs);
      && QueueRuns(Depth(w), [], ts)
      && Delivered(ts) <= Accepted(ts) && |Accepted(ts)| - |Delivered(ts)| <= Depth(w)
  {
    ClearedIsInitial(w, s);
    RunRefines(w, zero, s, EmptyView(), xs, false, false);
    FromEmpty(Depth(w), Transfers(w, zero, s, xs), History(w, zero, s, EmptyView(), xs));
  }

  lemma FromEmpty<T>(depth: nat, ts: seq<Transfer<T>>, n: View<T>)
    requires QueueRuns(depth, InFlight(EmptyView()), ts)
    requires n.pushed == EmptyView<T>().pushed + Accepted(ts) && n.popped == EmptyView<T>().popped + Delivered(ts)
    requires Lags(depth, n) && n.popped <= n.pushed
    ensures QueueRuns(depth, [], ts) && n.pushed == Accepted(ts) && n.popped == Delivered(ts)
    ensures Delivered(ts) <= Accepted(ts) && |Accepted(ts)| - |Delivered(ts)| <= depth
  {
    assert InFlight(EmptyView<T>()) == [];
  }

  // ------------------------------------------------------------ joint reset

  /** Both resets are asserted at every instant of the episode. */
  predicate BothInReset<T>(xs: seq<Event<T>>) {
    xs == [] || (xs[0].sourceReset && xs[0].destinationReset && BothInReset(xs[1..]))
  }

  predicate SourceTicks<T>(xs: seq<Event<T>>) {
    xs != [] && (xs[0].sourceEdge || SourceTicks(xs[1..]))
  }

  predicate DestinationTicks<T>(xs: seq<Event<T>>) {
    xs != [] && (xs[0].destinationEdge || DestinationTicks(xs[1..]))
  }

  lemma ResetEdgeClears<T>(w: nat, zero: T, s: State<T>, x: Event<T>)
    requires w >= 3 && |s.cells| == Depth(w) && x.sourceReset && x.destinationReset
    ensures SourceCleared(s) || x.sourceEdge ==> SourceCleared(Step(w, zero, s, x))
    ensures DestinationCleared(s) || x.destinationEdge ==> DestinationCleared(Step(w, zero, s, x))
  {
  }

  /** A reset episode in which each clock has at least one edge brings the registers of
      both domains to their initial values from any state whatever. */
  lemma {:induction false} ResetEpisodeClears<T>(w: nat, zero: T, s: State<T>, xs: seq<Event<T>>)
    requires w >= 3 && |s.cells| == Depth(w) && BothInReset(xs)
    ensures SourceCleared(s) || SourceTicks(xs) ==> SourceCleared(Run(w, zero, s, xs))
    ensures DestinationCleared(s) || DestinationTicks(xs) ==> DestinationCleared(Run(w, zero, s, xs))
    decreases |xs|
  {
    if xs != [] {
      ResetEdgeClears(w, zero, s, xs[0]);
      ResetEpisodeClears(w, zero, Step(w, zero, s, xs[0]), xs[1..]);
    }
  }

  /** From power-up garbage, a joint reset episode followed by any coordinated run is
      a run of the bounded queue. */
  lemma {:induction false} ResetThenRefines<T>(w: nat, zero: T, s: State<T>, reset: seq<Event<T>>, xs: seq<Event<T>>)
    requires w >= 3 && |s.cells| == Depth(w) && BothInReset(reset)
    requires SourceTicks(reset) && DestinationTicks(reset)
    requires Coordinated(xs, false, false) && AllCaught(w, zero, Run(w, zero, s, reset), xs)
    ensures QueueRuns(Depth(w), [], Transfers(w, zero, Run(w, zero, s, reset), xs))
  {
    ResetEpisodeClears(w, zero, s, reset);
    CrossingRefinesQueue(w, zero, Run(w, zero, s, reset), xs);
  }
}
