/** Latency, throughput and stability of the crossing, over whole runs. */
module FifoProgress {
  import opened FifoLogic
  import opened AsyncFifo
  import opened FifoSafety
  import opened FifoRuns

  /** What matters for progress at one point of a run: the two handshake flags, the
      word on the output, and the counts of the history. */
  datatype Point<T> = Point(
    outputValid: bool, full: bool, readData: T, pushed: nat, popped: nat,
    writesSeen1: nat, writesSeen2: nat, readsSeen1: nat, readsSeen2: nat, readsSeen3: nat)

  function PointOf<T>(s: State<T>, g: View<T>): Point<T> {
    Point(s.outputValid, s.full, s.readData, |g.pushed|, |g.popped|,
      g.writesSeen1, g.writesSeen2, g.readsSeen1, g.readsSeen2, g.readsSeen3)
  }

  /** How far an instant carries words towards the destination. */
  ghost predicate TowardsDestination<T>(p: Point<T>, x: Event<T>, q: Point<T>) {
    if !x.destinationEdge then
      q.popped == p.popped && q.outputValid == p.outputValid && q.readData == p.readData &&
      q.writesSeen1 == p.writesSeen1 && q.writesSeen2 == p.writesSeen2
    else if x.destinationReset then q.popped == p.popped
    else
      q.popped == p.popped + FromBool(p.outputValid && x.destinationReady) &&
      (q.outputValid <==> q.popped < p.writesSeen2) &&
      (p.outputValid && !x.destinationReady ==> q.readData == p.readData) &&
      q.writesSeen1 >= p.pushed && q.writesSeen2 == p.writesSeen1
  }

  /** How far an instant carries freed cells towards the source. */
  ghost predicate TowardsSource<T>(depth: nat, p: Point<T>, x: Event<T>, q: Point<T>) {
    (p.full <==> p.pushed == p.readsSeen3 + depth) && (q.full <==> q.pushed == q.readsSeen3 + depth) &&
    if !x.sourceEdge then
      q.pushed == p.pushed && q.readsSeen1 == p.readsSeen1 && q.readsSeen2 == p.readsSeen2 &&
      q.readsSeen3 == p.readsSeen3
    else if x.sourceReset then q.pushed == p.pushed
    else
      q.pushed == p.pushed + FromBool(x.sourceValid && !p.full) &&
      q.readsSeen1 >= p.popped && q.readsSeen2 == p.readsSeen1 && q.readsSeen3 == p.readsSeen2
  }

  ghost predicate Advances<T>(depth: nat, p: Point<T>, x: Event<T>, q: Point<T>) {
    TowardsDestination(p, x, q) && TowardsSource(depth, p, x, q) &&
    p.popped <= p.writesSeen2 <= p.writesSeen1 <= p.pushed <= q.pushed && p.popped <= q.popped
  }

  // -------------------------------------------- the points of a run advance

  lemma TickAdvances<T>(w: nat, zero: T, s: State<T>, g: View<T>, x: Event<T>, t: State<T>, a: bool, d: bool)
    requires Inv(w, s, g) && Ticks(w, zero, s, x, t, a, d)
    ensures a <==> x.sourceEdge && x.sourceValid && !x.sourceReset && !s.full
    ensures d <==> x.destinationEdge && s.outputValid && !x.destinationReset && x.destinationReady
    ensures !x.destinationEdge ==> t.outputValid == s.outputValid && t.readData == s.readData
    ensures x.destinationEdge && !x.destinationReset ==>
      (t.outputValid <==> |g.popped| + FromBool(d) < g.writesSeen2)
    ensures x.destinationEdge && !x.destinationReset && s.outputValid && !d ==> t.readData == s.readData
  {
    var _, fetches := MovesInCounts(w, zero, s, g, x, t, a, d);
    if x.destinationEdge && !x.destinationReset {
      GrayPointerInjective(|g.popped| + FromBool(d), g.writesSeen2, w);
    }
  }

  lemma ViewAdvances<T>(w: nat, s: State<T>, g: View<T>, x: Event<T>, t: State<T>, a: bool, d: bool)
    requires Inv(w, s, g) && Inv(w, t, NextView(s, g, x, a, d))
    requires a <==> x.sourceEdge && x.sourceValid && !x.sourceReset && !s.full
    requires d <==> x.destinationEdge && s.outputValid && !x.destinationReset && x.destinationReady
    requires !x.destinationEdge ==> t.outputValid == s.outputValid && t.readData == s.readData
    requires x.destinationEdge && !x.destinationReset ==>
      (t.outputValid <==> |g.popped| + FromBool(d) < g.writesSeen2)
    requires x.destinationEdge && !x.destinationReset && s.outputValid && !d ==> t.readData == s.readData
    ensures Advances(Depth(w), PointOf(s, g), x, PointOf(t, NextView(s, g, x, a, d)))
  {
  }

  lemma StepAdvances<T>(w: nat, zero: T, s: State<T>, g: View<T>, x: Event<T>)
    requires Inv(w, s, g) && Harmless(w, g, x) && Catches(w, s, x, Step(w, zero, s, x))
    ensures Advances(Depth(w), PointOf(s, g), x, PointOf(Step(w, zero, s, x), After(w, s, g, x)))
  {
    InvSized(w, s, g);
    StepTicks(w, zero, s, x);
    var t, a, d := Step(w, zero, s, x), Accepts(w, s, x), Delivers(w, s, x);
    TickKeepsInv(w, zero, s, g, x, t, a, d);
    TickAdvances(w, zero, s, g, x, t, a, d);
    ViewAdvances(w, s, g, x, t, a, d);
  }

  /** The points advance instant by instant. */
  ghost predicate Path<T>(depth: nat, ps: seq<Point<T>>, xs: seq<Event<T>>) {
    |ps| == |xs| + 1 && forall i | 0 <= i < |xs| :: Advances(depth, ps[i], xs[i], ps[i + 1])
  }

  lemma PathCons<T>(depth: nat, p: Point<T>, ps: seq<Point<T>>, xs: seq<Event<T>>)
    requires xs != [] && Path(depth, ps, xs[1..]) && Advances(depth, p, xs[0], ps[0])
    ensures Path(depth, [p] + ps, xs)
  {
    forall i | 0 <= i < |xs|
      ensures Advances(depth, ([p] + ps)[i], xs[i], ([p] + ps)[i + 1])
    {
      if i > 0 {
        assert Advances(depth, ps[i - 1], xs[1..][i - 1], ps[i]);
      }
    }
  }

  /** `ps` are points of a run that starts at `first` and ends at `last`. */
  ghost predicate Leads<T>(depth: nat, ps: seq<Point<T>>, xs: seq<Event<T>>, first: Point<T>, last: Point<T>) {
    Path(depth, ps, xs) && ps[0] == first && ps[|xs|] == last
  }

  lemma LeadsCons<T>(depth: nat, p: Point<T>, ps: seq<Point<T>>, xs: seq<Event<T>>, first: Point<T>, last: Point<T>)
    requires xs != [] && Leads(depth, ps, xs[1..], first, last) && Advances(depth, p, xs[0], first)
    ensures Leads(depth, [p] + ps, xs, p, last)
  {
    PathCons(depth, p, ps, xs);
  }

  lemma {:induction false} RunIsPath<T>(w: nat, zero: T, s: State<T>, g: View<T>, xs: seq<Event<T>>,
                                        sr: bool, dr: bool) returns (ps: seq<Point<T>>)
    requires Legal(w, zero, s, g, xs, sr, dr)
    ensures Leads(Depth(w), ps, xs, PointOf(s, g), PointOf(Run(w, zero, s, xs), History(w, zero, s, g, xs)))
    decreases |xs|
  {
    if xs == [] {
      ps := [PointOf(s, g)];
    } else {
      var x := xs[0];
      LegalUnfold(w, zero, s, g, xs, sr, dr);
      AllCaughtUnfold(w, zero, s, xs);
      StepAdvances(w, zero, s, g, x);
      ps := RunIsPath(w, zero, Step(w, zero, s, x), After(w, s, g, x), xs[1..],
        sr || (x.sourceEdge && !x.sourceReset), dr || (x.destinationEdge && !x.destinationReset));
      LeadsCons(Depth(w), PointOf(s, g), ps, xs, PointOf(Step(w, zero, s, x), After(w, s, g, x)),
        PointOf(Run(w, zero, s, xs), History(w, zero, s, g, xs)));
      ps := [PointOf(s, g)] + ps;
    }
  }

  // ------------------------------------------------------- progress on paths

  function DestinationEdges<T>(xs: seq<Event<T>>, k: nat): nat
    requires k <= |xs|
  {
    if k == 0 then 0 else DestinationEdges(xs, k - 1) + FromBool(xs[k - 1].destinationEdge)
  }

  function SourceEdges<T>(xs: seq<Event<T>>, k: nat): nat
    requires k <= |xs|
  {
    if k == 0 then 0 else SourceEdges(xs, k - 1) + FromBool(xs[k - 1].sourceEdge)
  }

  /** After `k` instants the oldest of the first `pushed` words has left, or has come
      one stage further per destination edge: two synchroniser stages, then the slot. */
  lemma {:induction false} WordComes<T>(depth: nat, ps: seq<Point<T>>, xs: seq<Event<T>>, k: nat)
    requires Path(depth, ps, xs) && k <= |xs| && forall x | x in xs :: !x.destinationReset
    requires ps[0].popped < ps[0].pushed
    ensures var e := DestinationEdges(xs, k);
      ps[k].pushed >= ps[0].pushed && (ps[k].popped > ps[0].popped || (
        && ps[k].popped == ps[0].popped
        && (e >= 1 ==> ps[k].writesSeen1 >= ps[0].pushed)
        && (e >= 2 ==> ps[k].writesSeen2 >= ps[0].pushed)
        && (e >= 3 ==> ps[k].outputValid)))
    decreases k
  {
    if k > 0 {
      WordComes(depth, ps, xs, k - 1);
      assert Advances(depth, ps[k - 1], xs[k - 1], ps[k]) && xs[k - 1] in xs;
    }
  }

  /** After `k` instants something has been accepted, or the reads made so far have come
      one stage further back per source edge: two synchroniser stages, then the flag. */
  lemma {:induction false} CellComesBack<T>(depth: nat, ps: seq<Point<T>>, xs: seq<Event<T>>, k: nat)
    requires Path(depth, ps, xs) && k <= |xs| && forall x | x in xs :: !x.sourceReset
    ensures var e := SourceEdges(xs, k);
      ps[k].popped >= ps[0].popped && (ps[k].pushed > ps[0].pushed || (
        && ps[k].pushed == ps[0].pushed
        && (e >= 1 ==> ps[k].readsSeen1 >= ps[0].popped)
        && (e >= 2 ==> ps[k].readsSeen2 >= ps[0].popped)
        && (e >= 3 ==> ps[k].readsSeen3 >= ps[0].popped)))
    decreases k
  {
    if k > 0 {
      CellComesBack(depth, ps, xs, k - 1);
      assert Advances(depth, ps[k - 1], xs[k - 1], ps[k]) && xs[k - 1] in xs;
    }
  }

  /** Words the destination knows of leave one per destination edge. */
  lemma {:induction false} WordsStream<T>(depth: nat, ps: seq<Point<T>>, xs: seq<Event<T>>, k: nat)
    requires Path(depth, ps, xs) && k <= |xs| && ps[0].outputValid
    requires forall x | x in xs :: !x.destinationReset && x.destinationReady
    requires ps[0].popped + DestinationEdges(xs, k) <= ps[0].writesSeen2
    ensures ps[k].popped == ps[0].popped + DestinationEdges(xs, k)
    ensures ps[k].writesSeen2 >= ps[0].writesSeen2
    ensures ps[k].popped < ps[0].writesSeen2 ==> ps[k].outputValid
    decreases k
  {
    if k > 0 {
      WordsStream(depth, ps, xs, k - 1);
      assert Advances(depth, ps[k - 1], xs[k - 1], ps[k]) && xs[k - 1] in xs;
    }
  }

  /** While the destination is ready, the words pushed so far come through the synchroniser in
      two destination edges and into the slot in a third, and leave one per edge from then on. */
  lemma {:induction false} WordsDrain<T>(depth: nat, ps: seq<Point<T>>, xs: seq<Event<T>>, k: nat)
    requires Path(depth, ps, xs) && k <= |xs|
    requires forall x | x in xs :: !x.destinationReset && x.destinationReady
    ensures ps[k].popped >= ps[0].popped && ps[k].pushed >= ps[0].pushed
    ensures var e := DestinationEdges(xs, k);
      && (e >= 1 ==> ps[k].writesSeen1 >= ps[0].pushed)
      && (e >= 2 ==> ps[k].writesSeen2 >= ps[0].pushed)
      && (e >= 3 && ps[k].popped < ps[0].pushed ==> ps[k].outputValid && ps[k].popped + 3 >= ps[0].popped + e)
    decreases k
  {
    if k > 0 {
      WordsDrain(depth, ps, xs, k - 1);
      assert Advances(depth, ps[k - 1], xs[k - 1], ps[k]) && xs[k - 1] in xs;
    }
  }

  /** A stalled word stays on the output, unchanged and undelivered. */
  lemma {:induction false} WordStays<T>(depth: nat, ps: seq<Point<T>>, xs: seq<Event<T>>, k: nat)
    requires Path(depth, ps, xs) && k <= |xs| && ps[0].outputValid && ps[0].popped < ps[0].writesSeen2
    requires forall x | x in xs :: !x.destinationReset && (x.destinationEdge ==> !x.destinationReady)
    ensures ps[k].outputValid && ps[k].readData == ps[0].readData && ps[k].popped == ps[0].popped
    ensures ps[k].writesSeen2 >= ps[0].writesSeen2
    decreases k
  {
    if k > 0 {
      WordStays(depth, ps, xs, k - 1);
      assert Advances(depth, ps[k - 1], xs[k - 1], ps[k]) && xs[k - 1] in xs;
    }
  }

  // -------------------------------------------------------- progress of runs

  /** The history of a legal run grows by the transfers seen at the ports. */
  lemma HistoryGrows<T>(w: nat, zero: T, s: State<T>, g: View<T>, xs: seq<Event<T>>, sr: bool, dr: bool)
    requires Legal(w, zero, s, g, xs, sr, dr)
    ensures var n, ts := History(w, zero, s, g, xs), Transfers(w, zero, s, xs);
      |n.popped| == |g.popped| + |Delivered(ts)| && |n.pushed| == |g.pushed| + |Accepted(ts)|
  {
    RunRefines(w, zero, s, g, xs, sr, dr);
  }

  /** Latency: with a word in flight, after three destination edges a word is on the
      output or has been delivered. */
  lemma {:induction false} HeadShowsWithinThreeEdges<T>(w: nat, zero: T, s: State<T>, g: View<T>, xs: seq<Event<T>>, sr: bool, dr: bool)
    requires Legal(w, zero, s, g, xs, sr, dr) && forall x | x in xs :: !x.destinationReset
    requires |g.popped| < |g.pushed| && DestinationEdges(xs, |xs|) >= 3
    ensures Run(w, zero, s, xs).outputValid || Delivered(Transfers(w, zero, s, xs)) != []
  {
    var ps := RunIsPath(w, zero, s, g, xs, sr, dr);
    WordComes(Depth(w), ps, xs, |xs|);
    HistoryGrows(w, zero, s, g, xs, sr, dr);
  }

  /** Returned capacity: with fewer than `Depth(w)` words in flight, after three source
      edges the source is ready or has had a word accepted. */
  lemma {:induction false} RoomShowsWithinThreeEdges<T>(w: nat, zero: T, s: State<T>, g: View<T>, xs: seq<Event<T>>, sr: bool, dr: bool)
    requires Legal(w, zero, s, g, xs, sr, dr) && forall x | x in xs :: !x.sourceReset
    requires |g.pushed| < |g.popped| + Depth(w) && SourceEdges(xs, |xs|) >= 3
    ensures !Run(w, zero, s, xs).full || Accepted(Transfers(w, zero, s, xs)) != []
  {
    var ps := RunIsPath(w, zero, s, g, xs, sr, dr);
    CellComesBack(Depth(w), ps, xs, |xs|);
    HistoryGrows(w, zero, s, g, xs, sr, dr);
    assert |xs| > 0 && Advances(Depth(w), ps[|xs| - 1], xs[|xs| - 1], ps[|xs|]);
  }

  /** Throughput: while the destination is ready, words it knows of are delivered one
      at every destination edge, without a bubble. */
  lemma {:induction false} StreamsWithoutBubbles<T>(w: nat, zero: T, s: State<T>, g: View<T>, xs: seq<Event<T>>, sr: bool, dr: bool)
    requires Legal(w, zero, s, g, xs, sr, dr) && s.outputValid
    requires forall x | x in xs :: !x.destinationReset && x.destinationReady
    requires |g.popped| + DestinationEdges(xs, |xs|) <= g.writesSeen2
    ensures |Delivered(Transfers(w, zero, s, xs))| == DestinationEdges(xs, |xs|)
  {
    var ps := RunIsPath(w, zero, s, g, xs, sr, dr);
    WordsStream(Depth(w), ps, xs, |xs|);
    HistoryGrows(w, zero, s, g, xs, sr, dr);
  }

  /** Draining: while the destination is ready, of the words in flight all but those that would
      leave in three destination edges more have been delivered; after as many edges as there
      are words in flight, and three, they have all been, in order. */
  lemma {:induction false} DrainsWhenReady<T>(w: nat, zero: T, s: State<T>, g: View<T>, xs: seq<Event<T>>, sr: bool, dr: bool)
    requires Legal(w, zero, s, g, xs, sr, dr)
    requires forall x | x in xs :: !x.destinationReset && x.destinationReady
    ensures var e, ts, q := DestinationEdges(xs, |xs|), Transfers(w, zero, s, xs), InFlight(g);
      && (|Delivered(ts)| >= |q| || |Delivered(ts)| + 3 >= e)
      && (e >= |q| + 3 ==> q <= Delivered(ts))
  {
    var ts, q := Transfers(w, zero, s, xs), InFlight(g);
    var ps := RunIsPath(w, zero, s, g, xs, sr, dr);
    WordsDrain(Depth(w), ps, xs, |xs|);
    RunRefines(w, zero, s, g, xs, sr, dr);
    if |Delivered(ts)| >= |q| {
      PrefixOfQueue(g.pushed, g.popped, Accepted(ts), Delivered(ts));
    }
  }

  lemma PrefixOfQueue<T>(pushed: seq<T>, popped: seq<T>, accepted: seq<T>, delivered: seq<T>)
    requires popped <= pushed && popped + delivered <= pushed + accepted && |pushed| <= |popped| + |delivered|
    ensures pushed[|popped|..] <= delivered
  {
    assert pushed == (pushed + accepted)[..|pushed|] == (popped + delivered)[..|pushed|];
    assert delivered == (popped + delivered)[|popped|..];
  }

  /** Stability: while the destination is not ready the word on the output stays there
      with its valid flag, and is still in flight, however long the stall. */
  lemma {:induction false} StalledWordHolds<T>(w: nat, zero: T, s: State<T>, g: View<T>, xs: seq<Event<T>>, sr: bool, dr: bool)
    requires Legal(w, zero, s, g, xs, sr, dr) && s.outputValid
    requires forall x | x in xs :: !x.destinationReset && (x.destinationEdge ==> !x.destinationReady)
    ensures Run(w, zero, s, xs).outputValid && Run(w, zero, s, xs).readData == s.readData
    ensures Delivered(Transfers(w, zero, s, xs)) == []
  {
    var ps := RunIsPath(w, zero, s, g, xs, sr, dr);
    WordStays(Depth(w), ps, xs, |xs|);
    HistoryGrows(w, zero, s, g, xs, sr, dr);
  }

  /** The crossing never refuses a word before it has accepted as many as it can hold. */
  lemma {:induction false} FirstWordsAccepted<T>(w: nat, zero: T, s: State<T>, xs: seq<Event<T>>)
    requires Cleared(w, s) && Coordinated(xs, false, false) && AllCaught(w, zero, s, xs)
    ensures Run(w, zero, s, xs).full ==> |Accepted(Transfers(w, zero, s, xs))| >= Depth(w)
  {
    ClearedIsInitial(w, s);
    RunRefines(w, zero, s, EmptyView(), xs, false, false);
    HistoryGrows(w, zero, s, EmptyView(), xs, false, false);
  }
}
