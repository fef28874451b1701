/** What a reset of one domain alone does to a crossing that is in use. */
module FifoResets {
  import opened Bits
  import opened FifoLogic
  import opened Modular
  import opened AsyncFifo
  import opened FifoSafety
  import opened FifoRuns
  import opened FifoHazards

  /** Whatever happens at the ports from `t` on is a run of a queue that holds `queue`.  A
      domain not released yet may be held in reset at first, the others are not reset again. */
  ghost predicate Safe<T(!new)>(w: nat, zero: T, t: State<T>, queue: seq<T>, sr: bool, dr: bool)
    requires w >= 3 && |t.cells| == Depth(w)
  {
    forall xs: seq<Event<T>> :: Coordinated(xs, sr, dr) && AllCaught(w, zero, t, xs) ==>
      QueueRuns(Depth(w), queue, Transfers(w, zero, t, xs))
  }

  /** More words come out than were there and went in, or more stay in than there is room. */
  ghost predicate Overruns<T>(depth: nat, queue: seq<T>, ts: seq<Transfer<T>>) {
    |Delivered(ts)| > |queue| + |Accepted(ts)| || |queue| + |Accepted(ts)| > depth + |Delivered(ts)|
  }

  /** Some run without resets overruns the queue. */
  ghost predicate Damaged<T(!new)>(w: nat, zero: T, t: State<T>, queue: seq<T>)
    requires w >= 3 && |t.cells| == Depth(w)
  {
    exists xs: seq<Event<T>> :: Unreset(w, zero, t, xs) && Overruns(Depth(w), queue, Transfers(w, zero, t, xs))
  }

  lemma {:induction false} CoordinatedToo<T>(xs: seq<Event<T>>, sr: bool, dr: bool)
    requires Coordinated(xs, true, true)
    ensures Coordinated(xs, sr, dr)
    decreases |xs|
  {
    if xs != [] {
      var x := xs[0];
      CoordinatedToo(xs[1..], sr || (x.sourceEdge && !x.sourceReset), dr || (x.destinationEdge && !x.destinationReset));
    }
  }

  lemma DamagedIsUnsafe<T(!new)>(w: nat, zero: T, t: State<T>, queue: seq<T>, sr: bool, dr: bool)
    requires w >= 3 && |t.cells| == Depth(w) && |queue| <= Depth(w) && Damaged(w, zero, t, queue)
    ensures !Safe(w, zero, t, queue, sr, dr)
  {
    var xs: seq<Event<T>> :| Unreset(w, zero, t, xs) && Overruns(Depth(w), queue, Transfers(w, zero, t, xs));
    CoordinatedToo(xs, sr, dr);
    if Safe(w, zero, t, queue, sr, dr) {
      QueueBounds(Depth(w), queue, Transfers(w, zero, t, xs));
    }
  }

  lemma InvIsSafe<T(!new)>(w: nat, zero: T, t: State<T>, g: View<T>, sr: bool, dr: bool)
    requires Inv(w, t, g) && Idle(w, g, sr, dr)
    ensures Safe(w, zero, t, InFlight(g), sr, dr)
  {
    forall xs: seq<Event<T>> | Coordinated(xs, sr, dr) && AllCaught(w, zero, t, xs)
      ensures QueueRuns(Depth(w), InFlight(g), Transfers(w, zero, t, xs))
    {
      RunRefines(w, zero, t, g, xs, sr, dr);
    }
  }

  lemma ZeroPointer(count: nat, w: nat)
    requires w >= 1
    ensures Pointer(0, w) == 0 && GrayPointer(0, w) == 0
    ensures GrayPointer(count, w) == 0 <==> Pointer(count, w) == 0
  {
    assert Bits.Gray(0) == 0;
    GrayInjective(Pointer(count, w), 0);
  }

  /** The pointers `r` behind `p` stand by `k` words, with `r` and `p` in range. */
  ghost predicate Apart(w: nat, r: nat, p: nat, k: nat)
    requires w >= 3
  {
    r < Pow2(w) && k <= Depth(w) && p == if r + k < Pow2(w) then r + k else r + k - Pow2(w)
  }

  lemma CountsApart(w: nat, read: nat, written: nat)
    requires w >= 3 && read <= written <= read + Depth(w)
    ensures Apart(w, Pointer(read, w), Pointer(written, w), written - read)
  {
    Pow2Even(w);
    WrapDistance(read, written, Pow2(w));
  }

  // ----------------------------------------------- the destination alone

  /** Either the destination reads on past what is there, or the source finds room that is
      not there. */
  lemma DestinationResetUnread(w: nat, r: nat, p: nat, k: nat)
    requires w >= 3 && Apart(w, r, p, k) && r != 0
    ensures r + k < Pow2(w) ==> Unread(w, 0, Bits.Gray(p), k + 1)
    ensures r + k >= Pow2(w) ==> Room(w, p, 0, Depth(w) - k + 1)
  {
    Pow2Even(w);
    assert Bits.Gray(0) == 0;
    if r + k < Pow2(w) {
      forall i: nat | i < k + 1
        ensures Bits.Gray(Wrap(i, Pow2(w))) != Bits.Gray(p)
      {
        GrayInjective(i, p);
      }
    } else {
      forall i: nat | p <= i < p + Depth(w) - k + 1
        ensures !LooksFull(w, Wrap(i, Pow2(w)), 0)
      {
        LooksFullExact(w, i, 0);
      }
    }
  }

  /** An instant that resets the destination and not the source. */
  ghost predicate DestinationResets<T>(x: Event<T>) {
    x.destinationEdge && x.destinationReset && !(x.sourceEdge && x.sourceReset)
  }

  /** The state and history after such an instant, the source having gone on as usual. */
  ghost predicate DestinationWasReset<T>(w: nat, s: State<T>, g: View<T>, t: State<T>, n: View<T>) {
    && Sized(w, t) && t.readBinary == 0 && t.readGray == 0 && WritesTrack(w, t, n)
    && s.readBinary == Pointer(|n.popped|, w) && |n.popped| <= |n.pushed| <= |n.popped| + Depth(w)
  }

  lemma DestinationResetState<T>(w: nat, zero: T, s: State<T>, g: View<T>, x: Event<T>)
    requires Inv(w, s, g) && DestinationResets(x) && Catches(w, s, x, Step(w, zero, s, x))
    ensures DestinationWasReset(w, s, g, Step(w, zero, s, x), After(w, s, g, x))
  {
    var t, a, d := Step(w, zero, s, x), Accepts(w, s, x), Delivers(w, s, x);
    InvSized(w, s, g);
    StepTicks(w, zero, s, x);
    StepSized(w, zero, s, x);
    TransfersHold(w, zero, s, g, x, t, a, d);
    var fills, fetches := MovesInCounts(w, zero, s, g, x, t, a, d);
    DestinationResetMoves(w, zero, s, g, x, t, a, d, fills, fetches);
  }

  lemma DestinationResetMoves<T>(w: nat, zero: T, s: State<T>, g: View<T>, x: Event<T>, t: State<T>, a: bool, d: bool,
                                 fills: bool, fetches: bool)
    requires Inv(w, s, g) && DestinationResets(x) && Sized(w, t) && Orderly(Depth(w), s, g, x, a, d)
    requires SourceMoves(w, s, x, t, Pointer(|g.pushed| + FromBool(a), w), a, fills)
    requires DestinationMoves(w, zero, s, x, t, Pointer(|g.popped| + FromBool(d), w), d, fetches)
    ensures DestinationWasReset(w, s, g, t, NextView(s, g, x, a, d))
  {
  }

  lemma DestinationResetUnsafe<T(!new)>(w: nat, zero: T, s: State<T>, g: View<T>, t: State<T>, n: View<T>)
    requires w >= 3 && DestinationWasReset(w, s, g, t, n) && s.readBinary != 0
    ensures Damaged(w, zero, t, InFlight(n))
  {
    var r, p, k := s.readBinary, t.writeBinary, |InFlight(n)|;
    CountsApart(w, |n.popped|, |n.pushed|);
    DestinationResetUnread(w, r, p, k);
    assert Bits.Gray(0) == 0 && Wrap(0, Pow2(w)) == 0;
    assert Wrap(p, Pow2(w)) == p;
    var xs;
    if r + k < Pow2(w) {
      xs := WordsComeOut(w, zero, t, 0, 2, k + 1);
    } else {
      xs := WordsGoIn(w, zero, t, p, 3, Depth(w) - k + 1);
    }
    assert Overruns(Depth(w), InFlight(n), Transfers(w, zero, t, xs));
  }

  /** After an edge that resets the destination and not the source, whatever words are then in
      flight, the ports go on as those of the queue that holds them exactly when the read
      pointer stood at zero, however long the reset is held.  Otherwise some run overruns it. */
  lemma {:induction false} LoneDestinationReset<T(!new)>(w: nat, zero: T, s: State<T>, g: View<T>, x: Event<T>, held: bool)
    requires Inv(w, s, g) && DestinationResets(x) && Catches(w, s, x, Step(w, zero, s, x))
    ensures |After(w, s, g, x).popped| <= |After(w, s, g, x).pushed|
    ensures Safe(w, zero, Step(w, zero, s, x), InFlight(After(w, s, g, x)), true, !held) <==> s.readBinary == 0
    ensures s.readBinary != 0 ==> Damaged(w, zero, Step(w, zero, s, x), InFlight(After(w, s, g, x)))
  {
    var t, n := Step(w, zero, s, x), After(w, s, g, x);
    DestinationResetState(w, zero, s, g, x);
    if s.readBinary == 0 {
      StepRefines(w, zero, s, g, x);
      InvIsSafe(w, zero, t, n, true, !held);
    } else {
      DestinationResetUnsafe(w, zero, s, g, t, n);
      DamagedIsUnsafe(w, zero, t, InFlight(n), true, !held);
    }
  }

  // ---------------------------------------------------- the source alone

  /** An instant that resets the source and not the destination. */
  ghost predicate SourceResets<T>(x: Event<T>) {
    x.sourceEdge && x.sourceReset && !(x.destinationEdge && x.destinationReset)
  }

  /** The source has been reset at write pointer zero and has had `edges` edges since, fewer
      than three.  Stages of its synchroniser that still show the reset value stand, in the
      history, for the reads made before the reset, and there is room for a word at each edge
      that is left until the full flag is computed from a real read pointer again. */
  ghost predicate Settling<T>(w: nat, s: State<T>, g: View<T>, edges: nat) {
    Core(w, s, g) && edges < 3 && !s.full && s.writeBinary <= edges
    && |g.pushed| + (3 - edges) <= g.readsSeen3 + Depth(w)
    && s.readGraySync1 == (if edges >= 1 then GrayPointer(g.readsSeen1, w) else 0)
    && s.readGraySync2 == (if edges >= 2 then GrayPointer(g.readsSeen2, w) else 0)
  }

  lemma SettlingSized<T>(w: nat, s: State<T>, g: View<T>, edges: nat)
    requires Settling(w, s, g, edges)
    ensures Sized(w, s)
  {
    PointerInRange(|g.pushed|, w);
    PointerInRange(|g.popped|, w);
    PointerInRange(g.readsSeen1, w);
    PointerInRange(g.readsSeen2, w);
    PointerInRange(g.writesSeen1, w);
    PointerInRange(g.writesSeen2, w);
  }

  lemma SettlingOrderly<T>(w: nat, zero: T, s: State<T>, g: View<T>, x: Event<T>, t: State<T>, a: bool, d: bool,
                           edges: nat)
    requires Settling(w, s, g, edges) && Ticks(w, zero, s, x, t, a, d)
    ensures Orderly(Depth(w), s, g, x, a, d)
  {
  }

  /** While it settles, the source does not find itself full. */
  lemma SettlingNotFull<T>(w: nat, s: State<T>, g: View<T>, accepts: bool, edges: nat)
    requires Settling(w, s, g, edges) && |g.pushed| + FromBool(accepts) <= g.readsSeen3 + Depth(w)
    ensures Pointer(|g.pushed| + FromBool(accepts), w) <= edges + 1
    ensures GrayPointer(|g.pushed| + FromBool(accepts), w) == Bits.Xor(s.readGraySync2, 3 * Pow2(w - 2)) <==>
            edges == 2 && |g.pushed| + FromBool(accepts) == g.readsSeen2 + Depth(w)
  {
    SmallNext(w, |g.pushed|, accepts, edges);
    if edges == 2 {
      FullTestExact(g.readsSeen2, |g.pushed| + FromBool(accepts), w);
    } else {
      SmallNotFull(w, Pointer(|g.pushed| + FromBool(accepts), w));
    }
  }

  lemma SmallNext(w: nat, count: nat, accepts: bool, edges: nat)
    requires w >= 3 && Pointer(count, w) <= edges < 3
    ensures Pointer(count + FromBool(accepts), w) <= edges + 1
  {
    Pow2Monotone(3, w);
    assert Pow2(3) == 8;
    WrapStep(count, Pow2(w), FromBool(accepts));
  }

  /** The first few pointers do not look full against pointer zero. */
  lemma SmallNotFull(w: nat, next: nat)
    requires w >= 3 && next <= 2
    ensures Bits.Gray(next) != Bits.Xor(0, 3 * Pow2(w - 2))
  {
    Pow2Even(w);
    Pow2Monotone(3, w);
    assert Pow2(3) == 8 && Bits.Gray(0) == 0;
    LooksFullExact(w, next, 0);
  }

  /** A settling source comes one edge further, and after the third all is as in any run; a
      reset held on keeps it where it is. */
  lemma SettlingMoves<T>(w: nat, s: State<T>, g: View<T>, x: Event<T>, t: State<T>, a: bool, d: bool,
                         fills: bool, edges: nat)
    requires Settling(w, s, g, edges) && (x.sourceEdge && x.sourceReset ==> edges == 0)
    requires !(x.destinationEdge && x.destinationReset)
    requires Orderly(Depth(w), s, g, x, a, d) && Caught(w, s, g, x, a, d)
    requires Core(w, t, NextView(s, g, x, a, d))
    requires SourceMoves(w, s, x, t, Pointer(|g.pushed| + FromBool(a), w), a, fills)
    requires x.sourceEdge && !x.sourceReset ==>
      (fills <==> edges == 2 && |g.pushed| + FromBool(a) == g.readsSeen2 + Depth(w))
    requires Pointer(|g.pushed| + FromBool(a), w) <= edges + 1
    ensures Settles(w, x, t, NextView(s, g, x, a, d), edges)
  {
    var n := NextView(s, g, x, a, d);
    if !x.sourceEdge || x.sourceReset {
      SettlingStays(w, s, g, x, t, a, d, fills, edges);
    } else if edges < 2 {
      SettlingAdvances(w, s, g, x, t, a, d, edges);
    } else {
      SettlingEnds(w, s, g, x, t, a, d, fills);
    }
  }

  lemma SettlingStays<T>(w: nat, s: State<T>, g: View<T>, x: Event<T>, t: State<T>, a: bool, d: bool,
                         fills: bool, edges: nat)
    requires Settling(w, s, g, edges) && (if x.sourceEdge then x.sourceReset && edges == 0 else true)
    requires Core(w, t, NextView(s, g, x, a, d)) && Orderly(Depth(w), s, g, x, a, d)
    requires SourceMoves(w, s, x, t, Pointer(|g.pushed| + FromBool(a), w), a, fills)
    ensures Settling(w, t, NextView(s, g, x, a, d), edges)
  {
  }

  /** The source registers after an edge at which it was neither reset nor found itself full. */
  lemma SettlingAdvances<T>(w: nat, s: State<T>, g: View<T>, x: Event<T>, t: State<T>, a: bool, d: bool, edges: nat)
    requires Settling(w, s, g, edges) && edges < 2 && x.sourceEdge && !x.sourceReset
    requires Core(w, t, NextView(s, g, x, a, d)) && Caught(w, s, g, x, a, d)
    requires SourceMoves(w, s, x, t, Pointer(|g.pushed| + FromBool(a), w), a, false)
    requires Pointer(|g.pushed| + FromBool(a), w) <= edges + 1
    ensures Settling(w, t, NextView(s, g, x, a, d), edges + 1)
  {
  }

  lemma SettlingEnds<T>(w: nat, s: State<T>, g: View<T>, x: Event<T>, t: State<T>, a: bool, d: bool, fills: bool)
    requires Settling(w, s, g, 2) && x.sourceEdge && !x.sourceReset
    requires Core(w, t, NextView(s, g, x, a, d)) && Caught(w, s, g, x, a, d)
    requires SourceMoves(w, s, x, t, Pointer(|g.pushed| + FromBool(a), w), a, fills)
    requires fills <==> |g.pushed| + FromBool(a) == g.readsSeen2 + Depth(w)
    ensures Inv(w, t, NextView(s, g, x, a, d))
  {
  }

  ghost predicate Settles<T>(w: nat, x: Event<T>, t: State<T>, n: View<T>, edges: nat) {
    if !x.sourceEdge || x.sourceReset then Settling(w, t, n, edges)
    else if edges < 2 then Settling(w, t, n, edges + 1) else Inv(w, t, n)
  }

  lemma SettlingStep<T>(w: nat, zero: T, s: State<T>, g: View<T>, x: Event<T>, edges: nat)
    requires Settling(w, s, g, edges) && (x.sourceEdge && x.sourceReset ==> edges == 0)
    requires !(x.destinationEdge && x.destinationReset) && Catches(w, s, x, Step(w, zero, s, x))
    ensures Settles(w, x, Step(w, zero, s, x), After(w, s, g, x), edges)
    ensures Orderly(Depth(w), s, g, x, Accepts(w, s, x), Delivers(w, s, x))
  {
    var t, a, d := Step(w, zero, s, x), Accepts(w, s, x), Delivers(w, s, x);
    SettlingSized(w, s, g, edges);
    StepTicks(w, zero, s, x);
    SettlingOrderly(w, zero, s, g, x, t, a, d, edges);
    var fills := TickKeepsCore(w, zero, s, g, x, t, a, d);
    SettlingNotFull(w, s, g, a, edges);
    SettlingMoves(w, s, g, x, t, a, d, fills, edges);
  }

  /** Runs of a settling source are runs of the queue, also where its reset is held at first. */
  lemma {:induction false} SettlingRefines<T>(w: nat, zero: T, s: State<T>, g: View<T>, xs: seq<Event<T>>,
                                              edges: nat, sr: bool)
    requires Settling(w, s, g, edges) && (!sr ==> edges == 0)
    requires Coordinated(xs, sr, true) && AllCaught(w, zero, s, xs)
    ensures QueueRuns(Depth(w), InFlight(g), Transfers(w, zero, s, xs))
    decreases |xs|
  {
    if xs != [] {
      var x := xs[0];
      var t, n, released := Step(w, zero, s, x), After(w, s, g, x), sr || (x.sourceEdge && !x.sourceReset);
      AllCaughtUnfold(w, zero, s, xs);
      TransfersUnfold(w, zero, s, xs);
      SettlingStep(w, zero, s, g, x, edges);
      TransferRefines(w, s, g, x, Accepts(w, s, x), Delivers(w, s, x));
      if !x.sourceEdge || x.sourceReset {
        SettlingRefines(w, zero, t, n, xs[1..], edges, released);
      } else if edges < 2 {
        SettlingRefines(w, zero, t, n, xs[1..], edges + 1, released);
      } else {
        RunRefines(w, zero, t, n, xs[1..], true, true);
      }
      QueueRunsCons(Depth(w), InFlight(g), Transfers(w, zero, s, xs));
    }
  }

  /** A source that has been reset has words accepted at each of its first three edges. */
  lemma {:induction false} ThreeGoIn<T>(w: nat, zero: T, s: State<T>, left: nat) returns (xs: seq<Event<T>>)
    requires Sized(w, s) && left <= 3 && s.writeBinary == 3 - left && (left >= 1 ==> !s.full)
    requires (left >= 2 ==> s.readGraySync2 == 0) && (left == 3 ==> s.readGraySync1 == 0)
    ensures Unreset(w, zero, s, xs)
    ensures var ts := Transfers(w, zero, s, xs); |Accepted(ts)| == left && Delivered(ts) == []
    decreases left
  {
    if left == 0 {
      return [];
    }
    Pow2Even(w);
    Pow2Monotone(3, w);
    assert Pow2(3) == 8 && Bits.Gray(0) == 0;
    PushStep(w, zero, s, true);
    LooksFullExact(w, 4 - left, 0);
    xs := ThreeGoIn(w, zero, Step(w, zero, s, PushEdge(s, zero, true)), left - 1);
    UnresetCons(w, zero, s, PushEdge(s, zero, true), xs);
    xs := [PushEdge(s, zero, true)] + xs;
  }

  lemma SourceResetUnread(w: nat, r: nat, p: nat, k: nat)
    requires w >= 3 && Apart(w, r, p, k) && p != 0
    ensures 0 < r && r + k < Pow2(w) ==> Unread(w, r, 0, k + 1)
    ensures !(0 < r && r + k < Pow2(w)) ==> Room(w, 0, Bits.Gray(r), Depth(w) - k + 1)
  {
    Pow2Even(w);
    assert Bits.Gray(0) == 0;
    if 0 < r && r + k < Pow2(w) {
      forall i: nat | r <= i < r + k + 1
        ensures Bits.Gray(Wrap(i, Pow2(w))) != 0
      {
        GrayInjective(i, 0);
      }
    } else {
      forall i: nat | i < Depth(w) - k + 1
        ensures !LooksFull(w, Wrap(i, Pow2(w)), Bits.Gray(r))
      {
        LooksFullExact(w, i, r);
      }
    }
  }

  /** The state and history after an instant that resets the source, the destination having
      gone on as usual. */
  ghost predicate SourceWasReset<T>(w: nat, s: State<T>, g: View<T>, t: State<T>, n: View<T>) {
    && Sized(w, t) && SourceCleared(t)
    && t.readBinary == Pointer(|n.popped|, w) && t.readGray == GrayPointer(|n.popped|, w)
    && n.pushed == g.pushed && s.writeBinary == Pointer(|n.pushed|, w)
    && |n.popped| <= |n.pushed| <= |n.popped| + Depth(w)
  }

  lemma SourceResetState<T>(w: nat, zero: T, s: State<T>, g: View<T>, x: Event<T>)
    requires Inv(w, s, g) && SourceResets(x) && Catches(w, s, x, Step(w, zero, s, x))
    ensures SourceWasReset(w, s, g, Step(w, zero, s, x), After(w, s, g, x))
    ensures s.writeBinary == 0 ==> Core(w, Step(w, zero, s, x), After(w, s, g, x))
  {
    var t, a, d := Step(w, zero, s, x), Accepts(w, s, x), Delivers(w, s, x);
    InvSized(w, s, g);
    StepTicks(w, zero, s, x);
    StepSized(w, zero, s, x);
    TransfersHold(w, zero, s, g, x, t, a, d);
    var fills, fetches := MovesInCounts(w, zero, s, g, x, t, a, d);
    SourceResetMoves(w, zero, s, g, x, t, a, d, fills, fetches);
    if s.writeBinary == 0 {
      var _ := TickKeepsCore(w, zero, s, g, x, t, a, d);
    }
  }

  lemma SourceResetMoves<T>(w: nat, zero: T, s: State<T>, g: View<T>, x: Event<T>, t: State<T>, a: bool, d: bool,
                            fills: bool, fetches: bool)
    requires Inv(w, s, g) && SourceResets(x) && Sized(w, t) && Orderly(Depth(w), s, g, x, a, d)
    requires SourceMoves(w, s, x, t, Pointer(|g.pushed| + FromBool(a), w), a, fills)
    requires DestinationMoves(w, zero, s, x, t, Pointer(|g.popped| + FromBool(d), w), d, fetches)
    ensures SourceWasReset(w, s, g, t, NextView(s, g, x, a, d))
  {
  }

  lemma SourceResetSafe<T(!new)>(w: nat, zero: T, t: State<T>, n: View<T>, sr: bool)
    requires Core(w, t, n) && SourceCleared(t) && |InFlight(n)| + 3 <= Depth(w)
    ensures Safe(w, zero, t, InFlight(n), sr, true)
  {
    var r := |n.popped|;
    var m := n.(readsSeen1 := r, readsSeen2 := r, readsSeen3 := r);
    assert Settling(w, t, m, 0);
    assert InFlight(m) == InFlight(n);
    forall xs: seq<Event<T>> | Coordinated(xs, sr, true) && AllCaught(w, zero, t, xs)
      ensures QueueRuns(Depth(w), InFlight(n), Transfers(w, zero, t, xs))
    {
      SettlingRefines(w, zero, t, m, xs, 0, sr);
    }
  }

  lemma SourceResetUnsafe<T(!new)>(w: nat, zero: T, s: State<T>, g: View<T>, t: State<T>, n: View<T>)
    requires w >= 3 && SourceWasReset(w, s, g, t, n)
    requires s.writeBinary != 0 || |InFlight(n)| + 3 > Depth(w)
    ensures Damaged(w, zero, t, InFlight(n))
  {
    var r, p, k := t.readBinary, s.writeBinary, |InFlight(n)|;
    CountsApart(w, |n.popped|, |n.pushed|);
    assert Wrap(0, Pow2(w)) == 0;
    assert Wrap(r, Pow2(w)) == r;
    var xs;
    if p == 0 {
      xs := ThreeGoIn(w, zero, t, 3);
    } else {
      SourceResetUnread(w, r, p, k);
      if 0 < r && r + k < Pow2(w) {
        xs := WordsComeOut(w, zero, t, r, 2, k + 1);
      } else {
        xs := WordsGoIn(w, zero, t, 0, 3, Depth(w) - k + 1);
      }
    }
    assert Overruns(Depth(w), InFlight(n), Transfers(w, zero, t, xs));
  }

  /** After an edge that resets the source and not the destination the ports go on as those of
      the queue that holds the words then in flight exactly when the write pointer stood at zero
      and there is room for three more words, however long the reset is held: so many are
      accepted before a real read pointer is seen again.  Otherwise some run overruns it. */
  lemma {:induction false} LoneSourceReset<T(!new)>(w: nat, zero: T, s: State<T>, g: View<T>, x: Event<T>, held: bool)
    requires Inv(w, s, g) && SourceResets(x) && Catches(w, s, x, Step(w, zero, s, x))
    ensures |After(w, s, g, x).popped| <= |After(w, s, g, x).pushed|
    ensures Safe(w, zero, Step(w, zero, s, x), InFlight(After(w, s, g, x)), !held, true) <==>
      s.writeBinary == 0 && |InFlight(After(w, s, g, x))| + 3 <= Depth(w)
    ensures s.writeBinary != 0 || |InFlight(After(w, s, g, x))| + 3 > Depth(w) ==>
      Damaged(w, zero, Step(w, zero, s, x), InFlight(After(w, s, g, x)))
  {
    var t, n := Step(w, zero, s, x), After(w, s, g, x);
    SourceResetState(w, zero, s, g, x);
    if s.writeBinary == 0 && |InFlight(n)| + 3 <= Depth(w) {
      SourceResetSafe(w, zero, t, n, !held);
    } else {
      SourceResetUnsafe(w, zero, s, g, t, n);
      DamagedIsUnsafe(w, zero, t, InFlight(n), !held, true);
    }
  }

  // --------------------------------------- the damage seen at the ports

  /** An instant with a destination edge only, the pointer caught as it stands. */
  ghost predicate QuietEdge<T>(s: State<T>, x: Event<T>) {
    x.destinationEdge && !x.sourceEdge && !x.destinationReset && x.caughtWrite == s.writeGray
  }

  /** The destination has just been reset while the write pointer stands at `gray`, and
      has since had `edges` quiet edges (three at most). */
  ghost predicate Recovering<T>(s: State<T>, gray: nat, edges: nat) {
    s.readBinary == 0 && s.readGray == 0 && s.writeGray == gray &&
    s.writeGraySync1 == (if edges >= 1 then gray else 0) &&
    s.writeGraySync2 == (if edges >= 2 then gray else 0) && s.outputValid == (edges >= 3)
  }

  lemma QuietMoves<T>(w: nat, zero: T, s: State<T>, x: Event<T>, t: State<T>, a: bool, d: bool, gray: nat, edges: nat)
    requires Sized(w, s) && QuietEdge(s, x) && gray != 0 && Recovering(s, gray, edges)
    requires Ticks(w, zero, s, x, t, a, d)
    ensures !a && (d <==> s.outputValid && x.destinationReady)
    ensures edges < 3 ==> Recovering(t, gray, edges + 1)
    ensures t.writeBinary == s.writeBinary && t.readGraySync1 == s.readGraySync1 &&
            t.readGraySync2 == s.readGraySync2
  {
    assert Bits.Gray(0) == 0;
  }

  lemma QuietStep<T>(w: nat, zero: T, s: State<T>, x: Event<T>, gray: nat, edges: nat)
    requires Sized(w, s) && QuietEdge(s, x) && gray != 0 && Recovering(s, gray, edges)
    ensures !Accepts(w, s, x) && (Delivers(w, s, x) <==> s.outputValid && x.destinationReady)
    ensures edges < 3 ==> Recovering(Step(w, zero, s, x), gray, edges + 1) && Sized(w, Step(w, zero, s, x))
  {
    StepTicks(w, zero, s, x);
    QuietMoves(w, zero, s, x, Step(w, zero, s, x), Accepts(w, s, x), Delivers(w, s, x), gray, edges);
  }

  /** Quiet edges one after the other. */
  ghost predicate QuietRun<T>(w: nat, zero: T, s: State<T>, xs: seq<Event<T>>)
    requires w >= 3 && |s.cells| == Depth(w)
    decreases |xs|
  {
    xs == [] || (QuietEdge(s, xs[0]) && QuietRun(w, zero, Step(w, zero, s, xs[0]), xs[1..]))
  }

  /** A quiet run long enough to reach the output, ending with a ready destination,
      delivers a word although none is accepted. */
  lemma {:induction false} RecoveryDelivers<T>(w: nat, zero: T, s: State<T>, xs: seq<Event<T>>, gray: nat, edges: nat)
    requires Sized(w, s) && gray != 0 && edges <= 3 && Recovering(s, gray, edges)
    requires QuietRun(w, zero, s, xs) && |xs| == 4 - edges && xs[|xs| - 1].destinationReady
    ensures var ts := Transfers(w, zero, s, xs); Accepted(ts) == [] && |Delivered(ts)| == 1
    decreases |xs|
  {
    var x := xs[0];
    QuietStep(w, zero, s, x, gray, edges);
    TransfersUnfold(w, zero, s, xs);
    if edges < 3 {
      RecoveryDelivers(w, zero, Step(w, zero, s, x), xs[1..], gray, edges + 1);
    } else {
      assert Transfers(w, zero, Step(w, zero, s, x), []) == [];
    }
  }

  /** Why resets must be coordinated: when everything accepted has been delivered and the
      write pointer is not at zero, resetting the destination alone makes it deliver, on
      its fourth edge after the reset, a word that nobody sent. */
  lemma {:induction false} LoneResetDeliversPhantom<T>(w: nat, zero: T, s: State<T>, g: View<T>, x: Event<T>, xs: seq<Event<T>>)
    requires Inv(w, s, g) && g.pushed == g.popped && s.writeBinary != 0
    requires x.destinationEdge && x.destinationReset && !x.sourceEdge
    requires QuietRun(w, zero, Step(w, zero, s, x), xs) && |xs| == 4 && xs[3].destinationReady
    ensures var ts := Transfers(w, zero, Step(w, zero, s, x), xs);
      Accepted(ts) == [] && |Delivered(ts)| == 1
  {
    InvSized(w, s, g);
    StepTicks(w, zero, s, x);
    var t := Step(w, zero, s, x);
    ZeroPointer(|g.pushed|, w);
    RecoveryDelivers(w, zero, t, xs, s.writeGray, 0);
  }
}
