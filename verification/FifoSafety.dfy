/** The crossing refines a bounded queue, with torn pointer samples included. */
module FifoSafety {
  import opened Bits
  import opened FifoLogic
  import opened Controller
  import opened Modular
  import opened AsyncFifo

  /** The history since the last joint reset: the words accepted, the words
      delivered, and how many writes or reads each synchroniser stage stands for.
      `readsSeen3` is the read count the registered full flag was computed from. */
  datatype View<T> = View(
    pushed: seq<T>, popped: seq<T>,
    writesSeen1: nat, writesSeen2: nat, readsSeen1: nat, readsSeen2: nat, readsSeen3: nat)

  function EmptyView<T>(): View<T> {
    View([], [], 0, 0, 0, 0, 0)
  }

  /** A count as a pointer of `w` bits, and its Gray code. */
  function Pointer(count: nat, w: nat): nat {
    Wrap(count, Pow2(w))
  }

  function GrayPointer(count: nat, w: nat): nat {
    Bits.Gray(Pointer(count, w))
  }

  /** Stale counts only ever lag, and the spread from the oldest read count the
      source knows of to the newest write never exceeds the depth. */
  ghost predicate Lags<T>(depth: nat, g: View<T>) {
    g.readsSeen3 <= g.readsSeen2 <= g.readsSeen1 <= |g.popped| <= g.writesSeen2
      <= g.writesSeen1 <= |g.pushed| <= g.readsSeen3 + depth
  }

  ghost predicate WritesTrack<T>(w: nat, s: State<T>, g: View<T>) {
    s.writeBinary == Pointer(|g.pushed|, w) && s.writeGray == GrayPointer(|g.pushed|, w)
  }

  /** What the source knows of the reads: its synchroniser and the full flag. */
  ghost predicate ReadsTrack<T>(w: nat, s: State<T>, g: View<T>)
    requires w >= 3
  {
    && s.readGraySync1 == GrayPointer(g.readsSeen1, w) && s.readGraySync2 == GrayPointer(g.readsSeen2, w)
    && (s.full <==> |g.pushed| == g.readsSeen3 + Depth(w))
  }

  ghost predicate DestinationTracks<T>(w: nat, s: State<T>, g: View<T>) {
    && s.readBinary == Pointer(|g.popped|, w) && s.readGray == GrayPointer(|g.popped|, w)
    && s.writeGraySync1 == GrayPointer(g.writesSeen1, w) && s.writeGraySync2 == GrayPointer(g.writesSeen2, w)
  }

  /** Every word not yet delivered is where the read pointer will look for it. */
  ghost predicate CellsHold<T>(depth: nat, cells: seq<T>, g: View<T>)
    requires depth > 0
  {
    |cells| == depth &&
    forall i: nat | |g.popped| <= i < |g.pushed| :: cells[Wrap(i, depth)] == g.pushed[i]
  }

  /** The output slot holds the oldest undelivered word, one the destination knows of. */
  ghost predicate SlotHolds<T>(s: State<T>, g: View<T>) {
    s.outputValid ==> |g.popped| < g.writesSeen2 <= |g.pushed| && s.readData == g.pushed[|g.popped|]
  }

  /** All of the invariant but what the source knows of the reads. */
  ghost predicate Core<T>(w: nat, s: State<T>, g: View<T>) {
    w >= 3 && Lags(Depth(w), g) && WritesTrack(w, s, g) && DestinationTracks(w, s, g) &&
    CellsHold(Depth(w), s.cells, g) && SlotHolds(s, g) && g.popped <= g.pushed
  }

  ghost predicate Inv<T>(w: nat, s: State<T>, g: View<T>) {
    Core(w, s, g) && ReadsTrack(w, s, g)
  }

  lemma PointerInRange(count: nat, w: nat)
    ensures Pointer(count, w) < Pow2(w) && GrayPointer(count, w) < Pow2(w)
  {
    GrayBound(Pointer(count, w), w);
  }

  lemma InvSized<T>(w: nat, s: State<T>, g: View<T>)
    requires Inv(w, s, g)
    ensures Sized(w, s)
  {
    PointerInRange(|g.pushed|, w);
    PointerInRange(|g.popped|, w);
    PointerInRange(g.readsSeen1, w);
    PointerInRange(g.readsSeen2, w);
    PointerInRange(g.writesSeen1, w);
    PointerInRange(g.writesSeen2, w);
  }

  // --------------------------------------------------------------- pointers

  /** Gray pointers within one turn of each other are equal only for equal counts. */
  lemma GrayPointerInjective(a: nat, b: nat, w: nat)
    requires a <= b < a + Pow2(w)
    ensures GrayPointer(a, w) == GrayPointer(b, w) <==> a == b
  {
    GrayInjective(Pointer(a, w), Pointer(b, w));
    WrapInjective(a, b, Pow2(w));
  }

  /** The full test on Gray codes holds exactly when the counts are a depth apart. */
  lemma FullTestExact(read: nat, written: nat, w: nat)
    requires w >= 3 && read <= written <= read + Depth(w)
    ensures GrayPointer(written, w) == Bits.Xor(GrayPointer(read, w), 3 * Pow2(w - 2)) <==>
            written == read + Depth(w)
  {
    Pow2Even(w);
    GrayHalfTurn(Pointer(written, w), Pointer(read, w), w);
    WrapDistance(read, written, Pow2(w));
  }

  /** A pointer caught while it moves by at most one is one it really had. */
  lemma CaughtPointer(x: nat, count: nat, moved: bool, w: nat)
    requires w >= 1
    requires Torn(x, GrayPointer(count, w), GrayPointer(count + FromBool(moved), w), w)
    ensures x == GrayPointer(count, w) || x == GrayPointer(count + FromBool(moved), w)
  {
    var next := count + FromBool(moved);
    PointerInRange(count, w);
    PointerInRange(next, w);
    if moved {
      GrayNeighbours(Pointer(count, w), w);
      WrapDistance(count, next, Pow2(w));
    } else {
      DistanceToSelf(GrayPointer(count, w));
    }
    TornSample(x, GrayPointer(count, w), GrayPointer(next, w), w);
  }

  lemma PointerAdvances(count: nat, step: bool, w: nat)
    ensures Advance(Pointer(count, w), step, Pow2(w)) == Pointer(count + FromBool(step), w)
  {
    WrapStep(count, Pow2(w), FromBool(step));
  }

  // --------------------------------------------------------- the next view

  /** How an instant extends the history. */
  function NextView<T>(s: State<T>, g: View<T>, x: Event<T>, accepts: bool, delivers: bool): View<T> {
    var pushed := if accepts then g.pushed + [x.payload] else g.pushed;
    var popped := if delivers then g.popped + [s.readData] else g.popped;
    View(pushed, popped,
      if !x.destinationEdge then g.writesSeen1 else if x.destinationReset then |g.popped|
        else if x.caughtWrite == s.writeGray then |g.pushed| else |pushed|,
      if !x.destinationEdge then g.writesSeen2 else if x.destinationReset then |g.popped| else g.writesSeen1,
      if !x.sourceEdge then g.readsSeen1 else if x.sourceReset then |g.popped|
        else if x.caughtRead == s.readGray then |g.popped| else |popped|,
      if !x.sourceEdge then g.readsSeen2 else if x.sourceReset then |g.popped| else g.readsSeen1,
      if !x.sourceEdge then g.readsSeen3 else if x.sourceReset then |g.popped| else g.readsSeen2)
  }

  function After<T>(w: nat, s: State<T>, g: View<T>, x: Event<T>): View<T>
    requires w >= 3
  {
    NextView(s, g, x, Accepts(w, s, x), Delivers(w, s, x))
  }

  /** A reset edge at this instant finds its own domain's pointer at zero. */
  ghost predicate PointersAtZero<T>(w: nat, g: View<T>, x: Event<T>) {
    (x.sourceEdge && x.sourceReset ==> Pointer(|g.pushed|, w) == 0) &&
    (x.destinationEdge && x.destinationReset ==> Pointer(|g.popped|, w) == 0)
  }

  /** On the source side it finds nothing in flight either.  This covers domains held in reset
      or released one after the other after a joint reset. */
  ghost predicate Harmless<T>(w: nat, g: View<T>, x: Event<T>) {
    PointersAtZero(w, g, x) && (x.sourceEdge && x.sourceReset ==> |g.pushed| == |g.popped|)
  }

  // ------------------------------------------------------ one instant keeps Inv

  /** A transfer takes place only on an unreset edge of its own clock, a word is
      accepted only into a free cell, and the word delivered is the oldest one. */
  ghost predicate Orderly<T>(depth: nat, s: State<T>, g: View<T>, x: Event<T>, accepts: bool, delivers: bool) {
    && (accepts ==> x.sourceEdge && !x.sourceReset && |g.pushed| < g.readsSeen3 + depth)
    && (delivers ==> x.destinationEdge && !x.destinationReset)
    && (delivers ==> |g.popped| < g.writesSeen2 <= |g.pushed| && s.readData == g.pushed[|g.popped|])
  }

  /** Each first synchroniser stage catches a pointer the other side had just before
      or has just after this instant. */
  ghost predicate Caught<T>(w: nat, s: State<T>, g: View<T>, x: Event<T>, accepts: bool, delivers: bool) {
    && (x.caughtWrite == s.writeGray || x.caughtWrite == GrayPointer(|g.pushed| + FromBool(accepts), w))
    && (x.caughtRead == s.readGray || x.caughtRead == GrayPointer(|g.popped| + FromBool(delivers), w))
  }

  lemma LagsKept<T>(w: nat, s: State<T>, g: View<T>, x: Event<T>, accepts: bool, delivers: bool)
    requires w >= 3 && Lags(Depth(w), g) && g.popped <= g.pushed
    requires Orderly(Depth(w), s, g, x, accepts, delivers) && PointersAtZero(w, g, x)
    ensures var n := NextView(s, g, x, accepts, delivers);
      Lags(Depth(w), n) && n.popped <= n.pushed
  {
  }

  lemma WritesKept<T>(w: nat, s: State<T>, g: View<T>, x: Event<T>, accepts: bool, delivers: bool,
                      t: State<T>, fills: bool)
    requires w >= 3 && |s.cells| == Depth(w) && WritesTrack(w, s, g) && PointersAtZero(w, g, x)
    requires Orderly(Depth(w), s, g, x, accepts, delivers)
    requires SourceMoves(w, s, x, t, Pointer(|g.pushed| + FromBool(accepts), w), accepts, fills)
    ensures WritesTrack(w, t, NextView(s, g, x, accepts, delivers))
  {
    assert Bits.Gray(0) == 0;
  }

  lemma ReadsKept<T>(w: nat, s: State<T>, g: View<T>, x: Event<T>, accepts: bool, delivers: bool,
                     t: State<T>, fills: bool)
    requires w >= 3 && |s.cells| == Depth(w) && Lags(Depth(w), g) && ReadsTrack(w, s, g)
    requires s.readGray == GrayPointer(|g.popped|, w) && Harmless(w, g, x)
    requires Orderly(Depth(w), s, g, x, accepts, delivers) && Caught(w, s, g, x, accepts, delivers)
    requires SourceMoves(w, s, x, t, Pointer(|g.pushed| + FromBool(accepts), w), accepts, fills)
    requires fills <==> |g.pushed| + FromBool(accepts) == g.readsSeen2 + Depth(w)
    ensures ReadsTrack(w, t, NextView(s, g, x, accepts, delivers))
  {
    if x.sourceEdge && !x.sourceReset {
      ReadsShift(w, s, g, x, accepts, delivers, t);
    } else {
      assert Bits.Gray(0) == 0;
    }
  }

  /** The synchroniser and the full flag after an edge outside reset. */
  lemma ReadsShift<T>(w: nat, s: State<T>, g: View<T>, x: Event<T>, accepts: bool, delivers: bool, t: State<T>)
    requires w >= 3 && ReadsTrack(w, s, g) && x.sourceEdge && !x.sourceReset
    requires s.readGray == GrayPointer(|g.popped|, w) && Caught(w, s, g, x, accepts, delivers)
    requires t.readGraySync1 == x.caughtRead && t.readGraySync2 == s.readGraySync1
    requires t.full <==> |g.pushed| + FromBool(accepts) == g.readsSeen2 + Depth(w)
    ensures ReadsTrack(w, t, NextView(s, g, x, accepts, delivers))
  {
  }

  lemma DestinationKept<T>(w: nat, zero: T, s: State<T>, g: View<T>, x: Event<T>, accepts: bool, delivers: bool,
                           t: State<T>, fetches: bool)
    requires w >= 3 && |s.cells| == Depth(w) && Lags(Depth(w), g) && DestinationTracks(w, s, g)
    requires s.writeGray == GrayPointer(|g.pushed|, w) && PointersAtZero(w, g, x)
    requires Orderly(Depth(w), s, g, x, accepts, delivers) && Caught(w, s, g, x, accepts, delivers)
    requires DestinationMoves(w, zero, s, x, t, Pointer(|g.popped| + FromBool(delivers), w), delivers, fetches)
    ensures DestinationTracks(w, t, NextView(s, g, x, accepts, delivers))
  {
  }

  lemma CellsKept<T>(w: nat, s: State<T>, g: View<T>, x: Event<T>, accepts: bool, delivers: bool,
                     t: State<T>, fills: bool)
    requires w >= 3 && Lags(Depth(w), g) && WritesTrack(w, s, g) && CellsHold(Depth(w), s.cells, g)
    requires Orderly(Depth(w), s, g, x, accepts, delivers)
    requires SourceMoves(w, s, x, t, Pointer(|g.pushed| + FromBool(accepts), w), accepts, fills)
    ensures CellsHold(Depth(w), t.cells, NextView(s, g, x, accepts, delivers))
  {
    var d, p := Depth(w), |g.pushed|;
    Pow2Even(w);
    WrapHalf(p, d);
    if accepts {
      forall i: nat | |g.popped| <= i < p
        ensures Wrap(i, d) != Wrap(p, d)
      {
        WrapInjective(i, p, d);
      }
    }
  }

  /** A fetch reads a cell that has been written, is known to have been written, and
      is not the one an accepted word goes to at this very instant. */
  ghost predicate FetchSafe<T>(w: nat, s: State<T>, g: View<T>, k: nat, accepts: bool)
    requires w >= 3 && |s.cells| == Depth(w)
  {
    var a := Wrap(Pointer(k, w), Depth(w));
    k < g.writesSeen2 <= |g.pushed| && s.cells[a] == g.pushed[k] &&
    (accepts ==> Wrap(s.writeBinary, Depth(w)) != a)
  }

  lemma FetchIsSafe<T>(w: nat, s: State<T>, g: View<T>, x: Event<T>, accepts: bool, delivers: bool)
    requires w >= 3 && Lags(Depth(w), g) && WritesTrack(w, s, g) && DestinationTracks(w, s, g)
    requires CellsHold(Depth(w), s.cells, g) && Orderly(Depth(w), s, g, x, accepts, delivers)
    requires GrayPointer(|g.popped| + FromBool(delivers), w) != s.writeGraySync2
    ensures FetchSafe(w, s, g, |g.popped| + FromBool(delivers), accepts)
  {
    var d, k := Depth(w), |g.popped| + FromBool(delivers);
    Pow2Even(w);
    GrayPointerInjective(k, g.writesSeen2, w);
    WrapHalf(k, d);
    WrapHalf(|g.pushed|, d);
    if accepts {
      WrapInjective(k, |g.pushed|, d);
    }
  }

  lemma SlotKept<T>(w: nat, zero: T, s: State<T>, g: View<T>, x: Event<T>, accepts: bool, delivers: bool,
                    t: State<T>, fetches: bool)
    requires w >= 3 && |s.cells| == Depth(w) && Lags(Depth(w), g) && SlotHolds(s, g) && g.popped <= g.pushed
    requires Orderly(Depth(w), s, g, x, accepts, delivers)
    requires DestinationMoves(w, zero, s, x, t, Pointer(|g.popped| + FromBool(delivers), w), delivers, fetches)
    requires fetches && x.destinationEdge ==> FetchSafe(w, s, g, |g.popped| + FromBool(delivers), accepts)
    ensures SlotHolds(t, NextView(s, g, x, accepts, delivers))
  {
  }

  lemma TransfersHold<T>(w: nat, zero: T, s: State<T>, g: View<T>, x: Event<T>, t: State<T>, a: bool, d: bool)
    requires Inv(w, s, g) && Ticks(w, zero, s, x, t, a, d)
    ensures Orderly(Depth(w), s, g, x, a, d)
  {
  }

  /** The moves of an instant with pointers written as counts. */
  lemma MovesInCounts<T>(w: nat, zero: T, s: State<T>, g: View<T>, x: Event<T>, t: State<T>, a: bool, d: bool)
    returns (fills: bool, fetches: bool)
    requires Core(w, s, g) && Ticks(w, zero, s, x, t, a, d)
    ensures SourceMoves(w, s, x, t, Pointer(|g.pushed| + FromBool(a), w), a, fills)
    ensures DestinationMoves(w, zero, s, x, t, Pointer(|g.popped| + FromBool(d), w), d, fetches)
    ensures x.sourceEdge && !x.sourceReset ==>
      (fills <==> GrayPointer(|g.pushed| + FromBool(a), w) == Bits.Xor(s.readGraySync2, 3 * Pow2(w - 2)))
    ensures fetches ==> x.destinationEdge && GrayPointer(|g.popped| + FromBool(d), w) != s.writeGraySync2
    ensures fetches <==> x.destinationEdge && SampleOf(s, x).Fetches(w)
  {
    PointerAdvances(|g.pushed|, SampleOf(s, x).Pushes(), w);
    PointerAdvances(|g.popped|, SampleOf(s, x).Pops(), w);
    fills := GrayPointer(|g.pushed| + FromBool(a), w) == Bits.Xor(s.readGraySync2, 3 * Pow2(w - 2));
    fetches := x.destinationEdge && SampleOf(s, x).Fetches(w);
  }

  /** Torn samples included, the synchronisers only ever catch real pointers. */
  lemma CaughtHolds<T>(w: nat, zero: T, s: State<T>, g: View<T>, x: Event<T>, t: State<T>, a: bool, d: bool,
                       fills: bool, fetches: bool)
    requires Core(w, s, g) && PointersAtZero(w, g, x) && Catches(w, s, x, t) && Orderly(Depth(w), s, g, x, a, d)
    requires SourceMoves(w, s, x, t, Pointer(|g.pushed| + FromBool(a), w), a, fills)
    requires DestinationMoves(w, zero, s, x, t, Pointer(|g.popped| + FromBool(d), w), d, fetches)
    ensures Caught(w, s, g, x, a, d)
  {
    assert Bits.Gray(0) == 0;
    assert t.writeGray == GrayPointer(|g.pushed| + FromBool(a), w);
    assert t.readGray == GrayPointer(|g.popped| + FromBool(d), w);
    CaughtPointer(x.caughtWrite, |g.pushed|, a, w);
    CaughtPointer(x.caughtRead, |g.popped|, d, w);
  }

  /** Every instant with orderly transfers keeps the core of the invariant, and every
      fetch is safe. */
  lemma TickKeepsCore<T>(w: nat, zero: T, s: State<T>, g: View<T>, x: Event<T>, t: State<T>, a: bool, d: bool)
    returns (fills: bool)
    requires Core(w, s, g) && Ticks(w, zero, s, x, t, a, d) && Orderly(Depth(w), s, g, x, a, d)
    requires PointersAtZero(w, g, x) && Catches(w, s, x, t)
    ensures Core(w, t, NextView(s, g, x, a, d)) && Caught(w, s, g, x, a, d)
    ensures SourceMoves(w, s, x, t, Pointer(|g.pushed| + FromBool(a), w), a, fills)
    ensures x.sourceEdge && !x.sourceReset ==>
      (fills <==> GrayPointer(|g.pushed| + FromBool(a), w) == Bits.Xor(s.readGraySync2, 3 * Pow2(w - 2)))
    ensures x.destinationEdge && SampleOf(s, x).Fetches(w) ==>
            FetchSafe(w, s, g, |g.popped| + FromBool(d), a)
  {
    var fetches;
    fills, fetches := MovesInCounts(w, zero, s, g, x, t, a, d);
    CaughtHolds(w, zero, s, g, x, t, a, d, fills, fetches);
    LagsKept(w, s, g, x, a, d);
    WritesKept(w, s, g, x, a, d, t, fills);
    DestinationKept(w, zero, s, g, x, a, d, t, fetches);
    CellsKept(w, s, g, x, a, d, t, fills);
    if fetches {
      FetchIsSafe(w, s, g, x, a, d);
    }
    SlotKept(w, zero, s, g, x, a, d, t, fetches);
  }

  /** Every instant of the crossing keeps the invariant, and every fetch is safe. */
  lemma TickKeepsInv<T>(w: nat, zero: T, s: State<T>, g: View<T>, x: Event<T>, t: State<T>, a: bool, d: bool)
    requires Inv(w, s, g) && Ticks(w, zero, s, x, t, a, d)
    requires Harmless(w, g, x) && Catches(w, s, x, t)
    ensures Inv(w, t, NextView(s, g, x, a, d)) && Orderly(Depth(w), s, g, x, a, d)
    ensures x.destinationEdge && SampleOf(s, x).Fetches(w) ==>
            FetchSafe(w, s, g, |g.popped| + FromBool(d), a)
  {
    TransfersHold(w, zero, s, g, x, t, a, d);
    var fills := TickKeepsCore(w, zero, s, g, x, t, a, d);
    FullFromReads(w, s, g, x, t, a, d, fills);
  }

  lemma FullFromReads<T>(w: nat, s: State<T>, g: View<T>, x: Event<T>, t: State<T>, a: bool, d: bool, fills: bool)
    requires Inv(w, s, g) && Orderly(Depth(w), s, g, x, a, d) && Harmless(w, g, x) && Caught(w, s, g, x, a, d)
    requires SourceMoves(w, s, x, t, Pointer(|g.pushed| + FromBool(a), w), a, fills)
    requires x.sourceEdge && !x.sourceReset ==>
      (fills <==> GrayPointer(|g.pushed| + FromBool(a), w) == Bits.Xor(s.readGraySync2, 3 * Pow2(w - 2)))
    ensures ReadsTrack(w, t, NextView(s, g, x, a, d))
  {
    FullTestExact(g.readsSeen2, |g.pushed| + FromBool(a), w);
    ReadsKept(w, s, g, x, a, d, t, |g.pushed| + FromBool(a) == g.readsSeen2 + Depth(w));
  }
}
