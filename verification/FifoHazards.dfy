/** Runs that drive one domain alone, whatever the state they start in. */
module FifoHazards {
  import opened Bits
  import opened FifoLogic
  import opened Controller
  import opened Modular
  import opened AsyncFifo
  import opened FifoRuns

  /** A source edge on its own, or a destination edge on its own, outside reset, with the
      pointers caught as they stand. */
  function PushEdge<T>(s: State<T>, payload: T, valid: bool): Event<T> {
    Event(true, false, false, false, valid, payload, false, s.writeGray, s.readGray)
  }

  function PullEdge<T>(s: State<T>, payload: T, ready: bool): Event<T> {
    Event(false, true, false, false, false, payload, ready, s.writeGray, s.readGray)
  }

  /** A run without resets in which every synchroniser sample is a possible one. */
  ghost predicate Unreset<T>(w: nat, zero: T, s: State<T>, xs: seq<Event<T>>)
    requires w >= 3 && |s.cells| == Depth(w)
  {
    Coordinated(xs, true, true) && AllCaught(w, zero, s, xs)
  }

  /** The full test against a read pointer with the given Gray code. */
  predicate LooksFull(w: nat, written: nat, readGray: nat)
    requires w >= 2
  {
    Bits.Gray(written) == Bits.Xor(readGray, 3 * Pow2(w - 2))
  }

  /** On pointers in range the test holds exactly half a range apart. */
  lemma LooksFullExact(w: nat, written: nat, read: nat)
    requires w >= 3 && written < Pow2(w) && read < Pow2(w)
    ensures LooksFull(w, written, Bits.Gray(read)) <==> written == read + Depth(w) || read == written + Depth(w)
  {
    GrayHalfTurn(written, read, w);
  }

  lemma UnresetCons<T>(w: nat, zero: T, s: State<T>, x: Event<T>, xs: seq<Event<T>>)
    requires Sized(w, s) && !x.sourceReset && !x.destinationReset && Catches(w, s, x, Step(w, zero, s, x))
    requires Unreset(w, zero, Step(w, zero, s, x), xs)
    ensures Unreset(w, zero, s, [x] + xs)
    ensures Transfers(w, zero, s, [x] + xs) ==
      [Observe(s, x, Accepts(w, s, x), Delivers(w, s, x))] + Transfers(w, zero, Step(w, zero, s, x), xs)
  {
    assert ([x] + xs)[1..] == xs;
  }

  // ------------------------------------------------------ the source alone

  ghost predicate AfterPush<T>(w: nat, s: State<T>, t: State<T>, pushes: bool)
    requires w >= 3
  {
    && t.writeBinary == Advance(s.writeBinary, pushes, Pow2(w))
    && t.readGray == s.readGray && t.readGraySync1 == s.readGray && t.readGraySync2 == s.readGraySync1
    && (t.full <==> LooksFull(w, t.writeBinary, s.readGraySync2))
  }

  lemma PushTicks<T>(w: nat, zero: T, s: State<T>, x: Event<T>, t: State<T>, a: bool, d: bool)
    requires Sized(w, s) && Ticks(w, zero, s, x, t, a, d) && x == PushEdge(s, x.payload, x.sourceValid)
    ensures !d && (a <==> x.sourceValid && !s.full) && AfterPush(w, s, t, a) && Catches(w, s, x, t)
  {
  }

  lemma PushStep<T>(w: nat, zero: T, s: State<T>, valid: bool)
    requires Sized(w, s)
    ensures var x := PushEdge(s, zero, valid); var t := Step(w, zero, s, x);
      && Sized(w, t) && AfterPush(w, s, t, valid && !s.full) && Catches(w, s, x, t)
      && !Delivers(w, s, x) && (Accepts(w, s, x) <==> valid && !s.full)
  {
    var x := PushEdge(s, zero, valid);
    var t := Step(w, zero, s, x);
    StepTicks(w, zero, s, x);
    PushTicks(w, zero, s, x, t, Accepts(w, s, x), Delivers(w, s, x));
    StepSized(w, zero, s, x);
  }

  /** After all but `left` of three edges of its clock, how far the source has caught up with
      the read pointer, which stands still. */
  ghost predicate SourceCatchesUp<T>(w: nat, s: State<T>, left: nat)
    requires w >= 2
  {
    && (left <= 2 ==> s.readGraySync1 == s.readGray) && (left <= 1 ==> s.readGraySync2 == s.readGray)
    && (left == 0 ==> (s.full <==> LooksFull(w, s.writeBinary, s.readGray)))
  }

  /** None of `n` pointers from `v` on looks full. */
  ghost predicate Room(w: nat, v: nat, readGray: nat, n: nat)
    requires w >= 2
  {
    forall k: nat | v <= k < v + n :: !LooksFull(w, Wrap(k, Pow2(w)), readGray)
  }

  /** Once the source has caught up, it has words accepted for as long as its pointer does
      not look full. */
  lemma {:induction false} WordsGoIn<T>(w: nat, zero: T, s: State<T>, v: nat, left: nat, n: nat)
    returns (xs: seq<Event<T>>)
    requires Sized(w, s) && left <= 3 && SourceCatchesUp(w, s, left)
    requires s.writeBinary == Wrap(v, Pow2(w)) && Room(w, v, s.readGray, n)
    ensures Unreset(w, zero, s, xs)
    ensures var ts := Transfers(w, zero, s, xs); |Accepted(ts)| == n && Delivered(ts) == []
    decreases left + n
  {
    if left == 0 && n == 0 {
      return [];
    }
    var valid := left == 0;
    var x := PushEdge(s, zero, valid);
    var t := Step(w, zero, s, x);
    PushStep(w, zero, s, valid);
    WrapStep(v, Pow2(w), FromBool(valid));
    if left > 0 {
      xs := WordsGoIn(w, zero, t, v, left - 1, n);
    } else {
      xs := WordsGoIn(w, zero, t, v + 1, 0, n - 1);
    }
    UnresetCons(w, zero, s, x, xs);
    xs := [x] + xs;
  }

  // ------------------------------------------------- the destination alone

  ghost predicate AfterPull<T>(w: nat, s: State<T>, t: State<T>, pops: bool)
    requires w >= 3
  {
    && t.readBinary == Advance(s.readBinary, pops, Pow2(w)) && t.readGray == Bits.Gray(t.readBinary)
    && t.writeGray == s.writeGray && t.writeGraySync1 == s.writeGray && t.writeGraySync2 == s.writeGraySync1
    && (!s.outputValid && s.readGray != s.writeGraySync2 ==> t.outputValid)
  }

  lemma PullTicks<T>(w: nat, zero: T, s: State<T>, x: Event<T>, t: State<T>, a: bool, d: bool)
    requires Sized(w, s) && Ticks(w, zero, s, x, t, a, d) && x == PullEdge(s, x.payload, x.destinationReady)
    ensures !a && (d <==> x.destinationReady && s.outputValid) && AfterPull(w, s, t, d) && Catches(w, s, x, t)
  {
  }

  lemma PullStep<T>(w: nat, zero: T, s: State<T>, ready: bool)
    requires Sized(w, s)
    ensures var x := PullEdge(s, zero, ready); var t := Step(w, zero, s, x);
      && Sized(w, t) && AfterPull(w, s, t, ready && s.outputValid) && Catches(w, s, x, t)
      && !Accepts(w, s, x) && (Delivers(w, s, x) <==> ready && s.outputValid)
  {
    var x := PullEdge(s, zero, ready);
    var t := Step(w, zero, s, x);
    StepTicks(w, zero, s, x);
    PullTicks(w, zero, s, x, t, Accepts(w, s, x), Delivers(w, s, x));
    StepSized(w, zero, s, x);
  }

  ghost predicate DestinationCatchesUp<T>(s: State<T>, left: nat) {
    && (left <= 1 ==> s.readGray == Bits.Gray(s.readBinary) && s.writeGraySync1 == s.writeGray) && (left == 0 ==> s.writeGraySync2 == s.writeGray)
  }

  /** None of `n` pointers from `r` on has the given Gray code. */
  ghost predicate Unread(w: nat, r: nat, writeGray: nat, n: nat) {
    forall k: nat | r <= k < r + n :: Bits.Gray(Wrap(k, Pow2(w))) != writeGray
  }

  /** The destination stands at `r`, with `left` edges to go until it has caught up, and `n`
      words may still come out. */
  ghost predicate Pulling<T>(w: nat, s: State<T>, r: nat, left: nat, n: nat) {
    Sized(w, s) && left <= 2 && DestinationCatchesUp(s, left)
    && s.readBinary == Wrap(r, Pow2(w)) && Unread(w, r, s.writeGray, n)
  }

  lemma PullOn<T>(w: nat, zero: T, s: State<T>, r: nat, left: nat, n: nat)
    requires Pulling(w, s, r, left, n) && (left > 0 || n > 0)
    ensures var ready := left == 0 && s.outputValid;
      var x := PullEdge(s, zero, ready);
      var t := Step(w, zero, s, x);
      && Pulling(w, t, if ready then r + 1 else r, if left > 0 then left - 1 else 0, if ready then n - 1 else n)
      && (left == 0 && !ready ==> t.outputValid)
      && Catches(w, s, x, t) && !Accepts(w, s, x) && (Delivers(w, s, x) <==> ready)
  {
    var ready := left == 0 && s.outputValid;
    PullStep(w, zero, s, ready);
    WrapStep(r, Pow2(w), FromBool(ready));
  }

  /** Once the destination has caught up with the write pointer, it delivers words until its
      pointer reaches it, whether or not they were ever sent. */
  lemma {:induction false} WordsComeOut<T>(w: nat, zero: T, s: State<T>, r: nat, left: nat, n: nat)
    returns (xs: seq<Event<T>>)
    requires Pulling(w, s, r, left, n)
    ensures Unreset(w, zero, s, xs)
    ensures var ts := Transfers(w, zero, s, xs); |Delivered(ts)| == n && Accepted(ts) == []
    decreases n, left, FromBool(!s.outputValid)
  {
    if left == 0 && n == 0 {
      return [];
    }
    var ready := left == 0 && s.outputValid;
    var x := PullEdge(s, zero, ready);
    PullOn(w, zero, s, r, left, n);
    xs := WordsComeOut(w, zero, Step(w, zero, s, x),
      if ready then r + 1 else r, if left > 0 then left - 1 else 0, if ready then n - 1 else n);
    UnresetCons(w, zero, s, x, xs);
    xs := [x] + xs;
  }

  // ------------------------------------------------- when a run is no queue

  /** A queue never delivers more than it holds, nor holds more than its depth. */
  lemma {:induction false} QueueBounds<T>(depth: nat, queue: seq<T>, ts: seq<Transfer<T>>)
    requires QueueRuns(depth, queue, ts) && |queue| <= depth
    ensures |Delivered(ts)| <= |queue| + |Accepted(ts)| <= depth + |Delivered(ts)|
    decreases |ts|
  {
    if ts != [] {
      QueueBounds(depth, QueueAfter(queue, ts[0]), ts[1..]);
    }
  }
}
