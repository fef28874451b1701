/** The FIFO crossing as two clock domains stepping at arbitrary edges. */
module AsyncFifo {
  import opened Bits
  import opened FifoLogic
  import opened Controller
  import opened Modular

  /** The registers of both domains, the memory cells, and the registered read. */
  datatype State<T> = State(
    writeBinary: nat, writeGray: nat, readGraySync1: nat, readGraySync2: nat, full: bool,
    readBinary: nat, readGray: nat, writeGraySync1: nat, writeGraySync2: nat, outputValid: bool,
    cells: seq<T>, readData: T)

  /** One instant: which clocks have an edge, the levels at the ports, and what the
      first synchroniser stages catch of the pointer of the other domain. */
  datatype Event<T> = Event(
    sourceEdge: bool, destinationEdge: bool, sourceReset: bool, destinationReset: bool,
    sourceValid: bool, payload: T, destinationReady: bool, caughtWrite: nat, caughtRead: nat)

  function Depth(w: nat): nat
    requires w >= 3
  {
    Pow2(w - 1)
  }

  /** Every register holds a value of its declared width. */
  ghost predicate Sized<T>(w: nat, s: State<T>) {
    w >= 3 && |s.cells| == Depth(w) &&
    var n := Pow2(w);
    s.writeBinary < n && s.writeGray < n && s.readGraySync1 < n && s.readGraySync2 < n &&
    s.readBinary < n && s.readGray < n && s.writeGraySync1 < n && s.writeGraySync2 < n
  }

  ghost predicate SizedEvent<T>(w: nat, x: Event<T>) {
    x.caughtWrite < Pow2(w) && x.caughtRead < Pow2(w)
  }

  function SampleOf<T>(s: State<T>, x: Event<T>): Sample {
    Sample(x.sourceValid, x.destinationReady, x.sourceReset, x.destinationReset,
      s.writeBinary, s.writeGray, s.readGraySync2, s.full,
      s.readBinary, s.readGray, s.writeGraySync2, s.outputValid)
  }

  /** The source domain's registers and the memory after an edge of its clock.
      Everything on the right-hand sides is sampled before the edge, from `s`. */
  function SourceTick<T>(w: nat, s: State<T>, x: Event<T>, v: map<Signal, nat>, t: State<T>): State<T>
    requires w >= 3 && |s.cells| == Depth(w) && OUTPUTS <= v.Keys
  {
    if x.sourceReset then
      t.(writeBinary := 0, writeGray := 0, readGraySync1 := 0, readGraySync2 := 0, full := false)
    else
      t.(readGraySync1 := x.caughtRead, readGraySync2 := s.readGraySync1,
         writeBinary := v[WriteBinaryNext], writeGray := v[WriteGrayNext],
         full := v[FullNext] != 0,
         cells := if v[Push] != 0 then s.cells[Wrap(s.writeBinary, Depth(w)) := x.payload] else s.cells)
  }

  /** The destination domain's registers after an edge of its clock; the memory is
      read as it was before the edge. */
  function DestinationTick<T>(w: nat, zero: T, s: State<T>, x: Event<T>, v: map<Signal, nat>, t: State<T>): State<T>
    requires w >= 3 && |s.cells| == Depth(w) && OUTPUTS <= v.Keys
  {
    if x.destinationReset then
      t.(readBinary := 0, readGray := 0, writeGraySync1 := 0, writeGraySync2 := 0,
         outputValid := false, readData := zero)
    else
      t.(writeGraySync1 := x.caughtWrite, writeGraySync2 := s.writeGraySync1,
         readBinary := v[ReadBinaryNext], readGray := v[ReadGrayNext],
         outputValid := if v[Prefetch] != 0 then true else if v[Pop] != 0 then false else s.outputValid,
         readData := if v[Prefetch] != 0 then s.cells[Wrap(v[ReadBinaryNext], Depth(w))] else s.readData)
  }

  /** One instant of the crossing, with the wires driven by the controller equations. */
  function Step<T>(w: nat, zero: T, s: State<T>, x: Event<T>): (t: State<T>)
    requires w >= 3 && |s.cells| == Depth(w)
    ensures |t.cells| == Depth(w)
  {
    StepWith(w, zero, s, x, Wires(w, SampleOf(s, x)))
  }

  function StepWith<T>(w: nat, zero: T, s: State<T>, x: Event<T>, v: map<Signal, nat>): (t: State<T>)
    requires w >= 3 && |s.cells| == Depth(w) && OUTPUTS <= v.Keys
    ensures |t.cells| == Depth(w)
  {
    var t := if x.sourceEdge then SourceTick(w, s, x, v, s) else s;
    if x.destinationEdge then DestinationTick(w, zero, s, x, v, t) else t
  }

  /** A word is taken from the source at this instant. */
  predicate Accepts<T>(w: nat, s: State<T>, x: Event<T>)
    requires w >= 3
  {
    x.sourceEdge && Wires(w, SampleOf(s, x))[Push] != 0
  }

  /** A word is handed to the destination at this instant. */
  predicate Delivers<T>(w: nat, s: State<T>, x: Event<T>)
    requires w >= 3
  {
    x.destinationEdge && Wires(w, SampleOf(s, x))[Pop] != 0
  }

  /** What the first synchroniser stages may catch.  A pointer that does not move is
      caught as it is; one that moves at this very instant may be caught torn, each
      bit either as it was or as it will be. */
  ghost predicate Catches<T>(w: nat, s: State<T>, x: Event<T>, t: State<T>) {
    Torn(x.caughtWrite, s.writeGray, t.writeGray, w) && Torn(x.caughtRead, s.readGray, t.readGray, w)
  }

  // ------------------------------------------- the step without the controller

  lemma StepWires<T>(w: nat, s: State<T>, x: Event<T>)
    requires Sized(w, s)
    ensures var y, v := SampleOf(s, x), Wires(w, SampleOf(s, x));
      && v[Push] == FromBool(y.Pushes()) && v[Pop] == FromBool(y.Pops())
      && v[WriteBinaryNext] == y.NextWrite(w) && v[WriteGrayNext] == Bits.Gray(y.NextWrite(w))
      && v[ReadBinaryNext] == y.NextRead(w) && v[ReadGrayNext] == Bits.Gray(y.NextRead(w))
      && v[Prefetch] == FromBool(y.Fetches(w)) && v[FullNext] == FromBool(y.Fills(w))
  {
    var y := SampleOf(s, x);
    ControllerMeaning(w, y);
    var v := Wires(w, y);
    assert forall n | n in OUTPUTS :: Holds(Outputs(w, y), n, v[n]);
    assert Push in OUTPUTS && Pop in OUTPUTS && WriteBinaryNext in OUTPUTS && WriteGrayNext in OUTPUTS;
    assert ReadBinaryNext in OUTPUTS && ReadGrayNext in OUTPUTS && Prefetch in OUTPUTS && FullNext in OUTPUTS;
  }

  /** The source registers and the cells before (`s`) and after (`t`) an instant at
      which the next write pointer is `next`. */
  ghost predicate SourceMoves<T>(w: nat, s: State<T>, x: Event<T>, t: State<T>, next: nat, pushes: bool, fills: bool)
    requires w >= 3 && |s.cells| == Depth(w)
  {
    if !x.sourceEdge then
      t.writeBinary == s.writeBinary && t.writeGray == s.writeGray && t.full == s.full &&
      t.readGraySync1 == s.readGraySync1 && t.readGraySync2 == s.readGraySync2 && t.cells == s.cells
    else if x.sourceReset then
      t.writeBinary == 0 && t.writeGray == 0 && !t.full &&
      t.readGraySync1 == 0 && t.readGraySync2 == 0 && t.cells == s.cells
    else
      t.writeBinary == next && t.writeGray == Bits.Gray(next) && t.full == fills &&
      t.readGraySync1 == x.caughtRead && t.readGraySync2 == s.readGraySync1 &&
      t.cells == if pushes then s.cells[Wrap(s.writeBinary, Depth(w)) := x.payload] else s.cells
  }

  /** The same for the destination registers and the registered read. */
  ghost predicate DestinationMoves<T>(w: nat, zero: T, s: State<T>, x: Event<T>, t: State<T>,
                                      next: nat, pops: bool, fetches: bool)
    requires w >= 3 && |s.cells| == Depth(w)
  {
    if !x.destinationEdge then
      t.readBinary == s.readBinary && t.readGray == s.readGray && t.outputValid == s.outputValid &&
      t.writeGraySync1 == s.writeGraySync1 && t.writeGraySync2 == s.writeGraySync2 &&
      t.readData == s.readData
    else if x.destinationReset then
      t.readBinary == 0 && t.readGray == 0 && !t.outputValid &&
      t.writeGraySync1 == 0 && t.writeGraySync2 == 0 && t.readData == zero
    else
      t.readBinary == next && t.readGray == Bits.Gray(next) &&
      t.outputValid == (fetches || (s.outputValid && !pops)) &&
      t.writeGraySync1 == x.caughtWrite && t.writeGraySync2 == s.writeGraySync1 &&
      t.readData == if fetches then s.cells[Wrap(next, Depth(w))] else s.readData
  }

  /** An instant described without the controller: `t` follows `s`. */
  ghost predicate Ticks<T>(w: nat, zero: T, s: State<T>, x: Event<T>, t: State<T>, accepts: bool, delivers: bool)
    requires w >= 3 && |s.cells| == Depth(w)
  {
    var y := SampleOf(s, x);
    && SourceMoves(w, s, x, t, y.NextWrite(w), y.Pushes(), y.Fills(w))
    && DestinationMoves(w, zero, s, x, t, y.NextRead(w), y.Pops(), y.Fetches(w))
    && accepts == (x.sourceEdge && y.Pushes()) && delivers == (x.destinationEdge && y.Pops())
  }

  /** What an instant does to the registers, read off the controller equations. */
  lemma StepTicks<T>(w: nat, zero: T, s: State<T>, x: Event<T>)
    requires Sized(w, s)
    ensures Ticks(w, zero, s, x, Step(w, zero, s, x), Accepts(w, s, x), Delivers(w, s, x))
  {
    StepWires(w, s, x);
  }

  /** Registers never leave their declared width, whatever state they start in. */
  lemma StepSized<T>(w: nat, zero: T, s: State<T>, x: Event<T>)
    requires Sized(w, s) && SizedEvent(w, x)
    ensures Sized(w, Step(w, zero, s, x))
  {
    StepTicks(w, zero, s, x);
    var y := SampleOf(s, x);
    MovesSized(w, zero, s, x, Step(w, zero, s, x), y.NextWrite(w), y.Pushes(), y.Fills(w),
      y.NextRead(w), y.Pops(), y.Fetches(w));
  }

  lemma MovesSized<T>(w: nat, zero: T, s: State<T>, x: Event<T>, t: State<T>, write: nat, pushes: bool,
                      fills: bool, read: nat, pops: bool, fetches: bool)
    requires Sized(w, s) && SizedEvent(w, x) && write < Pow2(w) && read < Pow2(w)
    requires SourceMoves(w, s, x, t, write, pushes, fills)
    requires DestinationMoves(w, zero, s, x, t, read, pops, fetches)
    ensures Sized(w, t)
  {
    GrayBound(write, w);
    GrayBound(read, w);
  }
}
