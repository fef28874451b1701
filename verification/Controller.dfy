/** The twelve controller equations of the FIFO crossing, and what they compute. */
module Controller {
  import opened Bits
  import opened FifoLogic
  import opened Modular

  function Ref(name: Signal): Logic {
    Input(name, 1)
  }

  function Both(left: Logic, right: Logic): Logic {
    Binary(And, left, right, 1)
  }

  function Flip(arg: Logic): Logic {
    Not(arg, 1)
  }

  /** The equations for pointers of `w` bits. */
  function Build(w: int): Result<seq<Equation>> {
    if w < 3 then Err(PointerTooNarrow) else Ok(Equations(w))
  }

  function ReadyLogic(): Logic { Both(Flip(Ref(SourceReset)), Flip(Ref(Full))) }

  function ValidLogic(): Logic { Both(Flip(Ref(DestinationReset)), Ref(OutputValid)) }

  function PushLogic(): Logic { Both(Ref(SourceValid), Ref(SourceReady)) }

  function PopLogic(): Logic { Both(Ref(DestinationValid), Ref(DestinationReady)) }

  function NextLogic(w: nat, pointer: Signal, step: Signal): Logic {
    Binary(Add, Input(pointer, w), Ref(step), w)
  }

  function GrayLogic(w: nat, pointer: Signal): Logic { Logic.Gray(Input(pointer, w), w) }

  function UnreadLogic(w: nat, pointer: Signal): Logic {
    Binary(Ne, Input(pointer, w), Input(WriteGraySync2, w), 1)
  }

  function PrefetchLogic(): Logic {
    Both(Flip(Ref(DestinationReset)),
      Binary(Or, Both(Flip(Ref(OutputValid)), Ref(UnreadCurrent)), Both(Ref(Pop), Ref(UnreadNext)), 1))
  }

  function FullLogic(w: nat): Logic
    requires w >= 2
  {
    Binary(Eq, Input(WriteGrayNext, w),
      Binary(BinaryOp.Xor, Input(ReadGraySync2, w), Constant(3 * Pow2(w - 2), w), w), 1)
  }

  function Equations(w: nat): seq<Equation>
    requires w >= 3
  {
    [ Equation(SourceReady, ReadyLogic()),
      Equation(DestinationValid, ValidLogic()),
      Equation(Push, PushLogic()),
      Equation(Pop, PopLogic()),
      Equation(WriteBinaryNext, NextLogic(w, WriteBinary, Push)),
      Equation(WriteGrayNext, GrayLogic(w, WriteBinaryNext)),
      Equation(ReadBinaryNext, NextLogic(w, ReadBinary, Pop)),
      Equation(ReadGrayNext, GrayLogic(w, ReadBinaryNext)),
      Equation(UnreadCurrent, UnreadLogic(w, ReadGray)),
      Equation(UnreadNext, UnreadLogic(w, ReadGrayNext)),
      Equation(Prefetch, PrefetchLogic()),
      Equation(FullNext, FullLogic(w)) ]
  }

  /** Every equation holds of `v`, whatever the order they are read in. */
  ghost predicate Wired(w: nat, v: Values)
    requires w >= 3
  {
    && Obeys(v, SourceReady, ReadyLogic()) && Obeys(v, DestinationValid, ValidLogic())
    && Obeys(v, Push, PushLogic()) && Obeys(v, Pop, PopLogic())
    && Obeys(v, WriteBinaryNext, NextLogic(w, WriteBinary, Push))
    && Obeys(v, WriteGrayNext, GrayLogic(w, WriteBinaryNext))
    && Obeys(v, ReadBinaryNext, NextLogic(w, ReadBinary, Pop))
    && Obeys(v, ReadGrayNext, GrayLogic(w, ReadBinaryNext))
    && Obeys(v, UnreadCurrent, UnreadLogic(w, ReadGray))
    && Obeys(v, UnreadNext, UnreadLogic(w, ReadGrayNext))
    && Obeys(v, Prefetch, PrefetchLogic()) && Obeys(v, FullNext, FullLogic(w))
  }

  const INPUTS: set<Signal> :=
    {SourceValid, DestinationReady, SourceReset, DestinationReset, WriteBinary, WriteGray,
     ReadGraySync2, Full, ReadBinary, ReadGray, WriteGraySync2, OutputValid}

  /** The position of the equation that defines a name; inputs come before all. */
  function Place(n: Signal): int {
    match n
    case SourceReady => 0
    case DestinationValid => 1
    case Push => 2
    case Pop => 3
    case WriteBinaryNext => 4
    case WriteGrayNext => 5
    case ReadBinaryNext => 6
    case ReadGrayNext => 7
    case UnreadCurrent => 8
    case UnreadNext => 9
    case Prefetch => 10
    case FullNext => 11
    case Other(_) => 12
    case _ => -1
  }

  function Known(w: nat, i: nat): set<Signal>
    requires w >= 3 && i <= 12
  {
    if i == 0 then INPUTS else Known(w, i - 1) + {Equations(w)[i - 1].name}
  }

  lemma EquationPlaces(w: nat, i: nat)
    requires w >= 3 && i < 12
    ensures Place(Equations(w)[i].name) == i && Supported(Equations(w)[i].logic)
    ensures forall n | n in References(Equations(w)[i].logic) :: Place(n) < i
  {
    var e := Equations(w)[i].logic;
    if i == 10 {
      assert References(e.right.left) == {OutputValid, UnreadCurrent};
      assert References(e.right.right) == {Pop, UnreadNext};
      assert References(e) == {DestinationReset, OutputValid, UnreadCurrent, Pop, UnreadNext};
    } else if i == 11 {
      assert References(e.right) == {ReadGraySync2};
    }
  }

  lemma {:induction false} KnownPlaces(w: nat, i: nat)
    requires w >= 3 && i <= 12
    ensures forall n :: n in Known(w, i) <==> Place(n) < i
  {
    if i == 0 {
      assert forall n :: n in INPUTS <==> Place(n) < 0;
    } else {
      KnownPlaces(w, i - 1);
      EquationPlaces(w, i - 1);
      var name := Equations(w)[i - 1].name;
      forall n
        ensures n in Known(w, i) <==> Place(n) < i
      {
        if Place(n) == i - 1 {
          OnePlaceEach(n, name);
        }
      }
    }
  }

  lemma OnePlaceEach(n: Signal, m: Signal)
    requires 0 <= Place(n) < 12 && Place(n) == Place(m)
    ensures n == m
  {
  }

  lemma {:induction false} EquationsOrderedFrom(w: nat, i: nat)
    requires w >= 3 && i <= 12
    ensures Ordered(Equations(w)[i..], Known(w, i))
    decreases 12 - i
  {
    if i < 12 {
      EquationPlaces(w, i);
      KnownPlaces(w, i);
      EquationsOrderedFrom(w, i + 1);
      assert Equations(w)[i..][1..] == Equations(w)[i + 1..];
    }
  }

  /** The builder always yields a list in which every name is defined once and
      refers only to inputs and earlier names. */
  lemma BuildOrdered(w: nat)
    requires w >= 3
    ensures Ordered(Equations(w), INPUTS)
  {
    EquationsOrderedFrom(w, 0);
    assert Equations(w)[0..] == Equations(w);
  }

  // ---------------------------------------------------- what they compute

  /** The sampled inputs of the controller. */
  datatype Sample = Sample(
    sourceValid: bool, destinationReady: bool, sourceReset: bool, destinationReset: bool,
    writeBinary: nat, writeGray: nat, readGraySync2: nat, full: bool,
    readBinary: nat, readGray: nat, writeGraySync2: nat, outputValid: bool)
  {
    function Inputs(): Values {
      map[SourceValid := FromBool(sourceValid), DestinationReady := FromBool(destinationReady),
          SourceReset := FromBool(sourceReset), DestinationReset := FromBool(destinationReset),
          WriteBinary := writeBinary, WriteGray := writeGray, ReadGraySync2 := readGraySync2,
          Full := FromBool(full), ReadBinary := readBinary, ReadGray := readGray,
          WriteGraySync2 := writeGraySync2, OutputValid := FromBool(outputValid)]
    }

    /** Every pointer fits in `w` bits. */
    predicate Fits(w: nat) {
      var n := Pow2(w);
      writeBinary < n && writeGray < n && readGraySync2 < n &&
      readBinary < n && readGray < n && writeGraySync2 < n
    }

    predicate Ready() { !sourceReset && !full }
    predicate Valid() { !destinationReset && outputValid }
    predicate Pushes() { sourceValid && Ready() }
    predicate Pops() { Valid() && destinationReady }

    function NextWrite(w: nat): (n: nat)
      ensures n < Pow2(w)
    {
      Advance(writeBinary, Pushes(), Pow2(w))
    }

    function NextRead(w: nat): (n: nat)
      ensures n < Pow2(w)
    {
      Advance(readBinary, Pops(), Pow2(w))
    }

    /** A word is fetched into an empty output slot, or into one that is being emptied. */
    predicate Fetches(w: nat) {
      !destinationReset &&
      ((!outputValid && readGray != writeGraySync2) ||
       (Pops() && Bits.Gray(NextRead(w)) != writeGraySync2))
    }

    predicate Fills(w: nat)
      requires w >= 2
    {
      Bits.Gray(NextWrite(w)) == Bits.Xor(readGraySync2, 3 * Pow2(w - 2))
    }
  }

  function Advance(n: nat, step: bool, modulus: nat): nat
    requires modulus > 0
  {
    Wrap(n + FromBool(step), modulus)
  }

  /** What the in-order evaluation of the equations yields. */
  function Outputs(w: nat, x: Sample): Values
    requires w >= 3
  {
    InputsSettle(w, x);
    Settle(Equations(w), x.Inputs()).value
  }

  /** On sampled inputs the equations settle, to their one solution. */
  lemma InputsSettle(w: nat, x: Sample)
    requires w >= 3
    ensures Settle(Equations(w), x.Inputs()).Ok?
    ensures Solves(Equations(w), x.Inputs(), Settle(Equations(w), x.Inputs()).value)
  {
    BuildOrdered(w);
    assert x.Inputs().Keys == INPUTS;
    SettleSolves(Equations(w), x.Inputs());
  }

  /** The value of `n` satisfies the equation `n = e`. */
  ghost predicate Obeys(v: Values, n: Signal, e: Logic) {
    n in v && Evaluate(e, v) == Ok(v[n])
  }

  /** `v` keeps the sampled inputs. */
  predicate Carries(v: Values, x: Sample) {
    Agree(v, x.Inputs())
  }

  /** The signal holds a single bit with the given meaning. */
  predicate Means(v: Values, n: Signal, b: bool) {
    n in v && v[n] == FromBool(b)
  }

  predicate Holds(v: Values, n: Signal, value: nat) {
    n in v && v[n] == value
  }

  lemma InputsMean(v: Values, x: Sample)
    requires Carries(v, x)
    ensures Means(v, SourceValid, x.sourceValid) && Means(v, DestinationReady, x.destinationReady)
    ensures Means(v, SourceReset, x.sourceReset) && Means(v, DestinationReset, x.destinationReset)
    ensures Means(v, Full, x.full) && Means(v, OutputValid, x.outputValid)
    ensures Holds(v, WriteBinary, x.writeBinary) && Holds(v, ReadBinary, x.readBinary)
    ensures Holds(v, ReadGraySync2, x.readGraySync2) && Holds(v, WriteGraySync2, x.writeGraySync2)
    ensures Holds(v, ReadGray, x.readGray)
  {
    PortsMean(v, x.Inputs(), x);
    RegistersHold(v, x.Inputs(), x);
  }

  predicate Agree(v: Values, m: Values) {
    forall n | n in m :: n in v && v[n] == m[n]
  }

  lemma PortsMean(v: Values, m: Values, x: Sample)
    requires Agree(v, m) && m == x.Inputs()
    ensures Means(v, SourceValid, x.sourceValid) && Means(v, DestinationReady, x.destinationReady)
    ensures Means(v, SourceReset, x.sourceReset) && Means(v, DestinationReset, x.destinationReset)
  {
    assert SourceValid in m && DestinationReady in m && SourceReset in m && DestinationReset in m;
  }

  lemma RegistersHold(v: Values, m: Values, x: Sample)
    requires Agree(v, m) && m == x.Inputs()
    ensures Means(v, Full, x.full) && Means(v, OutputValid, x.outputValid)
    ensures Holds(v, WriteBinary, x.writeBinary) && Holds(v, ReadBinary, x.readBinary)
    ensures Holds(v, ReadGraySync2, x.readGraySync2) && Holds(v, WriteGraySync2, x.writeGraySync2)
    ensures Holds(v, ReadGray, x.readGray)
  {
    assert Full in m && OutputValid in m && WriteBinary in m && ReadBinary in m;
    assert ReadGraySync2 in m && WriteGraySync2 in m && ReadGray in m;
  }

  // Evaluation of the shapes the equations are made of.

  lemma RefMeans(v: Values, n: Signal, b: bool)
    requires Means(v, n, b)
    ensures Evaluate(Ref(n), v) == Ok(FromBool(b))
    ensures Evaluate(Flip(Ref(n)), v) == Ok(FromBool(!b))
  {
    assert Pow2(1) == 2;
  }

  lemma BothMeans(v: Values, l: Logic, r: Logic, a: bool, b: bool)
    requires Evaluate(l, v) == Ok(FromBool(a)) && Evaluate(r, v) == Ok(FromBool(b))
    ensures Evaluate(Both(l, r), v) == Ok(FromBool(a && b))
    ensures Evaluate(Binary(Or, l, r, 1), v) == Ok(FromBool(a || b))
  {
    assert Pow2(1) == 2;
    BinaryEvaluates(And, l, r, v, FromBool(a), FromBool(b));
    BinaryEvaluates(Or, l, r, v, FromBool(a), FromBool(b));
  }

  lemma BinaryEvaluates(op: BinaryOp, l: Logic, r: Logic, v: Values, x: nat, y: nat)
    requires Evaluate(l, v) == Ok(x) && Evaluate(r, v) == Ok(y)
    ensures Evaluate(Binary(op, l, r, 1), v) == Ok(Apply(op, x, y) % Pow2(1))
  {
  }

  lemma PointerHolds(v: Values, n: Signal, value: nat, w: nat)
    requires Holds(v, n, value) && value < Pow2(w)
    ensures Evaluate(Input(n, w), v) == Ok(value)
  {
    SmallMod(value, Pow2(w));
  }

  lemma GrayHolds(v: Values, n: Signal, value: nat, w: nat)
    requires Holds(v, n, value) && value < Pow2(w)
    ensures Evaluate(Logic.Gray(Input(n, w), w), v) == Ok(Bits.Gray(value))
  {
    PointerHolds(v, n, value, w);
    GrayBound(value, w);
    SmallMod(Bits.Gray(value), Pow2(w));
  }

  lemma AddHolds(v: Values, n: Signal, value: nat, s: Signal, step: bool, w: nat)
    requires Holds(v, n, value) && value < Pow2(w) && Means(v, s, step)
    ensures Evaluate(Binary(Add, Input(n, w), Ref(s), w), v) == Ok(Advance(value, step, Pow2(w)))
  {
    PointerHolds(v, n, value, w);
    RefMeans(v, s, step);
    WrapIsMod(value + FromBool(step), Pow2(w));
  }

  lemma DiffersMeans(v: Values, n: Signal, a: nat, m: Signal, b: nat, w: nat)
    requires Holds(v, n, a) && Holds(v, m, b) && a < Pow2(w) && b < Pow2(w)
    ensures Evaluate(Binary(Ne, Input(n, w), Input(m, w), 1), v) == Ok(FromBool(a != b))
  {
    PointerHolds(v, n, a, w);
    PointerHolds(v, m, b, w);
    assert Pow2(1) == 2;
  }

  lemma InvertedMeans(v: Values, n: Signal, a: nat, m: Signal, b: nat, c: nat, w: nat)
    requires Holds(v, n, a) && Holds(v, m, b) && a < Pow2(w) && b < Pow2(w) && c < Pow2(w)
    ensures Evaluate(Binary(Eq, Input(n, w),
              Binary(BinaryOp.Xor, Input(m, w), Constant(c, w), w), 1), v) ==
            Ok(FromBool(a == Bits.Xor(b, c)))
  {
    PointerHolds(v, n, a, w);
    PointerHolds(v, m, b, w);
    SmallMod(c, Pow2(w));
    XorBound(b, c, w);
    SmallMod(Bits.Xor(b, c), Pow2(w));
    assert Evaluate(Binary(BinaryOp.Xor, Input(m, w), Constant(c, w), w), v) == Ok(Bits.Xor(b, c));
    assert Pow2(1) == 2;
  }

  // The outputs one by one.

  lemma ReadyOutput(v: Values, x: Sample)
    requires Carries(v, x) && Obeys(v, SourceReady, ReadyLogic())
    ensures Means(v, SourceReady, x.Ready())
  {
    InputsMean(v, x);
    RefMeans(v, SourceReset, x.sourceReset);
    RefMeans(v, Full, x.full);
    BothMeans(v, Flip(Ref(SourceReset)), Flip(Ref(Full)), !x.sourceReset, !x.full);
  }

  lemma ValidOutput(v: Values, x: Sample)
    requires Carries(v, x) && Obeys(v, DestinationValid, ValidLogic())
    ensures Means(v, DestinationValid, x.Valid())
  {
    InputsMean(v, x);
    RefMeans(v, DestinationReset, x.destinationReset);
    RefMeans(v, OutputValid, x.outputValid);
    BothMeans(v, Flip(Ref(DestinationReset)), Ref(OutputValid), !x.destinationReset, x.outputValid);
  }

  lemma TransferOutput(v: Values, n: Signal, a: Signal, p: bool, b: Signal, q: bool)
    requires Means(v, a, p) && Means(v, b, q) && Obeys(v, n, Both(Ref(a), Ref(b)))
    ensures Means(v, n, p && q)
  {
    RefMeans(v, a, p);
    RefMeans(v, b, q);
    BothMeans(v, Ref(a), Ref(b), p, q);
  }

  /** The four handshake signals. */
  lemma HandshakeOutputs(w: nat, v: Values, x: Sample)
    requires w >= 3 && Carries(v, x) && Wired(w, v)
    ensures Means(v, SourceReady, x.Ready()) && Means(v, DestinationValid, x.Valid())
    ensures Means(v, Push, x.Pushes()) && Means(v, Pop, x.Pops())
  {
    InputsMean(v, x);
    ReadyOutput(v, x);
    ValidOutput(v, x);
    TransferOutput(v, Push, SourceValid, x.sourceValid, SourceReady, x.Ready());
    TransferOutput(v, Pop, DestinationValid, x.Valid(), DestinationReady, x.destinationReady);
  }

  lemma PointerOutput(w: nat, v: Values, n: Signal, value: nat, s: Signal, step: bool, next: Signal, gray: Signal)
    requires Holds(v, n, value) && value < Pow2(w) && Means(v, s, step)
    requires Obeys(v, next, NextLogic(w, n, s)) && Obeys(v, gray, GrayLogic(w, next))
    ensures Holds(v, next, Advance(value, step, Pow2(w)))
    ensures Holds(v, gray, Bits.Gray(Advance(value, step, Pow2(w))))
  {
    AddHolds(v, n, value, s, step, w);
    GrayHolds(v, next, Advance(value, step, Pow2(w)), w);
  }

  /** The next pointers and their Gray codes. */
  lemma PointerOutputs(w: nat, v: Values, x: Sample)
    requires w >= 3 && Carries(v, x) && Wired(w, v) && x.Fits(w)
    ensures Holds(v, WriteBinaryNext, x.NextWrite(w)) && Holds(v, WriteGrayNext, Bits.Gray(x.NextWrite(w)))
    ensures Holds(v, ReadBinaryNext, x.NextRead(w)) && Holds(v, ReadGrayNext, Bits.Gray(x.NextRead(w)))
  {
    InputsMean(v, x);
    HandshakeOutputs(w, v, x);
    PointerOutput(w, v, WriteBinary, x.writeBinary, Push, x.Pushes(), WriteBinaryNext, WriteGrayNext);
    PointerOutput(w, v, ReadBinary, x.readBinary, Pop, x.Pops(), ReadBinaryNext, ReadGrayNext);
  }

  lemma UnreadOutputs(w: nat, v: Values, x: Sample)
    requires w >= 3 && Carries(v, x) && Wired(w, v) && x.Fits(w)
    ensures Means(v, UnreadCurrent, x.readGray != x.writeGraySync2)
    ensures Means(v, UnreadNext, Bits.Gray(x.NextRead(w)) != x.writeGraySync2)
  {
    InputsMean(v, x);
    PointerOutputs(w, v, x);
    DiffersMeans(v, ReadGray, x.readGray, WriteGraySync2, x.writeGraySync2, w);
    GrayBound(x.NextRead(w), w);
    DiffersMeans(v, ReadGrayNext, Bits.Gray(x.NextRead(w)), WriteGraySync2, x.writeGraySync2, w);
  }

  /** The fetch enable of the output slot. */
  lemma PrefetchOutput(w: nat, v: Values, x: Sample)
    requires w >= 3 && Carries(v, x) && Wired(w, v) && x.Fits(w)
    ensures Means(v, Prefetch, x.Fetches(w))
  {
    InputsMean(v, x);
    HandshakeOutputs(w, v, x);
    UnreadOutputs(w, v, x);
    PrefetchGates(v, x.destinationReset, x.outputValid, x.readGray != x.writeGraySync2,
      x.Pops(), Bits.Gray(x.NextRead(w)) != x.writeGraySync2);
  }

  lemma PrefetchGates(v: Values, reset: bool, valid: bool, current: bool, pop: bool, next: bool)
    requires Means(v, DestinationReset, reset) && Means(v, OutputValid, valid)
    requires Means(v, UnreadCurrent, current) && Means(v, Pop, pop) && Means(v, UnreadNext, next)
    requires Obeys(v, Prefetch, PrefetchLogic())
    ensures Means(v, Prefetch, !reset && ((!valid && current) || (pop && next)))
  {
    RefMeans(v, OutputValid, valid);
    RefMeans(v, UnreadCurrent, current);
    var first, second := Both(Flip(Ref(OutputValid)), Ref(UnreadCurrent)), Both(Ref(Pop), Ref(UnreadNext));
    BothMeans(v, Flip(Ref(OutputValid)), Ref(UnreadCurrent), !valid, current);
    RefMeans(v, Pop, pop);
    RefMeans(v, UnreadNext, next);
    BothMeans(v, Ref(Pop), Ref(UnreadNext), pop, next);
    BothMeans(v, first, second, !valid && current, pop && next);
    RefMeans(v, DestinationReset, reset);
    BothMeans(v, Flip(Ref(DestinationReset)), Binary(Or, first, second, 1), !reset,
      (!valid && current) || (pop && next));
  }

  /** The registered full flag. */
  lemma FullOutput(w: nat, v: Values, x: Sample)
    requires w >= 3 && Carries(v, x) && Wired(w, v) && x.Fits(w)
    ensures Means(v, FullNext, x.Fills(w))
  {
    InputsMean(v, x);
    PointerOutputs(w, v, x);
    GrayBound(x.NextWrite(w), w);
    Pow2Even(w);
    Pow2Even(w - 1);
    InvertedMeans(v, WriteGrayNext, Bits.Gray(x.NextWrite(w)), ReadGraySync2, x.readGraySync2,
      3 * Pow2(w - 2), w);
  }

  lemma WiredByIndex(w: nat, v: Values)
    requires w >= 3
    requires forall i | 0 <= i < 12 :: Obeys(v, Equations(w)[i].name, Equations(w)[i].logic)
    ensures Wired(w, v)
  {
    var q := Equations(w);
    assert Obeys(v, q[0].name, q[0].logic) && Obeys(v, q[1].name, q[1].logic);
    assert Obeys(v, q[2].name, q[2].logic) && Obeys(v, q[3].name, q[3].logic);
    assert Obeys(v, q[4].name, q[4].logic) && Obeys(v, q[5].name, q[5].logic);
    assert Obeys(v, q[6].name, q[6].logic) && Obeys(v, q[7].name, q[7].logic);
    assert Obeys(v, q[8].name, q[8].logic) && Obeys(v, q[9].name, q[9].logic);
    assert Obeys(v, q[10].name, q[10].logic) && Obeys(v, q[11].name, q[11].logic);
  }

  lemma SolutionCarries(w: nat, x: Sample, v: Values)
    requires w >= 3 && Solves(Equations(w), x.Inputs(), v)
    ensures Carries(v, x)
  {
    forall n | n in x.Inputs()
      ensures n in v && v[n] == x.Inputs()[n]
    {
      InputsComeFirst(x, n);
      NamesComeLater(w, n);
    }
  }

  lemma InputsComeFirst(x: Sample, n: Signal)
    requires n in x.Inputs()
    ensures Place(n) < 0
  {
  }

  lemma NamesComeLater(w: nat, n: Signal)
    requires w >= 3 && Place(n) < 0
    ensures n !in Names(Equations(w))
  {
    if n in Names(Equations(w)) {
      var i :| 0 <= i < 12 && Equations(w)[i].name == n;
      EquationPlaces(w, i);
    }
  }

  lemma SolutionObeys(w: nat, x: Sample, v: Values, i: nat)
    requires w >= 3 && Solves(Equations(w), x.Inputs(), v) && i < 12
    ensures Obeys(v, Equations(w)[i].name, Equations(w)[i].logic)
  {
    assert Equations(w)[i] in Equations(w);
  }

  /** The in-order evaluation keeps the inputs and satisfies every equation. */
  lemma OutputsWired(w: nat, x: Sample)
    requires w >= 3
    ensures Carries(Outputs(w, x), x) && Wired(w, Outputs(w, x))
  {
    var v := Outputs(w, x);
    InputsSettle(w, x);
    SolutionCarries(w, x, v);
    forall i | 0 <= i < 12
      ensures Obeys(v, Equations(w)[i].name, Equations(w)[i].logic)
    {
      SolutionObeys(w, x, v, i);
    }
    WiredByIndex(w, v);
  }

  /** What the controller computes from a sample of its inputs. */
  lemma ControllerMeaning(w: nat, x: Sample)
    requires w >= 3 && x.Fits(w)
    ensures var v := Outputs(w, x);
      && Means(v, SourceReady, x.Ready()) && Means(v, DestinationValid, x.Valid())
      && Means(v, Push, x.Pushes()) && Means(v, Pop, x.Pops())
      && Holds(v, WriteBinaryNext, x.NextWrite(w)) && Holds(v, WriteGrayNext, Bits.Gray(x.NextWrite(w)))
      && Holds(v, ReadBinaryNext, x.NextRead(w)) && Holds(v, ReadGrayNext, Bits.Gray(x.NextRead(w)))
      && Means(v, Prefetch, x.Fetches(w)) && Means(v, FullNext, x.Fills(w))
  {
    var v := Outputs(w, x);
    OutputsWired(w, x);
    HandshakeOutputs(w, v, x);
    PointerOutputs(w, v, x);
    PrefetchOutput(w, v, x);
    FullOutput(w, v, x);
  }

  const OUTPUTS: set<Signal> :=
    {SourceReady, DestinationValid, Push, Pop, WriteBinaryNext, WriteGrayNext,
     ReadBinaryNext, ReadGrayNext, UnreadCurrent, UnreadNext, Prefetch, FullNext}

  lemma {:induction false} SettleKeepsNonNegative(equations: seq<Equation>, values: Values)
    requires forall n | n in values :: values[n] >= 0
    requires Settle(equations, values).Ok?
    ensures var v := Settle(equations, values).value; forall n | n in v :: v[n] >= 0
    decreases |equations|
  {
    if equations != [] {
      SettleKeepsNonNegative(equations[1..],
        values[equations[0].name := Evaluate(equations[0].logic, values).value]);
    }
  }

  lemma InputsNonNegative(x: Sample)
    ensures forall n | n in x.Inputs() :: x.Inputs()[n] >= 0
  {
  }

  lemma WiredCovers(w: nat, v: Values)
    requires w >= 3 && Wired(w, v)
    ensures OUTPUTS <= v.Keys
  {
  }

  lemma OutputsTotal(w: nat, x: Sample)
    requires w >= 3
    ensures OUTPUTS <= Outputs(w, x).Keys
    ensures forall n | n in Outputs(w, x) :: Outputs(w, x)[n] >= 0
  {
    OutputsWired(w, x);
    InputsSettle(w, x);
    WiredCovers(w, Outputs(w, x));
    InputsNonNegative(x);
    SettleKeepsNonNegative(Equations(w), x.Inputs());
  }

  /** The twelve output wires for sampled inputs. */
  function Wires(w: nat, x: Sample): (v: map<Signal, nat>)
    requires w >= 3
    ensures v.Keys == OUTPUTS
    ensures forall n | n in OUTPUTS :: Holds(Outputs(w, x), n, v[n])
  {
    OutputsTotal(w, x);
    Restrict(Outputs(w, x), OUTPUTS)
  }

  function Restrict(all: Values, names: set<Signal>): (v: map<Signal, nat>)
    requires names <= all.Keys && forall n | n in all :: all[n] >= 0
    ensures v.Keys == names && forall n | n in names :: Holds(all, n, v[n])
  {
    map n | n in names :: all[n]
  }
}
