/** The rendered controller: twelve continuous assignments that hold of the values the
    interpreter computes. */
module RenderedController {
  import opened Bits
  import opened FifoLogic
  import opened Controller
  import opened SvSyntax
  import opened SvSemantics
  import Modular

  function SignalWidth(n: Signal, w: nat): nat {
    match n
    case WriteBinary => w
    case WriteGray => w
    case ReadGraySync2 => w
    case ReadBinary => w
    case ReadGray => w
    case WriteGraySync2 => w
    case WriteBinaryNext => w
    case WriteGrayNext => w
    case ReadBinaryNext => w
    case ReadGrayNext => w
    case _ => 1
  }

  /** Every name is read at its declared width. */
  predicate ReadsDeclared(e: Logic, w: nat) {
    match e
    case Input(name, width) => width == SignalWidth(name, w)
    case Constant(_, _) => true
    case Not(arg, _) => ReadsDeclared(arg, w)
    case Gray(arg, _) => ReadsDeclared(arg, w)
    case Binary(_, left, right, _) => ReadsDeclared(left, w) && ReadsDeclared(right, w)
    case Unsupported(_, _, _) => false
  }

  function Net(n: Signal, symbols: Symbols): Name {
    if n in symbols then Port(symbols[n].text) else Own(n)
  }

  predicate Inverted(n: Signal, symbols: Symbols) {
    n in symbols && symbols[n].inverted
  }

  /** The nets have their declared widths and carry `values`, an inverted port the
      opposite of its one-bit signal. */
  predicate NetsCarry(values: Values, symbols: Symbols, nets: Nets, w: nat) {
    forall n | n in values ::
      && Net(n, symbols) in nets.width && Net(n, symbols) in nets.value
      && nets.width[Net(n, symbols)] == SignalWidth(n, w)
      && (if Inverted(n, symbols) then
            SignalWidth(n, w) == 1 && FromBool(nets.value[Net(n, symbols)] == 0) == values[n] % 2
          else nets.value[Net(n, symbols)] == values[n] % Pow2(SignalWidth(n, w)))
  }

  lemma {:induction false} NetsCarryReads(e: Logic, values: Values, symbols: Symbols, nets: Nets, w: nat)
    requires Supported(e) && ReadsDeclared(e, w) && References(e) <= values.Keys
    requires NetsCarry(values, symbols, nets, w)
    ensures Carried(e, symbols, values, nets)
  {
    match e
    case Input(_, _) =>
    case Constant(_, _) =>
    case Not(arg, _) => NetsCarryReads(arg, values, symbols, nets, w);
    case Gray(arg, _) => NetsCarryReads(arg, values, symbols, nets, w);
    case Binary(_, left, right, _) =>
      NetsCarryReads(left, values, symbols, nets, w);
      NetsCarryReads(right, values, symbols, nets, w);
  }

  ghost predicate Declared(e: Logic, w: nat) {
    WidthConsistent(e) && ReadsDeclared(e, w)
  }

  lemma RefDeclared(n: Signal, w: nat)
    requires SignalWidth(n, w) == 1
    ensures Declared(Ref(n), w) && Declared(Flip(Ref(n)), w)
  {
  }

  lemma BothDeclared(l: Logic, r: Logic, w: nat)
    requires Declared(l, w) && Declared(r, w)
    ensures Declared(Both(l, r), w) && Declared(Binary(Or, l, r, 1), w)
  {
  }

  lemma PointersDeclared(n: Signal, m: Signal, s: Signal, w: nat)
    requires w >= 1
    requires SignalWidth(n, w) == w && SignalWidth(m, w) == w && SignalWidth(s, w) == 1
    requires SignalWidth(WriteGraySync2, w) == w
    ensures Declared(NextLogic(w, n, s), w) && Declared(GrayLogic(w, m), w) && Declared(UnreadLogic(w, n), w)
  {
  }

  lemma GatesDeclared(w: nat)
    ensures Declared(ReadyLogic(), w) && Declared(ValidLogic(), w)
    ensures Declared(PushLogic(), w) && Declared(PopLogic(), w)
  {
    RefDeclared(SourceReset, w);
    RefDeclared(Full, w);
    RefDeclared(DestinationReset, w);
    RefDeclared(OutputValid, w);
    RefDeclared(SourceValid, w);
    RefDeclared(SourceReady, w);
    RefDeclared(DestinationValid, w);
    RefDeclared(DestinationReady, w);
    BothDeclared(Flip(Ref(SourceReset)), Flip(Ref(Full)), w);
    BothDeclared(Flip(Ref(DestinationReset)), Ref(OutputValid), w);
    BothDeclared(Ref(SourceValid), Ref(SourceReady), w);
    BothDeclared(Ref(DestinationValid), Ref(DestinationReady), w);
  }

  lemma PrefetchDeclared(w: nat)
    ensures Declared(PrefetchLogic(), w)
  {
    RefDeclared(DestinationReset, w);
    RefDeclared(OutputValid, w);
    RefDeclared(UnreadCurrent, w);
    RefDeclared(UnreadNext, w);
    RefDeclared(Pop, w);
    var first, second := Both(Flip(Ref(OutputValid)), Ref(UnreadCurrent)), Both(Ref(Pop), Ref(UnreadNext));
    BothDeclared(Flip(Ref(OutputValid)), Ref(UnreadCurrent), w);
    BothDeclared(Ref(Pop), Ref(UnreadNext), w);
    BothDeclared(first, second, w);
    BothDeclared(Flip(Ref(DestinationReset)), Binary(Or, first, second, 1), w);
  }

  lemma PointersAllDeclared(w: nat)
    requires w >= 1
    ensures Declared(NextLogic(w, WriteBinary, Push), w) && Declared(GrayLogic(w, WriteBinaryNext), w)
    ensures Declared(NextLogic(w, ReadBinary, Pop), w) && Declared(GrayLogic(w, ReadBinaryNext), w)
    ensures Declared(UnreadLogic(w, ReadGray), w) && Declared(UnreadLogic(w, ReadGrayNext), w)
  {
    PointersDeclared(WriteBinary, WriteBinaryNext, Push, w);
    PointersDeclared(ReadBinary, ReadBinaryNext, Pop, w);
    PointersDeclared(ReadGray, ReadGray, Pop, w);
    PointersDeclared(ReadGrayNext, ReadGrayNext, Pop, w);
  }

  /** The controller's equations are width-consistent and read names as declared. */
  lemma EquationsConsistent(w: nat, i: nat)
    requires w >= 3 && i < 12
    ensures Declared(Equations(w)[i].logic, w)
    ensures Equations(w)[i].logic.width == SignalWidth(Equations(w)[i].name, w)
  {
    if i < 4 {
      GatesDeclared(w);
    } else if i < 10 {
      PointersAllDeclared(w);
    } else if i == 10 {
      PrefetchDeclared(w);
    } else {
      FullDeclared(w);
    }
  }

  lemma FullDeclared(w: nat)
    requires w >= 3
    ensures Declared(FullLogic(w), w)
  {
  }

  /** The printed assignment of equation `i`, read as SystemVerilog, holds of the nets. */
  ghost predicate AssignmentHolds(w: nat, symbols: Symbols, nets: Nets, i: nat)
    requires w >= 3 && i < 12
  {
    var q := Equations(w)[i];
    && Supported(q.logic)
    && var p := Parse(Print(q.logic, symbols, true, End), false);
    && p.Parsed? && Net(q.name, symbols) in nets.value
    && nets.value[Net(q.name, symbols)] == Assigned(p.tree, nets, SignalWidth(q.name, w))
  }

  /** The text of every equation, read as SystemVerilog and assigned to the net of the
      defined signal, yields the value the interpreter computes for that signal. */
  lemma {:induction false} RenderedAssignmentsHold(w: nat, x: Sample, symbols: Symbols, nets: Nets, i: nat)
    requires w >= 3 && i < 12 && NetsCarry(Outputs(w, x), symbols, nets, w)
    requires !Inverted(Equations(w)[i].name, symbols)
    ensures AssignmentHolds(w, symbols, nets, i)
  {
    var q, v := Equations(w)[i], Outputs(w, x);
    EquationsConsistent(w, i);
    InputsSettle(w, x);
    SolutionObeys(w, x, v, i);
    ReadAssignment(v, symbols, nets, w, i);
    Modular.SmallMod(v[q.name], Pow2(q.logic.width));
  }

  /** What a printed assignment says on nets that carry the values it reads. */
  lemma ReadAssignment(values: Values, symbols: Symbols, nets: Nets, w: nat, i: nat)
    requires w >= 3 && i < 12 && NetsCarry(values, symbols, nets, w)
    requires Evaluate(Equations(w)[i].logic, values).Ok?
    ensures var q := Equations(w)[i];
      && Supported(q.logic)
      && var p := Parse(Print(q.logic, symbols, true, End), false);
      && p.Parsed? && Evaluate(q.logic, values) == Ok(Assigned(p.tree, nets, SignalWidth(q.name, w)))
  {
    var q := Equations(w)[i];
    EquationsConsistent(w, i);
    EvaluateSucceeds(q.logic, values);
    NetsCarryReads(q.logic, values, symbols, nets, w);
    AssignmentMeansEvaluate(q.logic, symbols, values, nets);
  }

  /** The nets of the defined signals are there, as wide as declared and not inverted. */
  ghost predicate NetsDeclared(w: nat, symbols: Symbols, nets: Nets)
    requires w >= 3
  {
    forall i: nat | i < 12 :: var n := Equations(w)[i].name;
      && !Inverted(n, symbols) && Net(n, symbols) in nets.width && Net(n, symbols) in nets.value
      && nets.width[Net(n, symbols)] == SignalWidth(n, w)
  }

  /** The inputs, and for every defined signal what is on its net. */
  function Carrying(w: nat, x: Sample, symbols: Symbols, nets: Nets): Values
    requires w >= 3
  {
    map n | n in Outputs(w, x) ::
      if n in x.Inputs() then x.Inputs()[n]
      else if Net(n, symbols) in nets.value then nets.value[Net(n, symbols)] else 0
  }

  lemma DefinedSomewhere(w: nat, x: Sample, n: Signal) returns (i: nat)
    requires w >= 3 && n in Outputs(w, x) && n !in x.Inputs()
    ensures i < 12 && Equations(w)[i].name == n
  {
    InputsSettle(w, x);
    assert n in Names(Equations(w));
    i :| 0 <= i < 12 && Equations(w)[i].name == n;
  }

  lemma CarryingIsCarried(w: nat, x: Sample, symbols: Symbols, nets: Nets)
    requires w >= 3 && NetsCarry(x.Inputs(), symbols, nets, w) && NetsDeclared(w, symbols, nets)
    requires forall i: nat | i < 12 :: AssignmentHolds(w, symbols, nets, i)
    ensures NetsCarry(Carrying(w, x, symbols, nets), symbols, nets, w)
  {
    var v := Carrying(w, x, symbols, nets);
    forall n | n in v && n !in x.Inputs()
      ensures !Inverted(n, symbols) && Net(n, symbols) in nets.width && Net(n, symbols) in nets.value
      ensures nets.width[Net(n, symbols)] == SignalWidth(n, w)
      ensures nets.value[Net(n, symbols)] == v[n] % Pow2(SignalWidth(n, w))
    {
      var i := DefinedSomewhere(w, x, n);
      assert AssignmentHolds(w, symbols, nets, i);
      Modular.SmallMod(v[n], Pow2(SignalWidth(n, w)));
    }
  }

  lemma CarryingSolves(w: nat, x: Sample, symbols: Symbols, nets: Nets, i: nat)
    requires w >= 3 && i < 12 && NetsCarry(Carrying(w, x, symbols, nets), symbols, nets, w)
    requires AssignmentHolds(w, symbols, nets, i)
    ensures var q, v := Equations(w)[i], Carrying(w, x, symbols, nets);
      q.name in v && q.name !in x.Inputs() && Evaluate(q.logic, v) == Ok(v[q.name])
  {
    var q, v := Equations(w)[i], Carrying(w, x, symbols, nets);
    InputsSettle(w, x);
    EquationPlaces(w, i);
    SolutionObeys(w, x, Outputs(w, x), i);
    EvaluateSucceeds(q.logic, Outputs(w, x));
    EvaluateSucceeds(q.logic, v);
    if q.name in x.Inputs() {
      InputsComeFirst(x, q.name);
    }
    ReadAssignment(v, symbols, nets, w, i);
  }

  lemma AssignmentsForce(w: nat, x: Sample, symbols: Symbols, nets: Nets)
    requires w >= 3 && NetsCarry(x.Inputs(), symbols, nets, w) && NetsDeclared(w, symbols, nets)
    requires forall i: nat | i < 12 :: AssignmentHolds(w, symbols, nets, i)
    ensures NetsCarry(Outputs(w, x), symbols, nets, w)
  {
    var v := Carrying(w, x, symbols, nets);
    CarryingIsCarried(w, x, symbols, nets);
    forall i: nat | i < |Equations(w)|
      ensures Holding(Equations(w), v, i)
    {
      CarryingSolves(w, x, symbols, nets, i);
    }
    OutputsSettled(w, x);
    SatisfiedIsResult(Equations(w), x.Inputs(), Outputs(w, x), v);
  }

  lemma OutputsSettled(w: nat, x: Sample)
    requires w >= 3
    ensures Ordered(Equations(w), x.Inputs().Keys) && Settle(Equations(w), x.Inputs()) == Ok(Outputs(w, x))
    ensures x.Inputs().Keys <= Outputs(w, x).Keys
  {
    BuildOrdered(w);
    assert x.Inputs().Keys == INPUTS;
    SettleSucceeds(Equations(w), x.Inputs());
  }

  /** Nets that carry the inputs and satisfy all twelve printed assignments carry what the
      interpreter computes, and only such nets do: the text has one meaning and it is this. */
  lemma {:induction false} AssignmentsDetermine(w: nat, x: Sample, symbols: Symbols, nets: Nets)
    requires w >= 3 && NetsCarry(x.Inputs(), symbols, nets, w) && NetsDeclared(w, symbols, nets)
    ensures (forall i: nat | i < 12 :: AssignmentHolds(w, symbols, nets, i)) <==>
            NetsCarry(Outputs(w, x), symbols, nets, w)
  {
    if forall i: nat | i < 12 :: AssignmentHolds(w, symbols, nets, i) {
      AssignmentsForce(w, x, symbols, nets);
    }
    if NetsCarry(Outputs(w, x), symbols, nets, w) {
      forall i: nat | i < 12
        ensures AssignmentHolds(w, symbols, nets, i)
      {
        RenderedAssignmentsHold(w, x, symbols, nets, i);
      }
    }
  }

  // ------------------------------------------------------- the exact texts

  function Name(n: Signal, k: Tokens): Tokens {
    Then(Identifier(Own(n)), k)
  }

  function Sign(op: Operator, k: Tokens): Tokens {
    Then(Infix(op), k)
  }

  function Negated(k: Tokens): Tokens {
    Then(Bang, k)
  }

  function Opening(k: Tokens): Tokens {
    Then(Open, k)
  }

  function Closing(k: Tokens): Tokens {
    Then(Close, k)
  }

  /** The right-hand side of an assignment, with every signal under its own name. */
  function Text(e: Logic): Tokens
    requires Supported(e)
  {
    Print(e, map[], true, End)
  }

  lemma InputText(n: Signal, w: nat, top: bool, k: Tokens)
    ensures Print(Input(n, w), map[], top, k) == Name(n, k)
  {
  }

  /** A comparison of two names. */
  lemma UnreadText(w: nat, n: Signal)
    ensures Text(UnreadLogic(w, n)) == Name(n, Sign(NotEqual, Name(WriteGraySync2, End)))
  {
    InputText(WriteGraySync2, w, false, End);
    InputText(n, w, false, Sign(NotEqual, Name(WriteGraySync2, End)));
  }

  /** The right-hand sides of the handshake and comparison assignments.  Negations at the top
      and directly below it stand without parentheses. */
  lemma GateTexts(w: nat)
    ensures Text(ReadyLogic()) == Negated(Name(SourceReset, Sign(LogicalAnd, Negated(Name(Full, End)))))
    ensures Text(ValidLogic()) == Negated(Name(DestinationReset, Sign(LogicalAnd, Name(OutputValid, End))))
    ensures Text(PushLogic()) == Name(SourceValid, Sign(LogicalAnd, Name(SourceReady, End)))
    ensures Text(PopLogic()) == Name(DestinationValid, Sign(LogicalAnd, Name(DestinationReady, End)))
    ensures Text(UnreadLogic(w, ReadGray)) == Name(ReadGray, Sign(NotEqual, Name(WriteGraySync2, End)))
    ensures Text(UnreadLogic(w, ReadGrayNext)) == Name(ReadGrayNext, Sign(NotEqual, Name(WriteGraySync2, End)))
  {
    UnreadText(w, ReadGray);
    UnreadText(w, ReadGrayNext);
  }

  /** Those of the pointers: `(n + w'(s))`, and `((n >> 1) ^ n)`. */
  lemma PointerTexts(w: nat, n: Signal, s: Signal)
    requires w >= 3
    ensures Text(NextLogic(w, n, s)) ==
      Opening(Name(n, Sign(Plus, Then(SizeCast(w), Opening(Name(s, Closing(Closing(End))))))))
    ensures Text(GrayLogic(w, n)) ==
      Opening(Opening(Name(n, Sign(ShiftRight, Then(One, Closing(Sign(Caret, Name(n, Closing(End)))))))))
  {
    var inside := Name(s, Closing(Closing(End)));
    InputText(s, 1, false, Closing(Closing(End)));
    InputText(n, w, false, Sign(Plus, Then(SizeCast(w), Opening(inside))));
    var second := Name(n, Closing(End));
    InputText(n, w, false, Closing(End));
    InputText(n, w, false, Sign(ShiftRight, Then(One, Closing(Sign(Caret, second)))));
  }

  /** `!reset && (((!valid) && unread) || (pop && unread))`: below the top, negations have
      parentheses too. */
  lemma PrefetchText()
    ensures Text(PrefetchLogic()) ==
      Negated(Name(DestinationReset, Sign(LogicalAnd,
        Opening(Opening(Opening(Negated(Name(OutputValid, Closing(Sign(LogicalAnd, Name(UnreadCurrent, Closing(
        Sign(LogicalOr, Opening(Name(Pop, Sign(LogicalAnd, Name(UnreadNext, Closing(Closing(End)))))))))))))))))))
  {
    var e := PrefetchLogic();
    var last := Closing(End);
    var right := Print(e.right.right, map[], false, last);
    assert right == Opening(Name(Pop, Sign(LogicalAnd, Name(UnreadNext, Closing(last)))));
    var left := Print(e.right.left, map[], false, Sign(LogicalOr, right));
    assert left == Opening(Opening(Negated(Name(OutputValid, Closing(Sign(LogicalAnd, Name(UnreadCurrent, Closing(
      Sign(LogicalOr, right)))))))));
    assert Print(e.right, map[], false, End) == Opening(left);
  }

  /** `next == (sync ^ w'dmask)`, the mask having the two top bits set. */
  lemma FullText(w: nat)
    requires w >= 3
    ensures Supported(FullLogic(w))
    ensures Text(FullLogic(w)) ==
      Name(WriteGrayNext, Sign(Equal, Opening(Name(ReadGraySync2, Sign(Caret,
        Then(SizedNumber(w, 3 * Pow2(w - 2)), Closing(End)))))))
  {
    var e := FullLogic(w);
    assert Supported(e.left) && Supported(e.right.left) && Supported(e.right.right);
    assert Supported(e.right) && Supported(e);
    var mask := Then(SizedNumber(w, 3 * Pow2(w - 2)), Closing(End));
    assert Print(e.right.right, map[], false, Closing(End)) == mask;
    InputText(ReadGraySync2, w, false, Sign(Caret, mask));
    assert Print(e.right, map[], false, End) == Opening(Name(ReadGraySync2, Sign(Caret, mask)));
    InputText(WriteGrayNext, w, false, Sign(Equal, Opening(Name(ReadGraySync2, Sign(Caret, mask)))));
  }

  /** Which assignments the strict grammar of IEEE 1800-2017 annex A.8.3 refuses, where a
      unary operator takes a primary: those that negate an active-low reset. */
  lemma {:induction false} StrictlyRefused(w: nat, symbols: Symbols, i: nat)
    requires w >= 3 && i < 12
    requires forall n | Inverted(n, symbols) :: n == SourceReset || n == DestinationReset
    ensures var e := Equations(w)[i].logic;
      && Supported(e)
      && (Parse(Print(e, symbols, true, End), true).Failed? <==>
          (i == 0 && Inverted(SourceReset, symbols)) ||
          ((i == 1 || i == 10) && Inverted(DestinationReset, symbols)))
  {
    EquationPlaces(w, i);
    PrintedTextReadsBack(Equations(w)[i].logic, symbols, true);
    EquationsConsistent(w, i);
    ConsistentIsSupported(Equations(w)[i].logic);
    DoublesWhere(w, symbols, i);
  }

  lemma DoublesWhere(w: nat, symbols: Symbols, i: nat)
    requires w >= 3 && i < 12
    requires forall n | Inverted(n, symbols) :: n == SourceReset || n == DestinationReset
    ensures DoublesNegation(Equations(w)[i].logic, symbols, true) <==>
            (i == 0 && Inverted(SourceReset, symbols)) ||
            ((i == 1 || i == 10) && Inverted(DestinationReset, symbols))
  {
    FlipDoubles(SourceReset, symbols);
    FlipDoubles(Full, symbols);
    FlipDoubles(DestinationReset, symbols);
    FlipDoubles(OutputValid, symbols);
    if i == 10 {
      var e := PrefetchLogic();
      assert !DoublesNegation(e.right.left, symbols, false);
      assert !DoublesNegation(e.right.right, symbols, false);
      assert DoublesNegation(e, symbols, true) <==> Inverted(DestinationReset, symbols);
    } else if i == 0 {
      assert DoublesNegation(ReadyLogic(), symbols, true) <==> Inverted(SourceReset, symbols);
    } else if i == 1 {
      assert DoublesNegation(ValidLogic(), symbols, true) <==> Inverted(DestinationReset, symbols);
    } else if i == 11 {
      assert !DoublesNegation(FullLogic(w).right, symbols, false);
    }
  }

  lemma FlipDoubles(n: Signal, symbols: Symbols)
    ensures DoublesNegation(Flip(Ref(n)), symbols, true) <==> Inverted(n, symbols)
    ensures DoublesNegation(Flip(Ref(n)), symbols, false) <==> Inverted(n, symbols)
  {
  }

  lemma NarrowSum(values: Values, symbols: Symbols, nets: Nets, a: Signal)
    requires a in values && values[a] == 1 && a !in symbols
    requires Own(a) in nets.width && nets.width[Own(a)] == 1 && Own(a) in nets.value && nets.value[Own(a)] == 1
    ensures var s := Binary(Add, Input(a, 1), Input(a, 1), 1);
      && Evaluate(s, values) == Ok(0)
      && SelfWidth(Tree(s, symbols), nets) == 1 && ValueAt(Tree(s, symbols), nets, 2) == 2
  {
    assert Pow2(1) == 2 && Pow2(2) == 4;
    var s := Binary(Add, Input(a, 1), Input(a, 1), 1);
    assert Tree(s, symbols) == Infixed(Plus, Ident(Own(a)), Casted(1, Ident(Own(a))));
    assert ValueAt(Casted(1, Ident(Own(a))), nets, 2) == 1;
  }

  lemma WideComparison(s: Logic, values: Values, symbols: Symbols, nets: Nets)
    requires Supported(s) && Evaluate(s, values) == Ok(0)
    requires SelfWidth(Tree(s, symbols), nets) == 1 && ValueAt(Tree(s, symbols), nets, 2) == 2
    ensures var e := Binary(Eq, s, Constant(2, 2), 1);
      Evaluate(e, values) == Ok(0) && Assigned(Tree(e, symbols), nets, 1) == 1
  {
    var e := Binary(Eq, s, Constant(2, 2), 1);
    ZeroIsNotTwo(s, values);
    assert Tree(e, symbols) == Infixed(Equal, Tree(s, symbols), Tree(Constant(2, 2), symbols));
    CarryMeetsTwo(Tree(s, symbols), nets);
  }

  lemma ZeroIsNotTwo(s: Logic, values: Values)
    requires Evaluate(s, values) == Ok(0)
    ensures Evaluate(Binary(Eq, s, Constant(2, 2), 1), values) == Ok(0)
  {
    assert Pow2(1) == 2 && Pow2(2) == 4;
    assert Evaluate(Constant(2, 2), values) == Ok(2);
    EvaluateComparison(s, Constant(2, 2), values, 0, 2);
  }

  lemma EvaluateComparison(l: Logic, r: Logic, values: Values, x: nat, y: nat)
    requires Evaluate(l, values) == Ok(x) && Evaluate(r, values) == Ok(y)
    ensures Evaluate(Binary(Eq, l, r, 1), values) == Ok(FromBool(x == y) % Pow2(1))
  {
  }

  lemma CarryMeetsTwo(t: Sv, nets: Nets)
    requires SelfWidth(t, nets) == 1 && ValueAt(t, nets, 2) == 2
    ensures Assigned(Infixed(Equal, t, Sized(2, 2)), nets, 1) == 1
  {
    assert Pow2(1) == 2 && Pow2(2) == 4;
    assert ValueAt(Sized(2, 2), nets, 2) == 2;
  }

  /** Widths have to agree: here the interpreter cuts a sum to one bit, while the wider
      operand of the comparison lets the rendered sum keep its carry. */
  lemma WidthsMatter(values: Values, symbols: Symbols, nets: Nets, a: Signal)
    requires a in values && values[a] == 1 && a !in symbols
    requires Own(a) in nets.width && nets.width[Own(a)] == 1 && Own(a) in nets.value && nets.value[Own(a)] == 1
    ensures var e := Binary(Eq, Binary(Add, Input(a, 1), Input(a, 1), 1), Constant(2, 2), 1);
      && Supported(e) && Evaluate(e, values) == Ok(0)
      && Parse(Print(e, symbols, true, End), false) == Parsed(Tree(e, symbols), End)
      && Assigned(Tree(e, symbols), nets, 1) == 1
  {
    var s := Binary(Add, Input(a, 1), Input(a, 1), 1);
    NarrowSum(values, symbols, nets, a);
    WideComparison(s, values, symbols, nets);
    var e := Binary(Eq, s, Constant(2, 2), 1);
    assert Printable(s) && Printable(Constant(2, 2)) && Printable(e);
    PrintedTextReadsBack(e, symbols, false);
  }
}
