/** The printed expressions mean what the interpreter computes, under the expression
    bit-length rules of IEEE 1800-2017 section 11.6. */
module SvSemantics {
  import opened Bits
  import opened FifoLogic
  import opened SvSyntax
  import opened Modular

  /** Declared widths and current (unsigned) values of the nets. */
  datatype Nets = Nets(width: map<Name, nat>, value: map<Name, nat>)

  function Max(a: nat, b: nat): nat {
    if a < b then b else a
  }

  /** The width of an expression that no context widens. */
  function SelfWidth(e: Sv, nets: Nets): nat {
    match e
    case Ident(name) => if name in nets.width then nets.width[name] else 1
    case Sized(width, _) => width
    case Literal1 => 32
    case LogicalNot(_) => 1
    case Casted(width, _) => width
    case Infixed(op, left, right) =>
      match op
      case Caret => Max(SelfWidth(left, nets), SelfWidth(right, nets))
      case Plus => Max(SelfWidth(left, nets), SelfWidth(right, nets))
      case ShiftRight => SelfWidth(left, nets)
      case _ => 1
  }

  /** The width the context of `width` bits gives the left (or else the right) operand.
      Arithmetic and bitwise operands take on the width of the context; comparisons use
      the wider of their two operands; logical operands and shift counts are on their own. */
  function OperandWidth(op: Operator, isLeft: bool, left: nat, right: nat, width: nat): nat {
    match op
    case Caret => width
    case Plus => width
    case ShiftRight => if isLeft then width else right
    case Equal => Max(left, right)
    case NotEqual => Max(left, right)
    case LogicalAnd => if isLeft then left else right
    case LogicalOr => if isLeft then left else right
  }

  function Quotient(x: nat, d: nat): nat
    requires d >= 1
  {
    x / d
  }

  function Remainder(x: nat, d: nat): nat
    requires d >= 1
  {
    x % d
  }

  function ApplySv(op: Operator, x: nat, y: nat, width: nat): nat {
    match op
    case LogicalAnd => FromBool(x != 0 && y != 0)
    case LogicalOr => FromBool(x != 0 || y != 0)
    case Equal => FromBool(x == y)
    case NotEqual => FromBool(x != y)
    case Caret => Bits.Xor(x, y)
    case Plus => Remainder(x + y, Pow2(width))
    case ShiftRight => Quotient(x, Pow2(y))
  }

  /** The value of an expression whose context gives it `width` bits. */
  function ValueAt(e: Sv, nets: Nets, width: nat): nat
    decreases e
  {
    match e
    case Ident(name) => if name in nets.value then nets.value[name] else 0
    case Sized(w, value) => value % Pow2(w)
    case Literal1 => 1
    case LogicalNot(arg) => FromBool(ValueAt(arg, nets, SelfWidth(arg, nets)) == 0)
    case Casted(w, arg) => ValueAt(arg, nets, SelfWidth(arg, nets)) % Pow2(w)
    case Infixed(op, left, right) =>
      var l, r := SelfWidth(left, nets), SelfWidth(right, nets);
      ApplySv(op, ValueAt(left, nets, OperandWidth(op, true, l, r, width)),
        ValueAt(right, nets, OperandWidth(op, false, l, r, width)), width)
  }

  /** What a net of `width` bits gets from a continuous assignment of `e`. */
  function Assigned(e: Sv, nets: Nets, width: nat): nat {
    ValueAt(e, nets, Max(width, SelfWidth(e, nets))) % Pow2(width)
  }

  /** Node widths agree with operand widths the way the rendered operators need. */
  predicate WidthConsistent(e: Logic) {
    match e
    case Input(_, _) => true
    case Constant(value, width) => value >= 0 && width > 0
    case Not(arg, width) => width == 1 && WidthConsistent(arg)
    case Gray(arg, width) => arg.width == width && WidthConsistent(arg)
    case Binary(op, left, right, width) =>
      && WidthConsistent(left) && WidthConsistent(right)
      && (match op
          case And => width == 1
          case Or => width == 1
          case Eq => width == 1 && left.width == right.width
          case Ne => width == 1 && left.width == right.width
          case Xor => left.width == width && right.width == width
          case Add => left.width == width && width > 0)
    case Unsupported(_, _, _) => false
  }

  /** The nets carry the values the interpreter reads: directly, or through a one-bit
      port of the opposite sense. */
  predicate Carried(e: Logic, symbols: Symbols, values: Values, nets: Nets) {
    match e
    case Input(name, width) =>
      var net := if name in symbols then Port(symbols[name].text) else Own(name);
      && name in values && net in nets.width && net in nets.value
      && nets.width[net] == width
      && (if name in symbols && symbols[name].inverted then
            width == 1 && FromBool(nets.value[net] == 0) == values[name] % 2
          else nets.value[net] == values[name] % Pow2(width))
    case Constant(_, _) => true
    case Not(arg, _) => Carried(arg, symbols, values, nets)
    case Gray(arg, _) => Carried(arg, symbols, values, nets)
    case Binary(_, left, right, _) =>
      Carried(left, symbols, values, nets) && Carried(right, symbols, values, nets)
    case Unsupported(_, _, _) => false
  }

  lemma ConsistentIsSupported(e: Logic)
    requires WidthConsistent(e)
    ensures Supported(e) && Printable(e)
  {
  }

  /** The tree of `e` has the width of `e` and, at that width, the value of `e`. */
  ghost predicate Agrees(e: Logic, symbols: Symbols, values: Values, nets: Nets)
    requires Supported(e)
  {
    SelfWidth(Tree(e, symbols), nets) == e.width &&
    Evaluate(e, values) == Ok(ValueAt(Tree(e, symbols), nets, e.width))
  }

  lemma {:induction false} TreeAgrees(e: Logic, symbols: Symbols, values: Values, nets: Nets)
    requires WidthConsistent(e) && Carried(e, symbols, values, nets)
    ensures Supported(e) && Agrees(e, symbols, values, nets)
    decreases e
  {
    ConsistentIsSupported(e);
    match e
    case Input(_, _) => InputAgrees(e, symbols, values, nets);
    case Constant(_, _) =>
    case Not(arg, _) =>
      TreeAgrees(arg, symbols, values, nets);
      NotAgrees(e, symbols, values, nets);
    case Gray(arg, width) =>
      TreeAgrees(arg, symbols, values, nets);
      GrayAgrees(e, symbols, values, nets);
    case Binary(op, left, right, width) =>
      TreeAgrees(left, symbols, values, nets);
      TreeAgrees(right, symbols, values, nets);
      BinaryAgrees(e, symbols, values, nets);
  }

  lemma InputAgrees(e: Logic, symbols: Symbols, values: Values, nets: Nets)
    requires e.Input? && Carried(e, symbols, values, nets)
    ensures Agrees(e, symbols, values, nets)
  {
    assert Pow2(1) == 2;
  }

  lemma NotAgrees(e: Logic, symbols: Symbols, values: Values, nets: Nets)
    requires Supported(e) && WidthConsistent(e) && e.Not? && Agrees(e.arg, symbols, values, nets)
    ensures Agrees(e, symbols, values, nets)
  {
    assert Pow2(1) == 2;
  }

  lemma GrayAgrees(e: Logic, symbols: Symbols, values: Values, nets: Nets)
    requires Supported(e) && WidthConsistent(e) && e.Gray? && Agrees(e.arg, symbols, values, nets)
    ensures Agrees(e, symbols, values, nets)
  {
    var x := Evaluate(e.arg, values).value;
    GrayBound(x, e.width);
    SmallMod(Bits.Gray(x), Pow2(e.width));
    assert Pow2(1) == 2;
    var t := Tree(e.arg, symbols);
    assert ValueAt(Infixed(ShiftRight, t, Literal1), nets, e.width) == x / 2;
  }

  /** The widths at which the operands of a consistent node are evaluated are their own. */
  lemma OperandsAtOwnWidth(e: Logic, symbols: Symbols, values: Values, nets: Nets)
    requires Supported(e) && WidthConsistent(e) && e.Binary?
    requires Agrees(e.left, symbols, values, nets) && Agrees(e.right, symbols, values, nets)
    ensures var x, y := Evaluate(e.left, values).value, Evaluate(e.right, values).value;
      ValueAt(Tree(e, symbols), nets, e.width) ==
      ApplySv(SvOperator(e.op), x, if e.op == Add then y % Pow2(e.width) else y, e.width)
    ensures SelfWidth(Tree(e, symbols), nets) == e.width
  {
    var l, r := Tree(e.left, symbols), Tree(e.right, symbols);
    if e.op == Add {
      SumAtOwnWidth(l, r, nets, e.width);
    } else {
      OthersAtOwnWidth(SvOperator(e.op), l, r, nets, e.left.width, e.right.width, e.width);
    }
  }

  lemma SumAtOwnWidth(l: Sv, r: Sv, nets: Nets, width: nat)
    requires SelfWidth(l, nets) == width
    ensures SelfWidth(Infixed(Plus, l, Casted(width, r)), nets) == width
    ensures ValueAt(Infixed(Plus, l, Casted(width, r)), nets, width) ==
      ApplySv(Plus, ValueAt(l, nets, width), ValueAt(r, nets, SelfWidth(r, nets)) % Pow2(width), width)
  {
    InfixValue(Plus, l, Casted(width, r), nets, width, width, width);
  }

  lemma OthersAtOwnWidth(op: Operator, l: Sv, r: Sv, nets: Nets, left: nat, right: nat, width: nat)
    requires SelfWidth(l, nets) == left && SelfWidth(r, nets) == right && op != Plus && op != ShiftRight
    requires if op == Caret then left == right == width else width == 1
    requires op == Equal || op == NotEqual ==> left == right
    ensures SelfWidth(Infixed(op, l, r), nets) == width
    ensures ValueAt(Infixed(op, l, r), nets, width) ==
      ApplySv(op, ValueAt(l, nets, left), ValueAt(r, nets, right), width)
  {
    InfixValue(op, l, r, nets, left, right, width);
  }

  lemma InfixValue(op: Operator, l: Sv, r: Sv, nets: Nets, left: nat, right: nat, width: nat)
    requires SelfWidth(l, nets) == left && SelfWidth(r, nets) == right
    ensures ValueAt(Infixed(op, l, r), nets, width) ==
      ApplySv(op, ValueAt(l, nets, OperandWidth(op, true, left, right, width)),
        ValueAt(r, nets, OperandWidth(op, false, left, right, width)), width)
  {
  }

  lemma BinaryAgrees(e: Logic, symbols: Symbols, values: Values, nets: Nets)
    requires Supported(e) && WidthConsistent(e) && e.Binary?
    requires Agrees(e.left, symbols, values, nets) && Agrees(e.right, symbols, values, nets)
    ensures Agrees(e, symbols, values, nets)
  {
    var x, y := Evaluate(e.left, values).value, Evaluate(e.right, values).value;
    OperandsAtOwnWidth(e, symbols, values, nets);
    SameAtWidth(e.op, x, y, e.width);
  }

  lemma SameAtWidth(op: BinaryOp, x: nat, y: nat, width: nat)
    requires op == And || op == Or || op == Eq || op == Ne ==> width == 1
    requires op == Xor ==> x < Pow2(width) && y < Pow2(width)
    ensures ApplySv(SvOperator(op), x, if op == Add then y % Pow2(width) else y, width) ==
            Apply(op, x, y) % Pow2(width)
  {
    assert Pow2(1) == 2;
    match op
    case Xor =>
      XorBound(x, y, width);
      SmallMod(Bits.Xor(x, y), Pow2(width));
    case Add =>
      ModStep(y, Pow2(width), x);
    case _ =>
  }

  /** Printer correctness.  For a width-consistent expression, assigning its printed text
      to a net of its width gives that net what the interpreter computes. */
  lemma AssignmentMeansEvaluate(e: Logic, symbols: Symbols, values: Values, nets: Nets)
    requires WidthConsistent(e) && Carried(e, symbols, values, nets)
    ensures Supported(e)
    ensures var p := Parse(Print(e, symbols, true, End), false);
      p.Parsed? && Evaluate(e, values) == Ok(Assigned(p.tree, nets, e.width))
  {
    ConsistentIsSupported(e);
    PrintedTextReadsBack(e, symbols, false);
    TreeAgrees(e, symbols, values, nets);
    var x := Evaluate(e, values).value;
    SmallMod(x, Pow2(e.width));
  }
}
