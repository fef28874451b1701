/** The width-aware expression language of the FIFO controller, its integer
    interpreter, and lists of equations evaluated in order. */
module FifoLogic {
  import opened Bits

  /** Names that controller equations read and define.  `Other` stands for every
      name the FIFO controller itself does not use. */
  datatype Signal =
    | SourceValid | DestinationReady | SourceReset | DestinationReset
    | WriteBinary | WriteGray | ReadGraySync2 | Full
    | ReadBinary | ReadGray | WriteGraySync2 | OutputValid
    | SourceReady | DestinationValid | Push | Pop
    | WriteBinaryNext | WriteGrayNext | ReadBinaryNext | ReadGrayNext
    | UnreadCurrent | UnreadNext | Prefetch | FullNext
    | Other(text: string)

  datatype BinaryOp = And | Or | Eq | Ne | Xor | Add

  datatype Logic =
    | Input(name: Signal, width: nat)
    | Constant(value: int, width: nat)
    | Not(arg: Logic, width: nat)
    | Gray(arg: Logic, width: nat)
    | Binary(op: BinaryOp, left: Logic, right: Logic, width: nat)
    | Unsupported(text: string, operands: seq<Logic>, width: nat)

  datatype Error =
    | UnavailableValue(name: Signal)
    | UnsupportedOperation(text: string)
    | PointerTooNarrow

  datatype Result<+T> = Ok(value: T) | Err(error: Error) {
    predicate IsFailure() {
      Err?
    }

    function PropagateFailure<U>(): Result<U>
      requires Err?
    {
      Err(error)
    }

    function Extract(): T
      requires Ok?
    {
      value
    }
  }

  type Values = map<Signal, int>

  function FromBool(b: bool): nat {
    if b then 1 else 0
  }

  /** What a binary operation yields before it is cut to the width of its node. */
  function Apply(op: BinaryOp, x: nat, y: nat): nat {
    match op
    case And => FromBool(x != 0 && y != 0)
    case Or => FromBool(x != 0 || y != 0)
    case Eq => FromBool(x == y)
    case Ne => FromBool(x != y)
    case Xor => Bits.Xor(x, y)
    case Add => x + y
  }

  /** The value of an expression, always cut to the width of its node.  All
      operands are evaluated before the operation is looked at. */
  function Evaluate(e: Logic, values: Values): (r: Result<nat>)
    ensures r.Ok? ==> r.value < Pow2(e.width)
    decreases e, 0
  {
    var modulus := Pow2(e.width);
    match e
    case Input(name, _) =>
      if name in values then Ok(values[name] % modulus) else Err(UnavailableValue(name))
    case Constant(value, _) => Ok(value % modulus)
    case Not(arg, _) =>
      var x :- Evaluate(arg, values);
      Ok(FromBool(x == 0) % modulus)
    case Gray(arg, _) =>
      var x :- Evaluate(arg, values);
      Ok(Bits.Gray(x) % modulus)
    case Binary(op, left, right, _) =>
      var x :- Evaluate(left, values);
      var y :- Evaluate(right, values);
      Ok(Apply(op, x, y) % modulus)
    case Unsupported(text, operands, _) =>
      var _ :- EvaluateAll(operands, values);
      Err(UnsupportedOperation(text))
  }

  function EvaluateAll(es: seq<Logic>, values: Values): Result<seq<nat>>
    decreases es
  {
    if es == [] then Ok([]) else
      var x :- Evaluate(es[0], values);
      var xs :- EvaluateAll(es[1..], values);
      Ok([x] + xs)
  }

  // ------------------------------------------------------- equation lists

  datatype Equation = Equation(name: Signal, logic: Logic)

  /** The equations in order, each seeing the values defined before it. */
  function Settle(equations: seq<Equation>, values: Values): Result<Values>
    decreases |equations|
  {
    if equations == [] then Ok(values) else
      var x :- Evaluate(equations[0].logic, values);
      Settle(equations[1..], values[equations[0].name := x])
  }

  /** The in-order loop over the equations. */
  method RunEquations(equations: seq<Equation>, inputs: Values) returns (r: Result<Values>)
    ensures r == Settle(equations, inputs)
  {
    var values := inputs;
    var i := 0;
    while i < |equations|
      invariant 0 <= i <= |equations|
      invariant Settle(equations, inputs) == Settle(equations[i..], values)
    {
      var x := Evaluate(equations[i].logic, values);
      assert equations[i..][0] == equations[i] && equations[i..][1..] == equations[i + 1..];
      if x.Err? {
        return Err(x.error);
      }
      values := values[equations[i].name := x.value];
      i := i + 1;
    }
    r := Ok(values);
  }

  /** The names an expression reads. */
  function References(e: Logic): set<Signal>
    decreases e, 0
  {
    match e
    case Input(name, _) => {name}
    case Constant(_, _) => {}
    case Not(arg, _) => References(arg)
    case Gray(arg, _) => References(arg)
    case Binary(_, left, right, _) => References(left) + References(right)
    case Unsupported(_, operands, _) => set o, n | o in operands && n in References(o) :: n
  }

  /** Every operation in the expression is one the interpreter knows. */
  predicate Supported(e: Logic) {
    match e
    case Input(_, _) => true
    case Constant(_, _) => true
    case Not(arg, _) => Supported(arg)
    case Gray(arg, _) => Supported(arg)
    case Binary(_, left, right, _) => Supported(left) && Supported(right)
    case Unsupported(_, _, _) => false
  }

  /** Each name is defined once and refers only to inputs or earlier names. */
  predicate Ordered(equations: seq<Equation>, known: set<Signal>)
    decreases |equations|
  {
    equations == [] ||
    (equations[0].name !in known &&
     References(equations[0].logic) <= known &&
     Supported(equations[0].logic) &&
     Ordered(equations[1..], known + {equations[0].name}))
  }

  function Names(equations: seq<Equation>): set<Signal> {
    set q | q in equations :: q.name
  }

  /** An environment that satisfies all equations at once, the way a set of
      continuous assignments does. */
  ghost predicate Solves(equations: seq<Equation>, inputs: Values, env: Values) {
    && env.Keys == inputs.Keys + Names(equations)
    && (forall n | n in inputs && n !in Names(equations) :: env[n] == inputs[n])
    && forall q | q in equations :: Evaluate(q.logic, env) == Ok(env[q.name])
  }

  lemma {:induction false} EvaluateOnReferences(e: Logic, a: Values, b: Values)
    requires Supported(e)
    requires References(e) <= a.Keys && References(e) <= b.Keys
    requires forall n | n in References(e) :: a[n] == b[n]
    ensures Evaluate(e, a) == Evaluate(e, b) && Evaluate(e, a).Ok?
  {
    match e
    case Input(_, _) =>
    case Constant(_, _) =>
    case Not(arg, _) => EvaluateOnReferences(arg, a, b);
    case Gray(arg, _) => EvaluateOnReferences(arg, a, b);
    case Binary(_, left, right, _) =>
      EvaluateOnReferences(left, a, b);
      EvaluateOnReferences(right, a, b);
  }

  /** An expression fails exactly when it uses an unknown operation or reads a
      name that has no value. */
  lemma {:induction false} EvaluateSucceeds(e: Logic, values: Values)
    ensures Evaluate(e, values).Ok? <==> Supported(e) && References(e) <= values.Keys
    decreases e
  {
    match e
    case Input(_, _) =>
    case Constant(_, _) =>
    case Not(arg, _) => EvaluateSucceeds(arg, values);
    case Gray(arg, _) => EvaluateSucceeds(arg, values);
    case Binary(_, left, right, _) =>
      EvaluateSucceeds(left, values);
      EvaluateSucceeds(right, values);
    case Unsupported(_, _, _) =>
  }

  /** Running an ordered list keeps its inputs and solves all its equations. */
  lemma {:induction false} SettleSolves(equations: seq<Equation>, inputs: Values)
    requires Ordered(equations, inputs.Keys)
    ensures Settle(equations, inputs).Ok?
    ensures Solves(equations, inputs, Settle(equations, inputs).value)
    ensures Names(equations) !! inputs.Keys
    decreases |equations|
  {
    if equations != [] {
      var q, rest := equations[0], equations[1..];
      EvaluateOnReferences(q.logic, inputs, inputs);
      var next := inputs[q.name := Evaluate(q.logic, inputs).value];
      assert next.Keys == inputs.Keys + {q.name};
      SettleSolves(rest, next);
      var env := Settle(rest, next).value;
      assert equations == [q] + rest;
      assert Names(equations) == {q.name} + Names(rest);
      EvaluateOnReferences(q.logic, inputs, env);
    }
  }

  /** Any environment that solves an ordered list is the one the loop computes. */
  lemma {:induction false} SolutionIsUnique(equations: seq<Equation>, inputs: Values, env: Values)
    requires Ordered(equations, inputs.Keys)
    requires Solves(equations, inputs, env)
    ensures Settle(equations, inputs) == Ok(env)
    decreases |equations|
  {
    SettleSolves(equations, inputs);
    if equations == [] {
      assert env == inputs;
    } else {
      var q, rest := equations[0], equations[1..];
      assert equations == [q] + rest;
      assert Names(equations) == {q.name} + Names(rest);
      EvaluateOnReferences(q.logic, inputs, env);
      var next := inputs[q.name := env[q.name]];
      assert next.Keys == inputs.Keys + {q.name};
      SettleSolves(rest, next);
      SolutionIsUnique(rest, next, env);
    }
  }

  lemma SettleSucceeds(equations: seq<Equation>, inputs: Values)
    requires Ordered(equations, inputs.Keys)
    ensures Settle(equations, inputs).Ok? && inputs.Keys <= Settle(equations, inputs).value.Keys
  {
    SettleSolves(equations, inputs);
  }

  /** Every equation holds of `env`. */
  ghost predicate Satisfied(equations: seq<Equation>, env: Values) {
    forall i: nat | i < |equations| :: Holding(equations, env, i)
  }

  ghost predicate Holding(equations: seq<Equation>, env: Values, i: nat)
    requires i < |equations|
  {
    equations[i].name in env && Evaluate(equations[i].logic, env) == Ok(env[equations[i].name])
  }

  /** An environment of the right names that keeps the inputs and satisfies the equations is
      what the loop computes. */
  lemma SatisfiedIsResult(equations: seq<Equation>, inputs: Values, result: Values, env: Values)
    requires Ordered(equations, inputs.Keys) && Settle(equations, inputs) == Ok(result)
    requires env.Keys == result.Keys && (forall n | n in inputs :: n in env && env[n] == inputs[n])
    requires Satisfied(equations, env)
    ensures env == result
  {
    SettleSolves(equations, inputs);
    forall q | q in equations
      ensures q.name in env && Evaluate(q.logic, env) == Ok(env[q.name])
    {
      var i: nat :| i < |equations| && equations[i] == q;
      assert Holding(equations, env, i);
    }
    SolutionIsUnique(equations, inputs, env);
  }

  /** Sequential evaluation and concurrent assignment agree: for an ordered list
      the loop's result is the one and only solution of the equations. */
  lemma {:induction false} SequentialIsConcurrent(equations: seq<Equation>, inputs: Values)
    requires Ordered(equations, inputs.Keys)
    ensures Settle(equations, inputs).Ok?
    ensures forall env :: Solves(equations, inputs, env) <==> Settle(equations, inputs) == Ok(env)
  {
    SettleSolves(equations, inputs);
    forall env | Solves(equations, inputs, env)
      ensures Settle(equations, inputs) == Ok(env)
    {
      SolutionIsUnique(equations, inputs, env);
    }
  }
}
