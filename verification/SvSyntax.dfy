/** Printing controller expressions as SystemVerilog tokens, and reading them back
    with the operator precedence of IEEE 1800-2017 section 11.3.2. */
module SvSyntax {
  import opened FifoLogic

  datatype Name = Own(signal: Signal) | Port(text: string)

  /** What a signal is replaced by in the output: a port, possibly inverted the way an
      active-low reset is. */
  datatype Symbol = Symbol(inverted: bool, text: string)

  type Symbols = map<Signal, Symbol>

  datatype Operator = LogicalAnd | LogicalOr | Equal | NotEqual | Caret | Plus | ShiftRight

  type Positive = n: nat | n > 0 witness 1

  /** `Malformed` is text that forms no token: a sized number or a size cast of width zero, or
      a sized number with a sign among its digits. */
  datatype Token =
    | Identifier(name: Name)
    | SizedNumber(width: Positive, value: nat)
    | One
    | SizeCast(width: Positive)
    | Malformed
    | Bang
    | Infix(op: Operator)
    | Open
    | Close

  datatype Tokens = End | Then(head: Token, tail: Tokens)

  /** Syntax trees of the printed expressions. */
  datatype Sv =
    | Ident(name: Name)
    | Sized(width: nat, value: int)
    | Literal1
    | LogicalNot(arg: Sv)
    | Infixed(op: Operator, left: Sv, right: Sv)
    | Casted(width: nat, arg: Sv)

  // ------------------------------------------------------------- printing

  function SvOperator(op: BinaryOp): Operator {
    match op
    case And => LogicalAnd
    case Or => LogicalOr
    case Eq => Equal
    case Ne => NotEqual
    case Xor => Caret
    case Add => Plus
  }

  function PrintSignal(name: Signal, symbols: Symbols, k: Tokens): Tokens {
    if name !in symbols then Then(Identifier(Own(name)), k)
    else if symbols[name].inverted then Then(Bang, Then(Identifier(Port(symbols[name].text)), k))
    else Then(Identifier(Port(symbols[name].text)), k)
  }

  function PrintConstant(value: int, width: nat): Token {
    if width > 0 && value >= 0 then SizedNumber(width, value) else Malformed
  }

  function PrintCast(width: nat): Token {
    if width > 0 then SizeCast(width) else Malformed
  }

  /** The flag an operand is printed with. */
  function Inner(top: bool, arg: Logic): bool {
    top && arg.Not?
  }

  /** The tokens of `e`, followed by `k`.  Only a top-level expression, and a negation
      directly below one, is printed without its parentheses. */
  function Print(e: Logic, symbols: Symbols, top: bool, k: Tokens): Tokens
    requires Supported(e)
    decreases e
  {
    match e
    case Input(name, _) => PrintSignal(name, symbols, k)
    case Constant(value, width) => Then(PrintConstant(value, width), k)
    case Not(arg, _) =>
      if top then Then(Bang, Print(arg, symbols, Inner(top, arg), k))
      else Then(Open, Then(Bang, Print(arg, symbols, Inner(top, arg), Then(Close, k))))
    case Binary(op, left, right, width) =>
      if op == Add then
        var inside := Print(right, symbols, Inner(top, right), Then(Close, Then(Close, k)));
        var cast := Then(PrintCast(width), Then(Open, inside));
        Then(Open, Print(left, symbols, Inner(top, left), Then(Infix(Plus), cast)))
      else
        var after := Print(right, symbols, Inner(top, right), if top then k else Then(Close, k));
        var body := Print(left, symbols, Inner(top, left), Then(Infix(SvOperator(op)), after));
        if top then body else Then(Open, body)
    case Gray(arg, _) =>
      var second := Print(arg, symbols, Inner(top, arg), Then(Close, k));
      var by1 := Then(One, Then(Close, Then(Infix(Caret), second)));
      Then(Open, Then(Open, Print(arg, symbols, Inner(top, arg), Then(Infix(ShiftRight), by1))))
  }

  /** The operation at which printing stops: operands are printed before their node. */
  function FirstUnsupported(e: Logic): string
    requires !Supported(e)
    decreases e, 0
  {
    match e
    case Not(arg, _) => FirstUnsupported(arg)
    case Gray(arg, _) => FirstUnsupported(arg)
    case Binary(_, left, right, _) =>
      if !Supported(left) then FirstUnsupported(left) else FirstUnsupported(right)
    case Unsupported(text, operands, _) => FirstUnsupportedOf(operands, text)
  }

  function FirstUnsupportedOf(es: seq<Logic>, text: string): string
    decreases es
  {
    if es == [] then text
    else if !Supported(es[0]) then FirstUnsupported(es[0])
    else FirstUnsupportedOf(es[1..], text)
  }

  function RenderSv(e: Logic, symbols: Symbols): Result<Tokens> {
    if Supported(e) then Ok(Print(e, symbols, true, End))
    else Err(UnsupportedOperation(FirstUnsupported(e)))
  }

  /** The printer gives up at the operation that the interpreter gives up at, provided that
      all names have values. */
  lemma {:induction false} SameRefusal(e: Logic, values: Values)
    requires !Supported(e) && References(e) <= values.Keys
    ensures Evaluate(e, values) == Err(UnsupportedOperation(FirstUnsupported(e)))
    ensures RenderSv(e, map[]) == Err(UnsupportedOperation(FirstUnsupported(e)))
    decreases e, 1
  {
    match e
    case Not(arg, _) => SameRefusal(arg, values);
    case Gray(arg, _) => SameRefusal(arg, values);
    case Binary(_, left, right, _) =>
      if !Supported(left) {
        SameRefusal(left, values);
      } else {
        EvaluateSucceeds(left, values);
        SameRefusal(right, values);
      }
    case Unsupported(text, operands, _) =>
      assert forall o | o in operands :: References(o) <= References(e);
      SameRefusals(operands, text, values);
  }

  lemma {:induction false} SameRefusals(es: seq<Logic>, text: string, values: Values)
    requires forall o | o in es :: References(o) <= values.Keys
    ensures EvaluateAll(es, values).Ok? ==> FirstUnsupportedOf(es, text) == text
    ensures EvaluateAll(es, values).Err? ==>
      EvaluateAll(es, values).error == UnsupportedOperation(FirstUnsupportedOf(es, text))
    decreases es, 0
  {
    if es != [] {
      assert es[0] in es;
      EvaluateSucceeds(es[0], values);
      if !Supported(es[0]) {
        SameRefusal(es[0], values);
      }
      SameRefusals(es[1..], text, values);
    }
  }

  // -------------------------------------------------------------- parsing

  function Length(ts: Tokens): nat {
    match ts
    case End => 0
    case Then(_, tail) => 1 + Length(tail)
  }

  /** How tightly an infix operator binds. */
  function Precedence(op: Operator): nat {
    match op
    case Plus => 6
    case ShiftRight => 5
    case Equal => 4
    case NotEqual => 4
    case Caret => 3
    case LogicalAnd => 2
    case LogicalOr => 1
  }

  datatype Parsed = Parsed(tree: Sv, rest: Tokens) | Failed

  /** An operand.  The standard's grammar lets a unary operator apply to a primary only;
      when not `strict`, unary operators may be repeated, as common tools allow. */
  function ParseUnary(ts: Tokens, strict: bool): (p: Parsed)
    ensures p.Parsed? ==> Length(p.rest) < Length(ts)
    decreases Length(ts), 0
  {
    match ts
    case Then(Bang, tail) =>
      if strict && tail.Then? && tail.head == Bang then Failed
      else
        var p := ParseUnary(tail, strict);
        if p.Failed? then Failed else Parsed(LogicalNot(p.tree), p.rest)
    case Then(Identifier(name), tail) => Parsed(Ident(name), tail)
    case Then(SizedNumber(width, value), tail) => Parsed(Sized(width, value), tail)
    case Then(One, tail) => Parsed(Literal1, tail)
    case Then(Open, tail) => ParseGroup(tail, strict)
    case Then(SizeCast(width), Then(Open, tail)) =>
      assert Length(ts) == 1 + Length(ts.tail);
      var p := ParseGroup(tail, strict);
      if p.Failed? then Failed else Parsed(Casted(width, p.tree), p.rest)
    case _ => Failed
  }

  /** An expression up to its closing parenthesis. */
  function ParseGroup(ts: Tokens, strict: bool): (p: Parsed)
    ensures p.Parsed? ==> Length(p.rest) < Length(ts)
    decreases Length(ts), 3
  {
    var p := ParseExpression(ts, 1, strict);
    if p.Parsed? && p.rest.Then? && p.rest.head == Close then Parsed(p.tree, p.rest.tail) else Failed
  }

  /** Operands joined by operators that bind at least as tightly as `least`. */
  function ParseExpression(ts: Tokens, least: nat, strict: bool): (p: Parsed)
    ensures p.Parsed? ==> Length(p.rest) < Length(ts)
    decreases Length(ts), 2
  {
    var p := ParseUnary(ts, strict);
    if p.Failed? then Failed else ParseOperators(p.tree, p.rest, least, strict)
  }

  /** Continue a left operand; operators of one precedence associate to the left. */
  function ParseOperators(left: Sv, ts: Tokens, least: nat, strict: bool): (p: Parsed)
    ensures p.Parsed? ==> Length(p.rest) <= Length(ts)
    decreases Length(ts), 1
  {
    match ts
    case Then(Infix(op), tail) =>
      if Precedence(op) < least then Parsed(left, ts)
      else
        var p := ParseExpression(tail, Precedence(op) + 1, strict);
        if p.Failed? then Failed else ParseOperators(Infixed(op, left, p.tree), p.rest, least, strict)
    case _ => Parsed(left, ts)
  }

  function Parse(ts: Tokens, strict: bool): Parsed {
    var p := ParseExpression(ts, 1, strict);
    if p.Parsed? && p.rest == End then p else Failed
  }

  // ----------------------------------------------------- the intended tree

  function SignalTree(name: Signal, symbols: Symbols): Sv {
    if name !in symbols then Ident(Own(name))
    else if symbols[name].inverted then LogicalNot(Ident(Port(symbols[name].text)))
    else Ident(Port(symbols[name].text))
  }

  /** The tree an expression stands for, whatever parentheses it is printed with. */
  function Tree(e: Logic, symbols: Symbols): Sv
    requires Supported(e)
  {
    match e
    case Input(name, _) => SignalTree(name, symbols)
    case Constant(value, width) => Sized(width, value)
    case Not(arg, _) => LogicalNot(Tree(arg, symbols))
    case Binary(op, left, right, width) =>
      Infixed(SvOperator(op), Tree(left, symbols),
        if op == Add then Casted(width, Tree(right, symbols)) else Tree(right, symbols))
    case Gray(arg, _) =>
      Infixed(Caret, Infixed(ShiftRight, Tree(arg, symbols), Literal1), Tree(arg, symbols))
  }

  /** The printed text begins with a negation operator. */
  predicate StartsNegated(e: Logic, symbols: Symbols, top: bool) {
    (e.Not? && top) || (e.Input? && e.name in symbols && symbols[e.name].inverted)
  }

  /** Somewhere in the printed text one negation operator directly follows another. */
  predicate DoublesNegation(e: Logic, symbols: Symbols, top: bool) {
    match e
    case Not(arg, _) =>
      StartsNegated(arg, symbols, Inner(top, arg)) || DoublesNegation(arg, symbols, Inner(top, arg))
    case Binary(_, left, right, _) =>
      DoublesNegation(left, symbols, Inner(top, left)) || DoublesNegation(right, symbols, Inner(top, right))
    case Gray(arg, _) => DoublesNegation(arg, symbols, Inner(top, arg))
    case _ => false
  }

  /** No constant is negative, and no constant or sum has width zero. */
  predicate Printable(e: Logic) {
    match e
    case Constant(value, width) => value >= 0 && width > 0
    case Not(arg, _) => Printable(arg)
    case Gray(arg, _) => Printable(arg)
    case Binary(op, left, right, width) => (op == Add ==> width > 0) && Printable(left) && Printable(right)
    case _ => true
  }

  /** Parsing `ts` gives the tree of `e` and leaves `k`, unless it is refused. */
  ghost predicate Reads(p: Parsed, e: Logic, symbols: Symbols, refused: bool, k: Tokens)
    requires Supported(e)
  {
    p == if refused then Failed else Parsed(Tree(e, symbols), k)
  }

  predicate Refused(e: Logic, symbols: Symbols, top: bool, strict: bool) {
    !Printable(e) || (strict && DoublesNegation(e, symbols, top))
  }

  /** The expression is printed as a single operand. */
  predicate SingleOperand(e: Logic, top: bool) {
    top && e.Binary? ==> e.op == Add
  }

  // --------------------------------------------------------------- proofs

  lemma PrintStart(e: Logic, symbols: Symbols, top: bool, k: Tokens)
    requires Supported(e) && SingleOperand(e, top)
    ensures var ts := Print(e, symbols, top, k); ts.Then? && (ts.head == Bang <==> StartsNegated(e, symbols, top))
  {
  }

  /** No operator follows. */
  predicate Stops(k: Tokens) {
    k == End || k.head == Close
  }

  /** An operand followed by the end of its expression. */
  lemma OperandAlone(p: Parsed, ts: Tokens, least: nat, strict: bool)
    requires ParseUnary(ts, strict) == p && (p.Parsed? ==> Stops(p.rest))
    ensures ParseExpression(ts, least, strict) == p
  {
  }

  /** A parenthesised expression, alone or under a size cast. */
  lemma GroupOperand(p: Parsed, inside: Tokens, width: Positive, k: Tokens, strict: bool)
    requires ParseExpression(inside, 1, strict) == p && (p.Parsed? ==> p.rest == Then(Close, k))
    ensures ParseUnary(Then(Open, inside), strict) == if p.Failed? then Failed else Parsed(p.tree, k)
    ensures ParseUnary(Then(SizeCast(width), Then(Open, inside)), strict) ==
            if p.Failed? then Failed else Parsed(Casted(width, p.tree), k)
  {
  }

  /** What a size cast of the given width reads as. */
  lemma CastOperand(p: Parsed, inside: Tokens, width: nat, k: Tokens, strict: bool)
    requires ParseUnary(inside, strict) == p && (p.Parsed? ==> p.rest == Then(Close, k))
    ensures ParseUnary(Then(PrintCast(width), Then(Open, inside)), strict) ==
            if width == 0 || p.Failed? then Failed else Parsed(Casted(width, p.tree), k)
  {
    OperandAlone(p, inside, 1, strict);
    if width > 0 {
      GroupOperand(p, inside, width, k, strict);
    }
  }

  /** Two operands around one operator. */
  lemma TwoOperands(l: Parsed, op: Operator, r: Parsed, ts: Tokens, right: Tokens, strict: bool)
    requires ParseUnary(ts, strict) == l && (l.Parsed? ==> l.rest == Then(Infix(op), right))
    requires ParseUnary(right, strict) == r && (r.Parsed? ==> Stops(r.rest))
    ensures ParseExpression(ts, 1, strict) ==
            if l.Failed? || r.Failed? then Failed else Parsed(Infixed(op, l.tree, r.tree), r.rest)
  {
    if l.Parsed? {
      OperandAlone(r, right, Precedence(op) + 1, strict);
      assert ParseExpression(ts, 1, strict) == ParseOperators(l.tree, Then(Infix(op), right), 1, strict);
      assert Precedence(op) >= 1;
      if r.Parsed? {
        assert ParseOperators(Infixed(op, l.tree, r.tree), r.rest, 1, strict)
            == Parsed(Infixed(op, l.tree, r.tree), r.rest);
      }
    }
  }

  /** An expression printed as a single operand is read back as one. */
  lemma {:induction false} ReadsOperand(e: Logic, symbols: Symbols, top: bool, strict: bool, k: Tokens)
    requires Supported(e) && SingleOperand(e, top)
    ensures Reads(ParseUnary(Print(e, symbols, top, k), strict), e, symbols, Refused(e, symbols, top, strict), k)
    decreases e, 1
  {
    match e
    case Input(_, _) =>
    case Constant(_, _) =>
    case Not(arg, _) =>
      ReadsNot(e, symbols, top, strict, k);
    case Gray(arg, _) =>
      ReadsGray(e, symbols, top, strict, k);
    case Binary(op, _, _, _) =>
      if op == Add {
        ReadsAdd(e, symbols, top, strict, k);
      } else {
        ReadsInfix(e, symbols, top, strict, Then(Close, k));
      }
  }

  lemma {:induction false} ReadsNot(e: Logic, symbols: Symbols, top: bool, strict: bool, k: Tokens)
    requires Supported(e) && e.Not?
    ensures Reads(ParseUnary(Print(e, symbols, top, k), strict), e, symbols, Refused(e, symbols, top, strict), k)
    decreases e, 0
  {
    var inner, after := Inner(top, e.arg), if top then k else Then(Close, k);
    ReadsOperand(e.arg, symbols, inner, strict, after);
    PrintStart(e.arg, symbols, inner, after);
    if !top {
      var body := Then(Bang, Print(e.arg, symbols, inner, after));
      OperandAlone(ParseUnary(body, strict), body, 1, strict);
    }
  }

  lemma {:induction false} ReadsAdd(e: Logic, symbols: Symbols, top: bool, strict: bool, k: Tokens)
    requires Supported(e) && e.Binary? && e.op == Add
    ensures Reads(ParseUnary(Print(e, symbols, top, k), strict), e, symbols, Refused(e, symbols, top, strict), k)
    decreases e, 0
  {
    var after := Then(Close, Then(Close, k));
    var inside := Print(e.right, symbols, Inner(top, e.right), after);
    ReadsOperand(e.right, symbols, Inner(top, e.right), strict, after);
    var cast := Then(PrintCast(e.width), Then(Open, inside));
    var left := Print(e.left, symbols, Inner(top, e.left), Then(Infix(Plus), cast));
    ReadsOperand(e.left, symbols, Inner(top, e.left), strict, Then(Infix(Plus), cast));
    SumText(ParseUnary(left, strict), ParseUnary(inside, strict), left, inside, e.width, k, strict);
  }

  /** The text of a sum, given how its operands read. */
  lemma SumText(l: Parsed, r: Parsed, left: Tokens, inside: Tokens, width: nat, k: Tokens, strict: bool)
    requires ParseUnary(left, strict) == l && ParseUnary(inside, strict) == r
    requires r.Parsed? ==> r.rest == Then(Close, Then(Close, k))
    requires l.Parsed? ==> l.rest == Then(Infix(Plus), Then(PrintCast(width), Then(Open, inside)))
    ensures ParseUnary(Then(Open, left), strict) ==
            if l.Failed? || r.Failed? || width == 0 then Failed
            else Parsed(Infixed(Plus, l.tree, Casted(width, r.tree)), k)
  {
    var cast := Then(PrintCast(width), Then(Open, inside));
    CastOperand(r, inside, width, Then(Close, k), strict);
    TwoOperands(l, Plus, ParseUnary(cast, strict), left, cast, strict);
    GroupOperand(ParseExpression(left, 1, strict), left, 1, k, strict);
  }

  lemma {:induction false} ReadsGray(e: Logic, symbols: Symbols, top: bool, strict: bool, k: Tokens)
    requires Supported(e) && e.Gray?
    ensures Reads(ParseUnary(Print(e, symbols, top, k), strict), e, symbols, Refused(e, symbols, top, strict), k)
    decreases e, 0
  {
    var inner, arg := Inner(top, e.arg), e.arg;
    var second := Print(arg, symbols, inner, Then(Close, k));
    ReadsOperand(arg, symbols, inner, strict, Then(Close, k));
    var by1 := Then(One, Then(Close, Then(Infix(Caret), second)));
    var first := Print(arg, symbols, inner, Then(Infix(ShiftRight), by1));
    ReadsOperand(arg, symbols, inner, strict, Then(Infix(ShiftRight), by1));
    GrayText(ParseUnary(first, strict), ParseUnary(second, strict), first, second, k, strict);
  }

  /** The text of a Gray code, given how its two operands read. */
  lemma GrayText(f: Parsed, s: Parsed, first: Tokens, second: Tokens, k: Tokens, strict: bool)
    requires ParseUnary(first, strict) == f && ParseUnary(second, strict) == s
    requires f.Parsed? ==> f.rest == Then(Infix(ShiftRight), Then(One, Then(Close, Then(Infix(Caret), second))))
    requires s.Parsed? ==> s.rest == Then(Close, k)
    ensures ParseUnary(Then(Open, Then(Open, first)), strict) ==
            if f.Failed? || s.Failed? then Failed
            else Parsed(Infixed(Caret, Infixed(ShiftRight, f.tree, Literal1), s.tree), k)
  {
    var by1 := Then(One, Then(Close, Then(Infix(Caret), second)));
    TwoOperands(f, ShiftRight, ParseUnary(by1, strict), first, by1, strict);
    var group := Then(Open, first);
    GroupOperand(ParseExpression(first, 1, strict), first, 1, Then(Infix(Caret), second), strict);
    TwoOperands(ParseUnary(group, strict), Caret, s, group, second, strict);
    GroupOperand(ParseExpression(group, 1, strict), group, 1, k, strict);
  }

  /** A binary expression other than an addition, read without its parentheses. */
  lemma {:induction false} ReadsInfix(e: Logic, symbols: Symbols, top: bool, strict: bool, k: Tokens)
    requires Supported(e) && e.Binary? && e.op != Add && Stops(k)
    ensures Reads(ParseExpression(
      Print(e.left, symbols, Inner(top, e.left), Then(Infix(SvOperator(e.op)),
        Print(e.right, symbols, Inner(top, e.right), k))), 1, strict),
      e, symbols, Refused(e, symbols, top, strict), k)
    decreases e, 0
  {
    var right := Print(e.right, symbols, Inner(top, e.right), k);
    var after := Then(Infix(SvOperator(e.op)), right);
    var left := Print(e.left, symbols, Inner(top, e.left), after);
    ReadsOperand(e.left, symbols, Inner(top, e.left), strict, after);
    ReadsOperand(e.right, symbols, Inner(top, e.right), strict, k);
    TwoOperands(ParseUnary(left, strict), SvOperator(e.op), ParseUnary(right, strict), left, right, strict);
  }

  /** Printing loses nothing: under the precedence rules the text of an expression reads back
      as its own tree, in spite of the parentheses left out, exactly when no constant is
      negative and no constant or sum has width zero.  Under the strict grammar, moreover, no
      negation may directly follow another. */
  lemma PrintedTextReadsBack(e: Logic, symbols: Symbols, strict: bool)
    requires Supported(e)
    ensures RenderSv(e, symbols) == Ok(Print(e, symbols, true, End))
    ensures Parse(Print(e, symbols, true, End), strict) ==
            if Printable(e) && !(strict && DoublesNegation(e, symbols, true)) then Parsed(Tree(e, symbols), End)
            else Failed
  {
    var ts := Print(e, symbols, true, End);
    if e.Binary? && e.op != Add {
      ReadsInfix(e, symbols, true, strict, End);
    } else {
      ReadsOperand(e, symbols, true, strict, End);
      OperandAlone(ParseUnary(ts, strict), ts, 1, strict);
    }
  }
}
