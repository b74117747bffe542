/** Expression results: symbol - symbol + number, and how two are combined. */
module ExprQuantity {
  import opened Int64
  import opened ExprText

  datatype Segment = Absolute | Section | Difference | Unknown | Absent | Big

  /** What is known of a symbol: undefined, at an address of a section, or
      equal to a constant. */
  datatype Kind = Undefined | InSection | Constant(value: int)

  type Symbols = map<string, Kind>

  function KindOf(symbols: Symbols, name: string): Kind {
    if name in symbols then symbols[name] else Undefined
  }

  function SegmentOf(kind: Kind): Segment {
    match kind
    case Undefined => Unknown
    case InSection => Section
    case Constant(_) => Absolute
  }

  datatype Symbol = None | Some(name: string)

  datatype Quantity = Quantity(add: Symbol, subtract: Symbol, number: int, segment: Segment)

  datatype Warning =
    | MissingOperand
    | LeftBig
    | RightBig
    | CannotRelocate
    | SymbolsForgotten(first: string, second: string)
    | RelocationError
    | DivisionByZero
    | MissingParenthesis
    | UnaryIgnored
    | TooHard(name: string)

  const NOTHING := Quantity(None, None, 0, Absent)

  function Zero(): Quantity {
    Quantity(None, None, 0, Absolute)
  }

  function CleanedUp(q: Quantity): Quantity {
    match q.segment
    case Absent => NOTHING
    case Big => q.(add := None, subtract := None)
    case Absolute => q.(add := None, subtract := None)
    case Section => q.(subtract := None)
    case Unknown => q.(subtract := None)
    case Difference => if q.subtract == q.add then Quantity(None, None, q.number, Absolute) else q
  }

  /** Two symbols in one place: what stays, in which segment; no segment when
      the combination cannot be relocated. */
  datatype Part = Part(symbol: Symbol, segment: Segment) | NoPart

  function ExprPart(symbols: Symbols, first: Symbol, second: Symbol): Part {
    if first.Some? && second.Some? then
      if KindOf(symbols, first.name).Undefined? || KindOf(symbols, second.name).Undefined? then NoPart
      else Part(None, Absolute)
    else if first.Some? then Part(first, SegmentOf(KindOf(symbols, first.name)))
    else if second.Some? then Part(second, SegmentOf(KindOf(symbols, second.name)))
    else Part(None, Absolute)
  }

  function PartWarnings(symbols: Symbols, first: Symbol, second: Symbol): seq<Warning> {
    if first.Some? && second.Some? && ExprPart(symbols, first, second).Part?
    then [SymbolsForgotten(first.name, second.name)] else []
  }

  /** A quantity, with the warnings given up to it. */
  datatype Outcome = Outcome(q: Quantity, warnings: seq<Warning>)

  function Warned(o: Outcome, w: Warning): Outcome {
    Outcome(o.q, o.warnings + [w])
  }

  function Negated(q: Quantity): Quantity {
    Quantity(q.subtract, q.add, Wrap(-q.number), if q.add.Some? then Difference else q.segment)
  }

  function Sum(symbols: Symbols, left: Outcome, right: Quantity): Outcome {
    var l, r := CleanedUp(left.q), CleanedUp(right);
    var part1, part2 := ExprPart(symbols, l.add, r.add), ExprPart(symbols, l.subtract, r.subtract);
    var warnings := left.warnings + PartWarnings(symbols, l.add, r.add)
                    + PartWarnings(symbols, l.subtract, r.subtract);
    var add, subtract := if part1.Part? then part1.symbol else None, if part2.Part? then part2.symbol else None;
    if part1.NoPart? || part2.NoPart? then
      Outcome(CleanedUp(Quantity(add, subtract, Wrap(r.number), Absolute)), warnings + [CannotRelocate])
    else
      var segment := if part2.segment == Absolute then part1.segment else Difference;
      Outcome(CleanedUp(Quantity(add, subtract, Wrap(l.number + r.number), segment)), warnings)
  }

  /** What an operator does with two constants. */
  function Calculate(op: Operator, x: int, y: int): (r: int) {
    match op
    case Multiply => Wrap(x * y)
    case Divide => if y == 0 then 0 else Quotient(x, y)
    case Modulus => if y == 0 then 0 else Remainder(x, y)
    case Add => Wrap(x + y)
    case Subtract => Wrap(x + Wrap(-y))
    case RightShift => ShiftRight(x, y)
    case LeftShift => ShiftLeft(x, y)
    case LessThan => Truth(x < y)
    case GreaterThan => Truth(x > y)
    case LessOrEqual => Truth(x <= y)
    case GreaterOrEqual => Truth(x >= y)
    case Equal => Truth(x == y)
    case NotEqual => Truth(x != y)
    case BitAnd => FromBits((i: nat) => Bit(x, i) && Bit(y, i))
    case BitXor => FromBits((i: nat) => Bit(x, i) != Bit(y, i))
    case BitOr => FromBits((i: nat) => Bit(x, i) || Bit(y, i))
    case LogicalAnd => Truth(x != 0 && y != 0)
    case LogicalOr => Truth(x != 0 || y != 0)
  }

  lemma ByZero(op: Operator, x: int)
    requires op == Divide || op == Modulus
    ensures Calculate(op, x, 0) == 0
  {
  }

  /** Every operator but + and - wants constants; a difference divided by two
      stays as it is. */
  function Applied(op: Operator, left: Outcome, right: Quantity): Outcome {
    var l := left.q;
    if l.segment == Unknown || right.segment == Unknown then
      Warned(Outcome(l.(segment := Absolute, number := 0), left.warnings), CannotRelocate)
    else if l.segment == Difference && right.segment == Absolute && op == Divide && right.number == 2 then left
    else if l.segment != Absolute || right.segment != Absolute then
      Warned(Outcome(Zero(), left.warnings), RelocationError)
    else
      var result := Outcome(Quantity(None, None, Calculate(op, l.number, right.number), Absolute), left.warnings);
      if op in {Divide, Modulus} && right.number == 0 then Warned(result, DivisionByZero) else result
  }

  /** Both operands, as far as they can be used. */
  datatype Operands = Operands(left: Quantity, right: Quantity, warnings: seq<Warning>)

  /** A missing right operand wipes out the left one. */
  function Usable(left: Quantity, right: Outcome): Operands {
    var missing := right.q.segment == Absent;
    var l := if missing then Zero() else left;
    var w1 := right.warnings + if missing then [MissingOperand] else [];
    var w2 := w1 + if l.segment == Big then [LeftBig] else [];
    var w3 := w2 + if right.q.segment == Big then [RightBig] else [];
    Operands(if l.segment == Big then Zero() else l, if right.q.segment == Big then Zero() else right.q, w3)
  }

  /** The left operand and the right one, joined by the operator; the warnings
      are those up to the end of the right operand. */
  function Combined(symbols: Symbols, op: Operator, left: Quantity, right: Outcome): Outcome {
    var u := Usable(left, right);
    if op == Subtract then Sum(symbols, Outcome(u.left, u.warnings), Negated(u.right))
    else if op == Add then Sum(symbols, Outcome(u.left, u.warnings), u.right)
    else Applied(op, Outcome(u.left, u.warnings), u.right)
  }

  datatype UnaryOperator = Minus | BitNot | LogicalNot

  function ApplyUnary(op: UnaryOperator, x: int): int {
    match op
    case Minus => Wrap(-x)
    case BitNot => Complement(x)
    case LogicalNot => Truth(x == 0)
  }

  function Unary(op: UnaryOperator, arg: Outcome): Outcome {
    var q := arg.q;
    if q.segment == Absolute then Outcome(q.(number := ApplyUnary(op, q.number)), arg.warnings)
    else if op == Minus && (q.segment == Section || q.segment == Unknown) then
      Outcome(Quantity(None, q.add, q.number, Difference), arg.warnings)
    else Warned(arg, UnaryIgnored)
  }

  function SymbolQuantity(symbols: Symbols, name: string): Quantity {
    match KindOf(symbols, name)
    case Constant(value) => Quantity(None, None, value, Absolute)
    case Undefined => Quantity(Some(name), None, 0, Unknown)
    case InSection => Quantity(Some(name), None, 0, Section)
  }

  /** What `expression` adds to `expr`. */
  predicate IsTooHard(symbols: Symbols, q: Quantity) {
    q.segment == Difference && q.add.None? && q.subtract.Some? && !KindOf(symbols, q.subtract.name).Undefined?
  }

  function Whole(symbols: Symbols, o: Outcome): Outcome {
    if IsTooHard(symbols, o.q) then Warned(o, TooHard(o.q.subtract.name)) else o
  }
}
