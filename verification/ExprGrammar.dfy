/** What a text reads as: the recursive structure of the expression parser. */
module ExprGrammar {
  import opened CString
  import opened ExprText
  import opened ExprQuantity

  /** A literal of a kind that is not modelled: what it stands for, and how
      many characters follow its first. */
  datatype Literal = Literal(q: Quantity, length: nat)

  datatype Input = Input(text: string, symbols: Symbols, literals: nat -> Literal)

  datatype Parsed = Parsed(q: Quantity, pos: nat, warnings: seq<Warning>)

  function Remaining(input: Input, pos: nat): nat {
    if pos < |input.text| then |input.text| - pos else 0
  }

  /** A bignum, a floating point constant or the number of a local label. */
  predicate IsOtherNumber(text: string, pos: nat) {
    var c, next := CharAt(text, pos), CharAt(text, pos + 1);
    IsDigit(c) &&
    if c == '0' && next in "bB" && HexValue(CharAt(text, pos + 2)) < 16 then true
    else if c == '0' && next in "fFdD" then true
    else
      var form := FormAt(text, pos);
      var end := DigitRun(text, form.start, form.maxDigit);
      end - form.start >= form.limit || CharAt(text, end) in "bf"
  }

  /** Also a quoted name, and `.` for the current location. */
  predicate IsOtherLiteral(text: string, pos: nat) {
    || IsOtherNumber(text, pos)
    || (CharAt(text, pos) == '.' && !IsPartOfName(CharAt(text, pos + 1)))
    || CharAt(text, pos) == '"'
  }

  function UnaryOpOf(c: char): UnaryOperator
    requires c in "~-!"
  {
    if c == '-' then Minus else if c == '~' then BitNot else LogicalNot
  }

  function Constantly(number: int): Quantity {
    Quantity(None, None, number, Absolute)
  }

  /** The operand at pos and a space on either side of it. */
  function ParseOperand(input: Input, pos: nat, warnings: seq<Warning>): (p: Parsed)
    ensures p.pos >= pos
    decreases Remaining(input, pos), 2
  {
    var p := OperandAt(input, SkipSpace(input.text, pos), warnings);
    Parsed(CleanedUp(p.q), SkipSpace(input.text, p.pos), p.warnings)
  }

  function OperandAt(input: Input, pos: nat, warnings: seq<Warning>): (p: Parsed)
    ensures p.pos >= pos
    decreases Remaining(input, pos), 1
  {
    var text := input.text;
    var c := CharAt(text, pos);
    if IsOtherLiteral(text, pos) then
      var literal := input.literals(pos);
      Parsed(literal.q, pos + 1 + literal.length, warnings)
    else if IsDigit(c) then
      var form := FormAt(text, pos);
      var end := DigitRun(text, form.start, form.maxDigit);
      Parsed(Constantly(NumberIn(text, form.start, end, form.radix)), SuffixEnd(text, end), warnings)
    else if IsNameBeginner(c) then
      var end := NameEnd(text, pos);
      Parsed(SymbolQuantity(input.symbols, NameAt(text, pos, end)), end, warnings)
    else if c == '(' then
      var inner := ParseExpr(input, pos + 1, 0, warnings);
      Closed(input, inner)
    else if c in "~-!" then
      var arg := ParseOperand(input, pos + 1, warnings);
      var o := Unary(UnaryOpOf(c), Outcome(arg.q, arg.warnings));
      Parsed(o.q, arg.pos, o.warnings)
    else if c == '\'' then
      Parsed(Constantly(SignedChar(CharAt(text, pos + 1))), pos + 2, warnings)
    else
      Parsed(NOTHING, pos, warnings)
  }

  function NameAt(text: string, pos: nat, end: nat): string
    requires pos <= end
  {
    if end <= |text| then text[pos..end] else ""
  }

  /** The parenthesis that should follow. */
  function Closed(input: Input, inner: Parsed): (p: Parsed)
    ensures p.pos >= inner.pos
  {
    var o := Whole(input.symbols, Outcome(inner.q, inner.warnings));
    if CharAt(input.text, inner.pos) == ')' then Parsed(o.q, inner.pos + 1, o.warnings)
    else Parsed(o.q, inner.pos, o.warnings + [MissingParenthesis])
  }

  function ParseExpr(input: Input, pos: nat, rank: nat, warnings: seq<Warning>): (p: Parsed)
    ensures p.pos >= pos
    decreases Remaining(input, pos), 3
  {
    Loop(input, ParseOperand(input, pos, warnings), rank)
  }

  /** The operators above a rank, each with its right operand, applied from
      left to right. */
  function Loop(input: Input, left: Parsed, rank: nat): (p: Parsed)
    ensures p.pos >= left.pos
    decreases Remaining(input, left.pos), 0
  {
    match OpAt(input.text, left.pos)
    case Illegal => left
    case Operation(op) =>
      if OpRank(op) <= rank then left
      else
        var right := ParseExpr(input, left.pos + OpSize(op), OpRank(op), left.warnings);
        Loop(input, Joined(input, op, left, right), rank)
  }

  function Joined(input: Input, op: Operator, left: Parsed, right: Parsed): (p: Parsed)
    ensures p.pos == right.pos
  {
    var o := Combined(input.symbols, op, left.q, Outcome(right.q, right.warnings));
    Parsed(o.q, right.pos, o.warnings)
  }

  /** Parsing to a rank stops, and before an operator of that rank or below. */
  lemma {:induction false} StopsBeforeLowerRank(input: Input, left: Parsed, rank: nat)
    ensures var next := OpAt(input.text, Loop(input, left, rank).pos);
      next.Operation? ==> OpRank(next.op) <= rank
    decreases Remaining(input, left.pos)
  {
    hide ParseExpr, Joined, OpAt;
    var next := OpAt(input.text, left.pos);
    if next.Operation? && OpRank(next.op) > rank {
      var right := ParseExpr(input, left.pos + OpSize(next.op), OpRank(next.op), left.warnings);
      StopsBeforeLowerRank(input, Joined(input, next.op, left, right), rank);
    }
  }
}
