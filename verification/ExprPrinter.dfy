/** Expressions as trees, their text, and what they stand for. */
module ExprPrinter {
  import opened CString
  import opened Int64
  import opened Numerals
  import opened ExprText
  import opened ExprQuantity
  import opened ExprGrammar

  datatype Base = Decimal | Hexadecimal | Octal

  datatype Tree =
    | Num(value: nat, base: Base)
    | Sym(name: string)
    | Chr(c: char)
    | Par(inner: Tree)
    | Pre(unary: UnaryOperator, arg: Tree)
    | Bin(op: Operator, left: Tree, right: Tree)

  const OPERAND_RANK: nat := 11

  function TreeRank(t: Tree): (rank: nat)
    ensures 1 <= rank <= OPERAND_RANK
  {
    if t.Bin? then OpRank(t.op) else OPERAND_RANK
  }

  lemma DigitFacts(d: nat)
    requires d < 16
    ensures HexValue(Digit(d)) == d && IsPartOfName(Digit(d)) && (d < 10 ==> IsDigit(Digit(d)))
  {
  }

  function Radix(base: Base): (b: nat)
    ensures 2 <= b <= 16
  {
    match base
    case Decimal => 10
    case Hexadecimal => 16
    case Octal => 8
  }

  function Prefix(base: Base): string {
    match base
    case Decimal => ""
    case Hexadecimal => "0x"
    case Octal => "0"
  }

  function OpText(op: Operator): string {
    match op
    case Multiply => "*"
    case Divide => "/"
    case Modulus => "%"
    case Add => "+"
    case Subtract => "-"
    case RightShift => ">>"
    case LeftShift => "<<"
    case LessThan => "<"
    case GreaterThan => ">"
    case LessOrEqual => "<="
    case GreaterOrEqual => ">="
    case Equal => "=="
    case NotEqual => "!="
    case BitAnd => "&"
    case BitXor => "^"
    case BitOr => "|"
    case LogicalAnd => "&&"
    case LogicalOr => "||"
  }

  function UnaryText(op: UnaryOperator): char {
    match op
    case Minus => '-'
    case BitNot => '~'
    case LogicalNot => '!'
  }

  function Print(t: Tree): (s: string) {
    match t
    case Num(value, base) => Prefix(base) + Digits(value, Radix(base))
    case Sym(name) => name
    case Chr(c) => ['\'', c]
    case Par(inner) => "(" + Print(inner) + ")"
    case Pre(unary, arg) => [UnaryText(unary)] + Print(arg)
    case Bin(op, left, right) => Print(left) + OpText(op) + Print(right)
  }

  /** Constants short enough not to be taken for bignums, names that are
      symbols, and parentheses at least where the ranks require them: around a
      left operand of lower rank, a right operand of no higher rank, and any
      operand of a unary operator that is not an operand itself. */
  predicate Fits(t: Tree) {
    match t
    case Num(value, base) => |Digits(value, Radix(base))| < if base == Hexadecimal then 18 else 22
    case Sym(name) =>
      name != "" && name != "." && IsNameBeginner(name[0]) && forall i :: 0 <= i < |name| ==> IsPartOfName(name[i])
    case Chr(c) => true
    case Par(inner) => Fits(inner)
    case Pre(unary, arg) => Fits(arg) && !arg.Bin?
    case Bin(op, left, right) =>
      Fits(left) && Fits(right) && TreeRank(left) >= OpRank(op) && TreeRank(right) > OpRank(op)
  }

  /** What a tree stands for, after the warnings given before it. */
  function Eval(symbols: Symbols, t: Tree, warnings: seq<Warning>): Outcome {
    match t
    case Num(value, _) => Outcome(Constantly(Wrap(value)), warnings)
    case Sym(name) => Outcome(SymbolQuantity(symbols, name), warnings)
    case Chr(c) => Outcome(Constantly(SignedChar(c)), warnings)
    case Par(inner) => Tidy(Whole(symbols, Eval(symbols, inner, warnings)))
    case Pre(unary, arg) => Tidy(Unary(unary, Eval(symbols, arg, warnings)))
    case Bin(op, left, right) =>
      var l := Eval(symbols, left, warnings);
      Combined(symbols, op, l.q, Eval(symbols, right, l.warnings))
  }

  function Tidy(o: Outcome): Outcome {
    Outcome(CleanedUp(o.q), o.warnings)
  }

  /** A character that continues no constant or name. */
  predicate Delimits(c: char) {
    !IsPartOfName(c) && c != ' '
  }

  lemma AtIndex(text: string, pos: nat, s: string, i: nat)
    requires At(text, pos, s) && i < |s|
    ensures pos + i < |text| && CharAt(text, pos + i) == s[i]
  {
    assert text[pos..pos + |s|][i] == text[pos + i];
  }

  /** How an operand may start: nothing that could belong to an operator. */
  lemma {:induction false} FirstChar(t: Tree)
    requires Fits(t)
    ensures Print(t) != "" && Print(t)[0] !in "<>=&| "
  {
    match t
    case Num(value, base) => DigitsAreDigits(value, Radix(base), 0);
    case Sym(name) =>
    case Chr(c) =>
    case Par(inner) =>
    case Pre(unary, arg) =>
    case Bin(op, left, right) => FirstChar(left);
  }

  lemma {:induction false} DigitsAreDigits(n: nat, b: nat, i: nat)
    requires 2 <= b <= 16 && i < |Digits(n, b)|
    ensures HexValue(Digits(n, b)[i]) < b && IsPartOfName(Digits(n, b)[i])
    ensures n > 0 && i == 0 ==> HexValue(Digits(n, b)[i]) > 0
    ensures b <= 10 ==> IsDigit(Digits(n, b)[i])
  {
    hide Digit, HexValue, IsPartOfName;
    if n < b {
      DigitFacts(n);
    } else {
      DigitSplit(n, b);
      DigitFacts(n % b);
      if i < |Digits(n / b, b)| {
        DigitsAreDigits(n / b, b, i);
      }
    }
  }

  /** Reading a constant back gives its value in 64 bits. */
  lemma {:induction false} NumberReadBack(text: string, pos: nat, n: nat, b: nat)
    requires 2 <= b <= 16 && At(text, pos, Digits(n, b))
    ensures NumberIn(text, pos, pos + |Digits(n, b)|, b) == Wrap(n)
  {
    hide Wrap, Digit, HexValue;
    var end := pos + |Digits(n, b)|;
    AtIndex(text, pos, Digits(n, b), |Digits(n, b)| - 1);
    if n < b {
      DigitFacts(n);
      assert NumberIn(text, pos, end - 1, b) == 0;
      WrapStep(0, b, n);
      WrapZero();
    } else {
      DigitSplit(n, b);
      DigitFacts(n % b);
      AtAppend(text, pos, Digits(n / b, b), [Digit(n % b)]);
      NumberReadBack(text, pos, n / b, b);
      WrapStep(n / b, b, n % b);
    }
  }

  lemma WrapZero()
    ensures Wrap(0) == 0
  {
  }

  lemma WrapStep(x: int, b: int, d: int)
    ensures Wrap(Wrap(Wrap(x) * b) + d) == Wrap(x * b + d)
  {
    var y := Wrap(x) * b;
    var k := (Wrap(x) - x) / MODULUS;
    assert Wrap(x) == x + k * MODULUS;
    assert y == x * b + (k * b) * MODULUS;
    WrapShift(x * b + d, k * b);
    var m := (Wrap(y) - y) / MODULUS;
    assert Wrap(y) == y + m * MODULUS;
    WrapShift(y + d, m);
  }

  lemma WrapShift(x: int, k: int)
    ensures Wrap(x + k * MODULUS) == Wrap(x)
  {
  }

  lemma {:induction false} RunOfDigits(text: string, pos: nat, s: string, maxDigit: nat)
    requires maxDigit <= 16 && At(text, pos, s)
    requires forall i :: 0 <= i < |s| ==> HexValue(s[i]) < maxDigit
    requires HexValue(CharAt(text, pos + |s|)) >= maxDigit
    ensures DigitRun(text, pos, maxDigit) == pos + |s|
    decreases |s|
  {
    if s != "" {
      AtIndex(text, pos, s, 0);
      assert s == [s[0]] + s[1..];
      AtAppend(text, pos, [s[0]], s[1..]);
      RunOfDigits(text, pos + 1, s[1..], maxDigit);
    }
  }

  lemma {:induction false} RunOfName(text: string, pos: nat, s: string)
    requires At(text, pos, s)
    requires forall i :: 0 <= i < |s| ==> IsPartOfName(s[i])
    requires !IsPartOfName(CharAt(text, pos + |s|))
    ensures NameEnd(text, pos) == pos + |s|
    decreases |s|
  {
    if s != "" {
      AtIndex(text, pos, s, 0);
      assert s == [s[0]] + s[1..];
      AtAppend(text, pos, [s[0]], s[1..]);
      RunOfName(text, pos + 1, s[1..]);
    }
  }

  lemma OperatorReadBack(text: string, pos: nat, op: Operator)
    requires At(text, pos, OpText(op)) && CharAt(text, pos + |OpText(op)|) !in "<>=&| "
    ensures OpAt(text, pos) == Operation(op) && OpSize(op) == |OpText(op)|
    ensures Delimits(CharAt(text, pos))
  {
    AtIndex(text, pos, OpText(op), 0);
    if |OpText(op)| == 2 {
      AtIndex(text, pos, OpText(op), 1);
    }
  }
}
