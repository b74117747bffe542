/** The parser undoes the printer. */
module ExprTheorems {
  import opened CString
  import opened Int64
  import opened Numerals
  import opened ExprText
  import opened ExprQuantity
  import opened ExprGrammar
  import opened ExprPrinter

  function EndOf(t: Tree, pos: nat): nat {
    pos + |Print(t)|
  }

  function AsParsed(o: Outcome, pos: nat): Parsed {
    Parsed(o.q, pos, o.warnings)
  }

  /** The rank of the operator at pos, 0 if there is none. */
  function NextRank(text: string, pos: nat): nat {
    if OpAt(text, pos).Operation? then OpRank(OpAt(text, pos).op) else 0
  }

  lemma DelimitsFacts(c: char)
    requires Delimits(c)
    ensures HexValue(c) >= 16 && c !in "bfULxXBFdD" && !IsDigit(c)
  {
  }

  /** Where the digits of a constant are found, and what they are read as. */
  predicate ReadsAs(text: string, pos: nat, end: nat, base: Base, n: nat) {
    var form := FormAt(text, pos);
    && IsDigit(CharAt(text, pos)) && !(CharAt(text, pos) == '0' && CharAt(text, pos + 1) in "bBfFdD")
    && form.start <= end && DigitRun(text, form.start, form.maxDigit) == end
    && end - form.start <= |Digits(n, Radix(base))| && form.limit == (if base == Hexadecimal then 18 else 22)
    && NumberIn(text, form.start, end, form.radix) == Wrap(n)
  }

  lemma ConstantForm(text: string, pos: nat, n: nat, base: Base)
    requires At(text, pos, Prefix(base) + Digits(n, Radix(base)))
    requires Delimits(CharAt(text, pos + |Prefix(base)| + |Digits(n, Radix(base))|))
    ensures ReadsAs(text, pos, pos + |Prefix(base)| + |Digits(n, Radix(base))|, base, n)
  {
    hide Digits, HexValue, IsPartOfName, Wrap, NumberIn, DigitRun, Delimits;
    var b, p, s := Radix(base), Prefix(base), Digits(n, Radix(base));
    AtAppend(text, pos, p, s);
    DelimitsFacts(CharAt(text, pos + |p| + |s|));
    forall i | 0 <= i < |s| ensures HexValue(s[i]) < b && (b <= 10 ==> IsDigit(s[i])) {
      DigitsAreDigits(n, b, i);
    }
    if base == Decimal && n == 0 {
      ZeroForm(text, pos);
    } else {
      FormFound(text, pos, n, base);
      RunOfDigits(text, pos + |p|, s, FormAt(text, pos).maxDigit);
      NumberReadBack(text, pos + |p|, n, b);
    }
  }

  lemma FormFound(text: string, pos: nat, n: nat, base: Base)
    requires At(text, pos, Prefix(base) + Digits(n, Radix(base))) && (base == Decimal ==> n > 0)
    ensures FormAt(text, pos) == Form(Radix(base), if base == Hexadecimal then 16 else 10, pos + |Prefix(base)|,
                                      if base == Hexadecimal then 18 else 22)
    ensures IsDigit(CharAt(text, pos)) && !(CharAt(text, pos) == '0' && CharAt(text, pos + 1) in "bBfFdD")
  {
    hide Digits, IsPartOfName;
    var b, p, s := Radix(base), Prefix(base), Digits(n, Radix(base));
    AtAppend(text, pos, p, s);
    AtIndex(text, pos, p + s, 0);
    AtIndex(text, pos + |p|, s, 0);
    DigitsAreDigits(n, b, 0);
    if base == Hexadecimal {
      AtIndex(text, pos, p + s, 1);
    }
  }

  /** A plain 0 is taken for an octal constant without digits. */
  lemma ZeroForm(text: string, pos: nat)
    requires At(text, pos, Digits(0, 10)) && Delimits(CharAt(text, pos + |Digits(0, 10)|))
    ensures ReadsAs(text, pos, pos + |Digits(0, 10)|, Decimal, 0)
  {
    assert Digits(0, 10) == "0";
    AtIndex(text, pos, "0", 0);
    DelimitsFacts(CharAt(text, pos + 1));
  }

  /** What an operand is before it is cleaned up. */
  function Core(symbols: Symbols, t: Tree, warnings: seq<Warning>): Outcome
    requires !t.Bin?
  {
    match t
    case Par(inner) => Whole(symbols, Eval(symbols, inner, warnings))
    case Pre(unary, arg) => Unary(unary, Eval(symbols, arg, warnings))
    case _ => Eval(symbols, t, warnings)
  }

  lemma EvalCore(symbols: Symbols, t: Tree, warnings: seq<Warning>)
    requires !t.Bin?
    ensures Eval(symbols, t, warnings) == Tidy(Core(symbols, t, warnings))
  {
    hide Whole, Unary, Wrap;
  }

  lemma NumberParses(input: Input, t: Tree, pos: nat, warnings: seq<Warning>)
    requires t.Num? && Fits(t) && At(input.text, pos, Print(t)) && Delimits(CharAt(input.text, EndOf(t, pos)))
    ensures OperandAt(input, pos, warnings) == AsParsed(Core(input.symbols, t, warnings), EndOf(t, pos))
  {
    hide Digits, HexValue, IsPartOfName, Wrap, NumberIn, DigitRun, FormAt, Delimits;
    ConstantForm(input.text, pos, t.value, t.base);
    DelimitsFacts(CharAt(input.text, EndOf(t, pos)));
  }

  lemma NameParses(input: Input, t: Tree, pos: nat, warnings: seq<Warning>)
    requires t.Sym? && Fits(t) && At(input.text, pos, Print(t)) && Delimits(CharAt(input.text, EndOf(t, pos)))
    ensures OperandAt(input, pos, warnings) == AsParsed(Core(input.symbols, t, warnings), EndOf(t, pos))
  {
    hide IsOtherNumber, NumberIn, DigitRun, FormAt;
    AtIndex(input.text, pos, t.name, 0);
    if |t.name| > 1 {
      AtIndex(input.text, pos, t.name, 1);
    }
    NotANumber(input.text, pos);
    RunOfName(input.text, pos, t.name);
  }

  lemma NotANumber(text: string, pos: nat)
    requires !IsDigit(CharAt(text, pos))
    ensures !IsOtherNumber(text, pos)
  {
  }

  lemma CharParses(input: Input, t: Tree, pos: nat, warnings: seq<Warning>)
    requires t.Chr? && At(input.text, pos, Print(t))
    ensures OperandAt(input, pos, warnings) == AsParsed(Core(input.symbols, t, warnings), EndOf(t, pos))
  {
    hide IsOtherNumber, NumberIn, DigitRun, FormAt;
    AtIndex(input.text, pos, Print(t), 0);
    AtIndex(input.text, pos, Print(t), 1);
    NotANumber(input.text, pos);
  }

  lemma ParenthesesParse(input: Input, t: Tree, pos: nat, warnings: seq<Warning>)
    requires t.Par? && At(input.text, pos, Print(t))
    requires ParseExpr(input, pos + 1, 0, warnings)
          == AsParsed(Eval(input.symbols, t.inner, warnings), EndOf(t, pos) - 1)
    ensures OperandAt(input, pos, warnings) == AsParsed(Core(input.symbols, t, warnings), EndOf(t, pos))
  {
    hide IsOtherNumber, NumberIn, DigitRun, FormAt, ParseExpr, Eval, Whole;
    AtIndex(input.text, pos, Print(t), 0);
    AtIndex(input.text, pos, Print(t), |Print(t)| - 1);
    NotANumber(input.text, pos);
  }

  lemma PrefixParses(input: Input, t: Tree, pos: nat, warnings: seq<Warning>)
    requires t.Pre? && At(input.text, pos, Print(t))
    requires ParseOperand(input, pos + 1, warnings) == AsParsed(Eval(input.symbols, t.arg, warnings), EndOf(t, pos))
    ensures OperandAt(input, pos, warnings) == AsParsed(Core(input.symbols, t, warnings), EndOf(t, pos))
  {
    hide IsOtherNumber, NumberIn, DigitRun, FormAt, ParseOperand, Eval, Unary;
    AtIndex(input.text, pos, Print(t), 0);
    NotANumber(input.text, pos);
  }

  /** An operand is read back whole, whatever follows it that does not
      continue it. */
  lemma {:induction false} OperandParses(input: Input, t: Tree, pos: nat, warnings: seq<Warning>)
    requires !t.Bin? && Fits(t) && At(input.text, pos, Print(t)) && Delimits(CharAt(input.text, EndOf(t, pos)))
    ensures ParseOperand(input, pos, warnings) == AsParsed(Eval(input.symbols, t, warnings), EndOf(t, pos))
    decreases t, 0
  {
    hide OperandAt, IsPartOfName, Eval, Core, ParseExpr;
    FirstChar(t);
    AtIndex(input.text, pos, Print(t), 0);
    EvalCore(input.symbols, t, warnings);
    match t
    case Num(value, base) => NumberParses(input, t, pos, warnings);
    case Sym(name) => NameParses(input, t, pos, warnings);
    case Chr(c) => CharParses(input, t, pos, warnings);
    case Par(inner) =>
      InnerText(input.text, inner, pos);
      ExpressionParses(input, inner, pos + 1, 0, warnings);
      LoopStops(input, AsParsed(Eval(input.symbols, inner, warnings), EndOf(inner, pos + 1)), 0);
      ParenthesesParse(input, t, pos, warnings);
    case Pre(unary, arg) =>
      AtAppend(input.text, pos, [UnaryText(unary)], Print(arg));
      OperandParses(input, arg, pos + 1, warnings);
      PrefixParses(input, t, pos, warnings);
  }

  lemma InnerText(text: string, t: Tree, pos: nat)
    requires At(text, pos, Print(Par(t)))
    ensures At(text, pos + 1, Print(t)) && CharAt(text, EndOf(t, pos + 1)) == ')'
    ensures Delimits(')') && NextRank(text, EndOf(t, pos + 1)) == 0
  {
    hide Print;
    var s := Print(t);
    assert Print(Par(t)) == "(" + (s + ")") by { ParText(t); }
    AtAppend(text, pos, "(", s + ")");
    AtAppend(text, pos + 1, s, ")");
    AtIndex(text, pos + 1 + |s|, ")", 0);
  }

  lemma ParText(t: Tree)
    ensures Print(Par(t)) == "(" + (Print(t) + ")")
  {
  }

  lemma LoopStops(input: Input, left: Parsed, rank: nat)
    requires NextRank(input.text, left.pos) <= rank
    ensures Loop(input, left, rank) == left
  {
    hide OpAt;
  }

  lemma LoopGoesOn(input: Input, left: Parsed, op: Operator, right: Parsed, rank: nat)
    requires OpAt(input.text, left.pos) == Operation(op) && OpRank(op) > rank
    requires ParseExpr(input, left.pos + OpSize(op), OpRank(op), left.warnings) == right
    ensures Loop(input, left, rank) == Loop(input, Joined(input, op, left, right), rank)
  {
    hide OpAt, ParseExpr, Joined;
  }

  /** Parsing to a rank below its own reads a printed tree back, and goes on
      with what follows it: all operators associate to the left. */
  lemma {:induction false} ExpressionParses(input: Input, t: Tree, pos: nat, rank: nat, warnings: seq<Warning>)
    requires Fits(t) && At(input.text, pos, Print(t)) && Delimits(CharAt(input.text, EndOf(t, pos)))
    requires rank < TreeRank(t) && NextRank(input.text, EndOf(t, pos)) <= TreeRank(t)
    ensures ParseExpr(input, pos, rank, warnings)
         == Loop(input, AsParsed(Eval(input.symbols, t, warnings), EndOf(t, pos)), rank)
    decreases t, 1
  {
    hide OpAt, ParseOperand, Combined, Delimits, Loop;
    if !t.Bin? {
      OperandParses(input, t, pos, warnings);
    } else {
      hide ParseExpr;
      var mid := EndOf(t.left, pos);
      var next := mid + OpSize(t.op);
      InfixText(input.text, t, pos);
      ExpressionParses(input, t.left, pos, rank, warnings);
      var left := AsParsed(Eval(input.symbols, t.left, warnings), mid);
      ExpressionParses(input, t.right, next, OpRank(t.op), left.warnings);
      var right := AsParsed(Eval(input.symbols, t.right, left.warnings), EndOf(t.right, next));
      LoopStops(input, right, OpRank(t.op));
      LoopGoesOn(input, left, t.op, right, rank);
    }
  }

  lemma InfixText(text: string, t: Tree, pos: nat)
    requires t.Bin? && Fits(t) && At(text, pos, Print(t))
    ensures var mid := EndOf(t.left, pos);
      && At(text, pos, Print(t.left)) && Delimits(CharAt(text, mid))
      && OpAt(text, mid) == Operation(t.op)
      && At(text, mid + OpSize(t.op), Print(t.right)) && EndOf(t.right, mid + OpSize(t.op)) == EndOf(t, pos)
  {
    hide OpAt, Delimits, OpText, Fits, Print, At, CharAt;
    var s1, s2, s3 := Print(t.left), OpText(t.op), Print(t.right);
    var mid := pos + |s1|;
    BinText(t);
    AtAppend(text, pos, s1, s2 + s3);
    AtAppend(text, mid, s2, s3);
    assert Fits(t.right) by { RightFits(t); }
    FirstChar(t.right);
    AtIndex(text, mid + |s2|, s3, 0);
    OperatorReadBack(text, mid, t.op);
  }

  lemma BinText(t: Tree)
    requires t.Bin?
    ensures Print(t) == Print(t.left) + (OpText(t.op) + Print(t.right))
  {
    hide OpText;
  }

  lemma RightFits(t: Tree)
    requires t.Bin? && Fits(t)
    ensures Fits(t.right)
  {
  }
}
