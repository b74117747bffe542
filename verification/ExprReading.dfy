/** How expressions are read, told without the tables of the parser: which
    operator takes its operands first, and which texts are names, constants
    and ends of expressions. */
module ExprReading {
  import opened Arithmetic
  import opened CString
  import opened Int64
  import opened Numerals
  import opened ExprText
  import opened ExprQuantity
  import opened ExprGrammar
  import opened ExprPrinter
  import opened ExprTheorems
  import opened ExprMeaning

  /** The operators from the ones that bind most tightly on, as in the comment
      over the table of ranks. */
  function Looseness(op: Operator): nat {
    match op
    case Multiply | Divide | Modulus => 0
    case Add | Subtract => 1
    case RightShift | LeftShift => 2
    case LessThan | GreaterThan | LessOrEqual | GreaterOrEqual => 3
    case Equal | NotEqual => 4
    case BitAnd => 5
    case BitXor => 6
    case BitOr => 7
    case LogicalAnd => 8
    case LogicalOr => 9
  }

  /** The first operator binds more tightly than the second, or as tightly. */
  predicate BindsFirst(first: Operator, second: Operator) {
    Looseness(first) <= Looseness(second)
  }

  lemma LoosenessIs(op: Operator)
    ensures Looseness(op) == 10 - OpRank(op)
  {
  }

  lemma BindsFirstIff(first: Operator, second: Operator)
    ensures BindsFirst(first, second) <==> OpRank(first) >= OpRank(second)
  {
    hide OpRank, Looseness;
    LoosenessIs(first);
    LoosenessIs(second);
  }

  /** The tree of x op1 y op2 z. */
  function Grouped(x: Tree, op1: Operator, y: Tree, op2: Operator, z: Tree): Tree {
    if BindsFirst(op1, op2) then Bin(op2, Bin(op1, x, y), z) else Bin(op1, x, Bin(op2, y, z))
  }

  lemma PrintGrouped(x: Tree, op1: Operator, y: Tree, op2: Operator, z: Tree)
    ensures Print(Grouped(x, op1, y, op2, z)) == Print(x) + OpText(op1) + Print(y) + OpText(op2) + Print(z)
  {
    PrintBin(op2, Bin(op1, x, y), z);
    PrintBin(op1, x, y);
    PrintBin(op1, x, Bin(op2, y, z));
    PrintBin(op2, y, z);
    hide BindsFirst, OpText, Print;
    Associates(Print(x) + OpText(op1), Print(y), OpText(op2), Print(z));
  }

  lemma PrintBin(op: Operator, left: Tree, right: Tree)
    ensures Print(Bin(op, left, right)) == Print(left) + OpText(op) + Print(right)
  {
  }

  lemma Associates(a: string, b: string, c: string, d: string)
    ensures a + (b + c + d) == a + b + c + d
  {
  }

  lemma BinFits(op: Operator, left: Tree, right: Tree)
    requires Fits(left) && Fits(right) && TreeRank(left) >= OpRank(op) && TreeRank(right) > OpRank(op)
    ensures Fits(Bin(op, left, right)) && TreeRank(Bin(op, left, right)) == OpRank(op)
  {
  }

  lemma GroupedFits(x: Tree, op1: Operator, y: Tree, op2: Operator, z: Tree)
    requires Fits(x) && Fits(y) && Fits(z) && !x.Bin? && !y.Bin? && !z.Bin?
    ensures Fits(Grouped(x, op1, y, op2, z))
  {
    hide OpRank, BindsFirst, Fits;
    BindsFirstIff(op1, op2);
    if BindsFirst(op1, op2) {
      BinFits(op1, x, y);
      BinFits(op2, Bin(op1, x, y), z);
    } else {
      BinFits(op2, y, z);
      BinFits(op1, x, Bin(op2, y, z));
    }
  }

  /** Of two operators in a row the tighter one takes its operands first, and of
      two alike the left one. */
  lemma Grouping(input: Input, x: Tree, op1: Operator, y: Tree, op2: Operator, z: Tree, pos: nat,
                 warnings: seq<Warning>)
    requires Fits(x) && Fits(y) && Fits(z) && !x.Bin? && !y.Bin? && !z.Bin?
    requires At(input.text, pos, Print(x) + OpText(op1) + Print(y) + OpText(op2) + Print(z))
    requires var next := pos + |Print(x) + OpText(op1) + Print(y) + OpText(op2) + Print(z)|;
      Delimits(CharAt(input.text, next)) && OpAt(input.text, next).Illegal?
    ensures ParseExpr(input, pos, 0, warnings)
         == AsParsed(Eval(input.symbols, Grouped(x, op1, y, op2, z), warnings),
                     pos + |Print(x) + OpText(op1) + Print(y) + OpText(op2) + Print(z)|)
  {
    hide OpAt, Eval, Delimits, ParseExpr, OpText, Fits, Grouped, Print;
    GroupedFits(x, op1, y, op2, z);
    PrintGrouped(x, op1, y, op2, z);
    PrintedParses(input, Grouped(x, op1, y, op2, z), pos, warnings);
  }

  predicate IsLetter(c: char) {
    'a' <= c <= 'z' || 'A' <= c <= 'Z'
  }

  /** Letters, digits, underscores, dollar signs and dots are a name, unless a
      digit comes first or a dot is all there is. */
  lemma NamesFit(name: string)
    requires name != "" && name != "." && !('0' <= name[0] <= '9')
    requires forall c :: c in name ==> IsLetter(c) || '0' <= c <= '9' || c in "_$."
    ensures Fits(Sym(name))
  {
  }

  lemma {:induction false} DigitsAtMost(n: nat, b: nat, k: nat)
    requires 2 <= b <= 16 && k > 0 && n < Pow(b, k)
    ensures |Digits(n, b)| <= k
  {
    if n >= b {
      DigitSplit(n, b);
      assert Pow(b, 1) == b by { assert Pow(b, 0) == 1; }
      if k > 1 {
        DivBelow(n, b, Pow(b, k - 1)) by { MulRegroup(b, Pow(b, k - 1), 1); }
        DigitsAtMost(n / b, b, k - 1);
      }
    }
  }

  /** A number of 63 bits is a constant in every base. */
  lemma NumbersFit(value: nat, base: Base)
    requires value < 0x8000_0000_0000_0000
    ensures Fits(Num(value, base))
  {
    hide Pow, Digits;
    BasePowers();
    match base
    case Decimal => DigitsAtMost(value, 10, 20);
    case Hexadecimal => DigitsAtMost(value, 16, 16);
    case Octal => DigitsAtMost(value, 8, 21);
  }

  lemma BasePowers()
    ensures Pow(16, 16) == 0x1_0000_0000_0000_0000
    ensures Pow(8, 21) == 0x8000_0000_0000_0000
    ensures Pow(10, 20) == 100_000_000_000_000_000_000
  {
    hide Pow;
    assert Pow(16, 4) == 0x1_0000 by { SmallPowers(); }
    PowAdd(16, 4, 4);
    PowAdd(16, 8, 8);
    assert Pow(8, 4) == 0x1000 && Pow(8, 1) == 8 by { SmallPowers(); }
    PowAdd(8, 4, 4);
    PowAdd(8, 8, 8);
    PowAdd(8, 16, 4);
    PowAdd(8, 20, 1);
    assert Pow(10, 5) == 100_000 by { SmallPowers(); }
    PowAdd(10, 5, 5);
    PowAdd(10, 10, 10);
  }

  lemma SmallPowers()
    ensures Pow(16, 4) == 0x1_0000 && Pow(8, 4) == 0x1000 && Pow(8, 1) == 8 && Pow(10, 5) == 100_000
  {
    assert Pow(16, 2) == 0x100 && Pow(8, 2) == 64 && Pow(10, 2) == 100;
    assert Pow(16, 3) == 0x1000 && Pow(8, 3) == 0x200 && Pow(10, 3) == 1000;
    assert Pow(10, 4) == 10_000;
  }

  /** The end of the text, of the line or of the statement, a comma and a
      closing parenthesis end an expression. */
  lemma EndsExpression(text: string, pos: nat)
    requires CharAt(text, pos) in "\0\n;,)#:"
    ensures Delimits(CharAt(text, pos)) && OpAt(text, pos).Illegal?
  {
  }
}
