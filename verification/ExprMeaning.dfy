/** What parsed expressions mean: the value of constant ones, and the symbolic
    value of sums and differences. */
module ExprMeaning {
  import opened CString
  import opened Int64
  import opened ExprText
  import opened ExprArithmetic
  import opened ExprQuantity
  import opened ExprGrammar
  import opened ExprPrinter
  import opened ExprTheorems

  /** The whole of a printed expression is consumed, and nothing after it. */
  lemma PrintedParses(input: Input, t: Tree, pos: nat, warnings: seq<Warning>)
    requires Fits(t) && At(input.text, pos, Print(t))
    requires var next := EndOf(t, pos); Delimits(CharAt(input.text, next)) && OpAt(input.text, next).Illegal?
    ensures ParseExpr(input, pos, 0, warnings) == AsParsed(Eval(input.symbols, t, warnings), EndOf(t, pos))
  {
    hide OpAt, Eval, Fits, Delimits, ParseExpr;
    ExpressionParses(input, t, pos, 0, warnings);
    LoopStops(input, AsParsed(Eval(input.symbols, t, warnings), EndOf(t, pos)), 0);
  }

  predicate IsConstant(t: Tree) {
    match t
    case Num(_, _) => true
    case Chr(_) => true
    case Sym(_) => false
    case Par(inner) => IsConstant(inner)
    case Pre(_, arg) => IsConstant(arg)
    case Bin(_, left, right) => IsConstant(left) && IsConstant(right)
  }

  /** The 64-bit value of a tree of constants. */
  ghost predicate HasValue(t: Tree, v: int)
    requires IsConstant(t)
  {
    match t
    case Num(value, _) => WrapsTo(v, value)
    case Chr(c) => v == if c as int < 128 then c as int else c as int - 256
    case Par(inner) => HasValue(inner, v)
    case Pre(unary, arg) => exists a :: HasValue(arg, a) && UnaryYields(unary, a, v)
    case Bin(op, left, right) => exists l, r :: HasValue(left, l) && HasValue(right, r) && Yields(op, l, r, v)
  }

  /** There is only one. */
  lemma {:induction false} ValueUnique(t: Tree, v: int, w: int)
    requires IsConstant(t) && HasValue(t, v) && HasValue(t, w)
    ensures v == w
  {
    hide Yields, UnaryYields;
    match t
    case Num(value, _) => WrapsToUnique(v, w, value);
    case Chr(c) =>
    case Par(inner) => ValueUnique(inner, v, w);
    case Pre(unary, arg) =>
      var a :| HasValue(arg, a) && UnaryYields(unary, a, v);
      var b :| HasValue(arg, b) && UnaryYields(unary, b, w);
      ValueUnique(arg, a, b);
      UnaryYieldsUnique(unary, a, v, w);
    case Bin(op, left, right) =>
      var l, r :| HasValue(left, l) && HasValue(right, r) && Yields(op, l, r, v);
      var l', r' :| HasValue(left, l') && HasValue(right, r') && Yields(op, l', r', w);
      ValueUnique(left, l, l');
      ValueUnique(right, r, r');
      YieldsUnique(op, l, r, v, w);
  }

  /** A tree of constants evaluates to its value. */
  lemma {:induction false} EvalConstant(symbols: Symbols, t: Tree, warnings: seq<Warning>)
    requires IsConstant(t)
    ensures var q := Eval(symbols, t, warnings).q;
      q == Constantly(q.number) && HasValue(t, q.number) && InRange(q.number)
  {
    hide Wrap, ApplyUnary, Calculate, Combined, Yields, UnaryYields, WrapsTo;
    match t
    case Num(value, _) => WrapWraps(value);
    case Chr(_) =>
    case Par(inner) => EvalConstant(symbols, inner, warnings);
    case Pre(unary, arg) =>
      EvalConstant(symbols, arg, warnings);
      UnaryIsRight(unary, Eval(symbols, arg, warnings).q.number);
    case Bin(op, left, right) =>
      EvalConstant(symbols, left, warnings);
      var l := Eval(symbols, left, warnings);
      EvalConstant(symbols, right, l.warnings);
      ConstantsCombined(symbols, op, l.q, Eval(symbols, right, l.warnings));
      CalculateYields(op, l.q.number, Eval(symbols, right, l.warnings).q.number);
  }

  lemma ConstantsCombined(symbols: Symbols, op: Operator, left: Quantity, right: Outcome)
    requires left == Constantly(left.number) && right.q == Constantly(right.q.number)
    ensures Combined(symbols, op, left, right).q == Constantly(Calculate(op, left.number, right.q.number))
  {
    hide Wrap, Quotient, Remainder, ShiftRight, ShiftLeft, FromBits, Bit, Truth;
    if op == Add || op == Subtract {
      ConstantsSummed(symbols, Outcome(left, right.warnings), right.q);
      ConstantsSummed(symbols, Outcome(left, right.warnings), Negated(right.q));
    } else {
      hide Sum;
    }
  }

  lemma ConstantsSummed(symbols: Symbols, left: Outcome, right: Quantity)
    requires left.q == Constantly(left.q.number) && right == Constantly(right.number)
    ensures Sum(symbols, left, right).q == Constantly(Wrap(left.q.number + right.number))
  {
    hide Wrap;
  }

  /** The parentheses that the ranks require, and no others. */
  function Parenthesized(t: Tree): (p: Tree) {
    match t
    case Par(inner) => Par(Parenthesized(inner))
    case Pre(unary, arg) => Pre(unary, Enclosed(Parenthesized(arg), OPERAND_RANK))
    case Bin(op, left, right) =>
      Bin(op, Enclosed(Parenthesized(left), OpRank(op)), Enclosed(Parenthesized(right), OpRank(op) + 1))
    case _ => t
  }

  /** In parentheses when below the rank asked for. */
  function Enclosed(t: Tree, rank: nat): Tree {
    if TreeRank(t) < rank then Par(t) else t
  }

  /** Every leaf can be printed. */
  predicate LeavesFit(t: Tree) {
    match t
    case Par(inner) => LeavesFit(inner)
    case Pre(_, arg) => LeavesFit(arg)
    case Bin(_, left, right) => LeavesFit(left) && LeavesFit(right)
    case _ => Fits(t)
  }

  lemma {:induction false} ParenthesizedFits(t: Tree)
    requires LeavesFit(t)
    ensures Fits(Parenthesized(t))
  {
    match t
    case Par(inner) => ParenthesizedFits(inner);
    case Pre(_, arg) => ParenthesizedFits(arg);
    case Bin(_, left, right) =>
      ParenthesizedFits(left);
      ParenthesizedFits(right);
    case _ =>
  }

  lemma {:induction false} ParenthesizedValue(t: Tree, v: int)
    requires IsConstant(t)
    ensures IsConstant(Parenthesized(t)) && (HasValue(Parenthesized(t), v) ==> HasValue(t, v))
  {
    hide Yields, UnaryYields, WrapsTo;
    match t
    case Par(inner) => ParenthesizedValue(inner, v);
    case Pre(unary, arg) =>
      var p := Enclosed(Parenthesized(arg), OPERAND_RANK);
      ParenthesizedValue(arg, v);
      if a :| HasValue(p, a) && UnaryYields(unary, a, v) {
        ParenthesizedValue(arg, a);
      }
    case Bin(op, left, right) =>
      var p, q := Enclosed(Parenthesized(left), OpRank(op)), Enclosed(Parenthesized(right), OpRank(op) + 1);
      ParenthesizedValue(left, v);
      ParenthesizedValue(right, v);
      if a, b :| HasValue(p, a) && HasValue(q, b) && Yields(op, a, b, v) {
        ParenthesizedValue(left, a);
        ParenthesizedValue(right, b);
        assert HasValue(left, a) && HasValue(right, b);
      }
    case _ =>
  }

  /** Any tree of constants, printed with only the parentheses it needs, is
      consumed exactly and evaluates to its value. */
  lemma ConstantsRoundTrip(input: Input, t: Tree, pos: nat, warnings: seq<Warning>)
    requires IsConstant(t) && LeavesFit(t) && At(input.text, pos, Print(Parenthesized(t)))
    requires var next := EndOf(Parenthesized(t), pos);
      Delimits(CharAt(input.text, next)) && OpAt(input.text, next).Illegal?
    ensures var p := ParseExpr(input, pos, 0, warnings);
      p.q == Constantly(p.q.number) && HasValue(t, p.q.number) && p.pos == EndOf(Parenthesized(t), pos)
  {
    hide OpAt, Eval, Delimits, ParseExpr, Parenthesized, HasValue;
    ParenthesizedFits(t);
    PrintedParses(input, Parenthesized(t), pos, warnings);
    ParenthesizedValue(t, Eval(input.symbols, Parenthesized(t), warnings).q.number);
    EvalConstant(input.symbols, Parenthesized(t), warnings);
  }

  /** What a quantity means when the symbols have values. */
  ghost function SymbolValue(s: Symbol, values: string -> int): int {
    if s.Some? then values(s.name) else 0
  }

  ghost function Meaning(q: Quantity, values: string -> int): int {
    SymbolValue(q.add, values) - SymbolValue(q.subtract, values) + q.number
  }

  /** Sums, differences and negations of constants and symbols. */
  predicate IsLinear(t: Tree) {
    match t
    case Par(inner) => IsLinear(inner)
    case Pre(unary, arg) => unary == Minus && IsLinear(arg)
    case Bin(op, left, right) => (op == Add || op == Subtract) && IsLinear(left) && IsLinear(right)
    case _ => true
  }

  ghost function SourceMeaning(symbols: Symbols, t: Tree, values: string -> int): int
    requires IsLinear(t)
  {
    match t
    case Num(value, _) => value
    case Chr(c) => SignedChar(c)
    case Sym(name) => if KindOf(symbols, name).Constant? then KindOf(symbols, name).value else values(name)
    case Par(inner) => SourceMeaning(symbols, inner, values)
    case Pre(_, arg) => -SourceMeaning(symbols, arg, values)
    case Bin(op, left, right) =>
      if op == Add then SourceMeaning(symbols, left, values) + SourceMeaning(symbols, right, values)
      else SourceMeaning(symbols, left, values) - SourceMeaning(symbols, right, values)
  }

  predicate IsPlain(symbols: Symbols, s: Symbol) {
    s.Some? ==> !KindOf(symbols, s.name).Constant?
  }

  /** The normal form symbol - symbol + number. */
  predicate IsNormal(symbols: Symbols, q: Quantity) {
    && IsPlain(symbols, q.add) && IsPlain(symbols, q.subtract)
    && match q.segment
       case Absolute => q.add.None? && q.subtract.None?
       case Section => q.add.Some? && q.subtract.None?
       case Unknown => q.add.Some? && q.subtract.None?
       case Difference => q.add != q.subtract
       case _ => false
  }

  lemma SumMeaning(symbols: Symbols, left: Outcome, right: Quantity, values: string -> int)
    requires IsNormal(symbols, left.q) && IsNormal(symbols, right)
    requires Sum(symbols, left, right).warnings == left.warnings
    ensures var s := Sum(symbols, left, right).q;
      IsNormal(symbols, s) && Congruent(Meaning(s, values), Meaning(left.q, values) + Meaning(right, values))
  {
    hide Wrap;
    assert |Sum(symbols, left, right).warnings| == |left.warnings|;
  }

  lemma NegatedMeaning(symbols: Symbols, q: Quantity, values: string -> int)
    requires IsNormal(symbols, q)
    ensures IsNormal(symbols, Negated(q)) && Congruent(Meaning(Negated(q), values), -Meaning(q, values))
  {
    hide Wrap;
  }

  /** Unary minus on a symbol leaves the number alone: that is how far off it
      is. */
  function MinusOff(q: Quantity): int {
    if q.segment == Absolute then 0 else 2 * q.number
  }

  lemma MinusMeaning(symbols: Symbols, arg: Outcome, values: string -> int)
    requires IsNormal(symbols, arg.q) && Unary(Minus, arg).warnings == arg.warnings
    ensures var q := Tidy(Unary(Minus, arg)).q;
      IsNormal(symbols, q) && Congruent(Meaning(q, values), -Meaning(arg.q, values) + MinusOff(arg.q))
  {
    hide Wrap;
    assert |Unary(Minus, arg).warnings| == |arg.warnings|;
  }

  /** Warnings are only added. */
  lemma {:induction false} WarningsGrow(symbols: Symbols, t: Tree, warnings: seq<Warning>)
    ensures |Eval(symbols, t, warnings).warnings| >= |warnings|
  {
    hide Wrap, Combined, Unary, Whole, CleanedUp;
    match t
    case Par(inner) =>
      WarningsGrow(symbols, inner, warnings);
      StepsGrow(symbols, Eval(symbols, inner, warnings));
    case Pre(unary, arg) =>
      WarningsGrow(symbols, arg, warnings);
      StepsGrow(symbols, Eval(symbols, arg, warnings));
    case Bin(op, left, right) =>
      var l := Eval(symbols, left, warnings);
      WarningsGrow(symbols, left, warnings);
      WarningsGrow(symbols, right, l.warnings);
      CombinedGrows(symbols, op, l.q, Eval(symbols, right, l.warnings));
    case _ =>
  }

  lemma StepsGrow(symbols: Symbols, o: Outcome)
    ensures |Whole(symbols, o).warnings| >= |o.warnings|
    ensures forall op :: |Unary(op, o).warnings| >= |o.warnings|
  {
    hide Wrap;
  }

  lemma CombinedGrows(symbols: Symbols, op: Operator, left: Quantity, right: Outcome)
    ensures |Combined(symbols, op, left, right).warnings| >= |Usable(left, right).warnings| >= |right.warnings|
  {
    hide Wrap, Calculate, CleanedUp, ExprPart, PartWarnings;
  }

  /** The symbols of a tree that are no constants, by their signs. */
  datatype Signs = Signs(plus: multiset<string>, minus: multiset<string>)

  function SignsOf(symbols: Symbols, t: Tree): Signs {
    match t
    case Num(_, _) => Signs(multiset{}, multiset{})
    case Chr(_) => Signs(multiset{}, multiset{})
    case Sym(name) =>
      Signs(if KindOf(symbols, name).Constant? then multiset{} else multiset{name}, multiset{})
    case Par(inner) => SignsOf(symbols, inner)
    case Pre(_, arg) => Signs(SignsOf(symbols, arg).minus, SignsOf(symbols, arg).plus)
    case Bin(op, left, right) =>
      Joined(op, SignsOf(symbols, left), SignsOf(symbols, right))
  }

  /** All symbols cancel. */
  predicate Cancels(symbols: Symbols, t: Tree) {
    SignsOf(symbols, t).plus == SignsOf(symbols, t).minus
  }

  /** The constant part as it is read: a minus leaves it alone when symbols
      remain. */
  function Amount(symbols: Symbols, t: Tree): int {
    match t
    case Num(value, _) => value
    case Chr(c) => SignedChar(c)
    case Sym(name) => if KindOf(symbols, name).Constant? then KindOf(symbols, name).value else 0
    case Par(inner) => Amount(symbols, inner)
    case Pre(_, arg) => if Cancels(symbols, arg) then -Amount(symbols, arg) else Amount(symbols, arg)
    case Bin(op, left, right) =>
      if op == Add then Amount(symbols, left) + Amount(symbols, right)
      else Amount(symbols, left) - Amount(symbols, right)
  }

  /** How far off the unary minuses make a whole tree. */
  function Error(symbols: Symbols, t: Tree): int {
    match t
    case Par(inner) => Error(symbols, inner)
    case Pre(_, arg) =>
      -Error(symbols, arg) + if Cancels(symbols, arg) then 0 else 2 * Amount(symbols, arg)
    case Bin(op, left, right) =>
      if op == Add then Error(symbols, left) + Error(symbols, right) else Error(symbols, left) - Error(symbols, right)
    case _ => 0
  }

  function Times(s: Symbol, name: string): nat {
    if s == Some(name) then 1 else 0
  }

  /** The symbols of a normal form are those that do not cancel, and its number
      is the constant part. */
  ghost predicate Stands(symbols: Symbols, q: Quantity, signs: Signs, amount: int) {
    && IsNormal(symbols, q)
    && SameSigns(q, signs)
    && Congruent(q.number, amount)
  }

  ghost predicate SameSigns(q: Quantity, signs: Signs) {
    forall name :: Times(q.add, name) + signs.minus[name] == Times(q.subtract, name) + signs.plus[name]
  }

  lemma StandsCancels(symbols: Symbols, q: Quantity, signs: Signs, amount: int)
    requires Stands(symbols, q, signs, amount)
    ensures q.segment == Absolute <==> signs.plus == signs.minus
  {
    hide Congruent;
    if q.segment == Absolute {
      forall name ensures signs.plus[name] == signs.minus[name] {
        assert Times(q.add, name) == Times(q.subtract, name);
      }
    } else {
      var name := if q.add.Some? then q.add.name else q.subtract.name;
      assert Times(q.add, name) != Times(q.subtract, name);
    }
  }

  lemma SumStands(symbols: Symbols, left: Outcome, right: Quantity, name: string)
    requires IsNormal(symbols, left.q) && IsNormal(symbols, right)
    requires Sum(symbols, left, right).warnings == left.warnings
    ensures var s := Sum(symbols, left, right).q;
      && Times(s.add, name) - Times(s.subtract, name)
         == Times(left.q.add, name) - Times(left.q.subtract, name)
            + (Times(right.add, name) - Times(right.subtract, name))
      && s.number == Wrap(left.q.number + right.number)
  {
    hide Wrap;
    assert |Sum(symbols, left, right).warnings| == |left.warnings|;
  }

  /** What a tree without warnings evaluates to, told from the tree alone. */
  lemma {:induction false} TreeStands(symbols: Symbols, t: Tree)
    requires IsLinear(t) && Eval(symbols, t, []).warnings == []
    ensures Stands(symbols, Eval(symbols, t, []).q, SignsOf(symbols, t), Amount(symbols, t))
  {
    hide Wrap, Combined, Unary, Whole, CleanedUp, Stands, Cancels, Joined;
    match t
    case Par(inner) =>
      StepsGrow(symbols, Eval(symbols, inner, []));
      TreeStands(symbols, inner);
      ParStands(symbols, Eval(symbols, inner, []), SignsOf(symbols, inner), Amount(symbols, inner));
    case Pre(unary, arg) =>
      var a := Eval(symbols, arg, []);
      StepsGrow(symbols, a);
      TreeStands(symbols, arg);
      MinusStands(symbols, a, SignsOf(symbols, arg), Amount(symbols, arg));
      CancelsIff(symbols, arg, a.q);
    case Bin(op, left, right) =>
      var l := Eval(symbols, left, []);
      var r := Eval(symbols, right, l.warnings);
      WarningsGrow(symbols, left, []);
      WarningsGrow(symbols, right, l.warnings);
      CombinedGrows(symbols, op, l.q, r);
      TreeStands(symbols, left);
      TreeStands(symbols, right);
      InfixStands(symbols, op, l.q, r.q, SignsOf(symbols, left), SignsOf(symbols, right),
                  Amount(symbols, left), Amount(symbols, right));
    case _ => LeafStands(symbols, t);
  }

  lemma CancelsIff(symbols: Symbols, t: Tree, q: Quantity)
    requires Stands(symbols, q, SignsOf(symbols, t), Amount(symbols, t))
    ensures q.segment == Absolute <==> Cancels(symbols, t)
  {
    hide Stands, SignsOf, Amount;
    StandsCancels(symbols, q, SignsOf(symbols, t), Amount(symbols, t));
  }

  lemma LeafStands(symbols: Symbols, t: Tree)
    requires t.Num? || t.Chr? || t.Sym?
    ensures Stands(symbols, Eval(symbols, t, []).q, SignsOf(symbols, t), Amount(symbols, t))
  {
    LeafMeaning(symbols, t, _ => 0);
  }

  lemma ParStands(symbols: Symbols, o: Outcome, signs: Signs, amount: int)
    requires Stands(symbols, o.q, signs, amount)
    ensures Stands(symbols, Tidy(Whole(symbols, o)).q, signs, amount)
  {
    ParMeaning(symbols, o);
  }

  lemma MinusStands(symbols: Symbols, arg: Outcome, signs: Signs, amount: int)
    requires Stands(symbols, arg.q, signs, amount) && Unary(Minus, arg).warnings == arg.warnings
    ensures Stands(symbols, Tidy(Unary(Minus, arg)).q, Signs(signs.minus, signs.plus),
                   if arg.q.segment == Absolute then -amount else amount)
  {
    hide Wrap, Congruent;
    MinusMeaning(symbols, arg, _ => 0);
    var q := Tidy(Unary(Minus, arg)).q;
    if arg.q.segment == Absolute {
      NegatedCongruent(q.number, arg.q.number, amount);
    } else {
      assert |Unary(Minus, arg).warnings| == |arg.warnings|;
    }
    forall name
      ensures Times(q.add, name) + signs.plus[name] == Times(q.subtract, name) + signs.minus[name]
    {
      assert Times(arg.q.add, name) + signs.minus[name] == Times(arg.q.subtract, name) + signs.plus[name];
    }
  }

  lemma NegatedCongruent(s: int, x: int, y: int)
    requires Congruent(s, -x) && Congruent(x, y)
    ensures Congruent(s, -y)
  {
    CongruentSum(0, x, 0, y);
    CongruentTrans(s, 0 - x, 0 - y);
  }

  function Joined(op: Operator, l: Signs, r: Signs): Signs {
    if op == Add then Signs(l.plus + r.plus, l.minus + r.minus) else Signs(l.plus + r.minus, l.minus + r.plus)
  }

  lemma InfixStands(symbols: Symbols, op: Operator, left: Quantity, right: Quantity, l: Signs, r: Signs,
                    x: int, y: int)
    requires op == Add || op == Subtract
    requires Stands(symbols, left, l, x) && Stands(symbols, right, r, y)
    requires Combined(symbols, op, left, Outcome(right, [])).warnings == []
    ensures Stands(symbols, Combined(symbols, op, left, Outcome(right, [])).q, Joined(op, l, r),
                   if op == Add then x + y else x - y)
  {
    hide Wrap, Sum, Congruent, IsNormal;
    InfixMeaning(symbols, op, left, right, _ => 0);
    PresentUsable(symbols, left, right);
    var q := Combined(symbols, op, left, Outcome(right, [])).q;
    if op == Add {
      AddStands(symbols, left, right, l, r);
      Carry(Add, left.number, right.number, x, y, q.number);
    } else {
      SubtractStands(symbols, left, right, l, r);
      Itself(left.number);
      Itself(right.number);
      Subtracted(q.number, left.number, Wrap(-right.number), right.number, right.number);
      Carry(Subtract, left.number, right.number, x, y, q.number);
    }
  }

  lemma AddStands(symbols: Symbols, left: Quantity, right: Quantity, l: Signs, r: Signs)
    requires IsNormal(symbols, left) && IsNormal(symbols, right) && SameSigns(left, l) && SameSigns(right, r)
    requires Sum(symbols, Outcome(left, []), right).warnings == []
    ensures var s := Sum(symbols, Outcome(left, []), right).q;
      SameSigns(s, Joined(Add, l, r)) && s.number == Wrap(left.number + right.number)
  {
    hide Wrap, Sum, IsNormal;
    var s := Sum(symbols, Outcome(left, []), right).q;
    SumStands(symbols, Outcome(left, []), right, "");
    forall name
      ensures Times(s.add, name) + (l.minus + r.minus)[name] == Times(s.subtract, name) + (l.plus + r.plus)[name]
    {
      SumStands(symbols, Outcome(left, []), right, name);
      assert Times(left.add, name) + l.minus[name] == Times(left.subtract, name) + l.plus[name];
      assert Times(right.add, name) + r.minus[name] == Times(right.subtract, name) + r.plus[name];
    }
  }

  lemma SubtractStands(symbols: Symbols, left: Quantity, right: Quantity, l: Signs, r: Signs)
    requires IsNormal(symbols, left) && IsNormal(symbols, right) && SameSigns(left, l) && SameSigns(right, r)
    requires Sum(symbols, Outcome(left, []), Negated(right)).warnings == []
    ensures var s := Sum(symbols, Outcome(left, []), Negated(right)).q;
      SameSigns(s, Joined(Subtract, l, r)) && s.number == Wrap(left.number + Wrap(-right.number))
  {
    hide Wrap, Sum, IsNormal;
    NegatedMeaning(symbols, right, _ => 0);
    var n := Negated(right);
    assert SameSigns(n, Signs(r.minus, r.plus)) by {
      forall name
        ensures Times(n.add, name) + r.plus[name] == Times(n.subtract, name) + r.minus[name]
      {
        assert Times(right.add, name) + r.minus[name] == Times(right.subtract, name) + r.plus[name];
      }
    }
    AddStands(symbols, left, n, l, Signs(r.minus, r.plus));
  }

  lemma PresentUsable(symbols: Symbols, left: Quantity, right: Quantity)
    requires IsNormal(symbols, left) && IsNormal(symbols, right)
    ensures Usable(left, Outcome(right, [])) == Operands(left, right, [])
  {
  }

  /** Under any values of the symbols a sum of constants and symbols that draws
      no warning differs from its normal form, modulo 2^64, by the error. */
  lemma {:induction false} LinearMeaning(symbols: Symbols, t: Tree, values: string -> int)
    requires IsLinear(t) && Eval(symbols, t, []).warnings == []
    ensures var q := Eval(symbols, t, []).q;
      && IsNormal(symbols, q)
      && Congruent(Meaning(q, values), SourceMeaning(symbols, t, values) + Error(symbols, t))
  {
    hide Wrap, Combined, Unary, Whole, Congruent, IsNormal, CleanedUp, MinusOff, Meaning;
    match t
    case Par(inner) =>
      StepsGrow(symbols, Eval(symbols, inner, []));
      LinearMeaning(symbols, inner, values);
      ParMeaning(symbols, Eval(symbols, inner, []));
    case Pre(unary, arg) =>
      var a := Eval(symbols, arg, []);
      StepsGrow(symbols, a);
      LinearMeaning(symbols, arg, values);
      PrefixMeaning(symbols, a, SourceMeaning(symbols, arg, values) + Error(symbols, arg), values);
      MinusOffStands(symbols, arg, Meaning(Eval(symbols, t, []).q, values),
                     SourceMeaning(symbols, arg, values) + Error(symbols, arg));
    case Bin(op, left, right) =>
      var l := Eval(symbols, left, []);
      var r := Eval(symbols, right, l.warnings);
      WarningsGrow(symbols, left, []);
      WarningsGrow(symbols, right, l.warnings);
      CombinedGrows(symbols, op, l.q, r);
      LinearMeaning(symbols, left, values);
      LinearMeaning(symbols, right, values);
      InfixCarried(symbols, op, l.q, r.q, SourceMeaning(symbols, left, values) + Error(symbols, left),
                   SourceMeaning(symbols, right, values) + Error(symbols, right), values);
    case _ => LeafMeaning(symbols, t, values);
  }

  lemma MinusOffStands(symbols: Symbols, arg: Tree, meaning: int, source: int)
    requires IsLinear(arg) && Eval(symbols, arg, []).warnings == []
    requires Congruent(meaning, -source + MinusOff(Eval(symbols, arg, []).q))
    ensures Congruent(meaning, -source + if Cancels(symbols, arg) then 0 else 2 * Amount(symbols, arg))
  {
    hide Eval, Congruent, IsLinear;
    TreeStands(symbols, arg);
    var q := Eval(symbols, arg, []).q;
    CancelsIff(symbols, arg, q);
    if !Cancels(symbols, arg) {
      var x, y := q.number, Amount(symbols, arg);
      CongruentSum(x, x, y, y);
      Itself(-source);
      CongruentSum(-source, x + x, -source, y + y);
      CongruentTrans(meaning, -source + (x + x), -source + (y + y));
    }
  }

  lemma LeafMeaning(symbols: Symbols, t: Tree, values: string -> int)
    requires t.Num? || t.Chr? || t.Sym?
    ensures var q := Eval(symbols, t, []).q;
      IsNormal(symbols, q) && Congruent(Meaning(q, values), SourceMeaning(symbols, t, values))
  {
    hide Wrap;
  }

  lemma ParMeaning(symbols: Symbols, o: Outcome)
    requires IsNormal(symbols, o.q)
    ensures Tidy(Whole(symbols, o)).q == o.q
  {
  }

  lemma PrefixMeaning(symbols: Symbols, arg: Outcome, source: int, values: string -> int)
    requires IsNormal(symbols, arg.q) && Unary(Minus, arg).warnings == arg.warnings
    requires Congruent(Meaning(arg.q, values), source)
    ensures var q := Tidy(Unary(Minus, arg)).q;
      IsNormal(symbols, q) && Congruent(Meaning(q, values), -source + MinusOff(arg.q))
  {
    hide Unary, Congruent, IsNormal, CleanedUp, MinusOff, Meaning;
    MinusMeaning(symbols, arg, values);
    Itself(-Meaning(arg.q, values));
    Subtracted(Meaning(Tidy(Unary(Minus, arg)).q, values), MinusOff(arg.q), -Meaning(arg.q, values),
               Meaning(arg.q, values), source);
  }

  lemma Itself(x: int)
    ensures Congruent(x, x)
  {
  }

  lemma InfixCarried(symbols: Symbols, op: Operator, left: Quantity, right: Quantity, x: int, y: int,
                     values: string -> int)
    requires op == Add || op == Subtract
    requires IsNormal(symbols, left) && IsNormal(symbols, right)
    requires Congruent(Meaning(left, values), x) && Congruent(Meaning(right, values), y)
    requires Combined(symbols, op, left, Outcome(right, [])).warnings == []
    ensures var q := Combined(symbols, op, left, Outcome(right, [])).q;
      && IsNormal(symbols, q)
      && Congruent(Meaning(q, values), if op == Add then x + y else x - y)
  {
    hide Combined, Congruent, IsNormal, Meaning;
    InfixMeaning(symbols, op, left, right, values);
    Carry(op, Meaning(left, values), Meaning(right, values), x, y,
          Meaning(Combined(symbols, op, left, Outcome(right, [])).q, values));
  }

  lemma InfixMeaning(symbols: Symbols, op: Operator, left: Quantity, right: Quantity, values: string -> int)
    requires op == Add || op == Subtract
    requires IsNormal(symbols, left) && IsNormal(symbols, right)
    requires Combined(symbols, op, left, Outcome(right, [])).warnings == []
    ensures var q := Combined(symbols, op, left, Outcome(right, [])).q;
      && IsNormal(symbols, q)
      && Congruent(Meaning(q, values),
                   if op == Add then Meaning(left, values) + Meaning(right, values)
                   else Meaning(left, values) - Meaning(right, values))
  {
    hide Wrap, Sum, Negated, Congruent, Meaning;
    assert Usable(left, Outcome(right, [])) == Operands(left, right, []);
    if op == Add {
      SumMeaning(symbols, Outcome(left, []), right, values);
    } else {
      NegatedMeaning(symbols, right, values);
      SumMeaning(symbols, Outcome(left, []), Negated(right), values);
      var s := Sum(symbols, Outcome(left, []), Negated(right)).q;
      Subtracted(Meaning(s, values), Meaning(left, values), Meaning(Negated(right), values), Meaning(right, values),
                 Meaning(right, values));
    }
  }

  lemma Subtracted(s: int, l: int, n: int, r: int, source: int)
    requires Congruent(s, l + n) && Congruent(n, -r) && Congruent(r, source)
    ensures Congruent(s, l - source)
  {
    CongruentSum(l, n, l, -r);
    CongruentTrans(s, l + n, l - r);
    CongruentSum(l, r, l, source);
    CongruentTrans(s, l - r, l - source);
  }

  lemma Carry(op: Operator, l: int, r: int, x: int, y: int, q: int)
    requires Congruent(l, x) && Congruent(r, y) && Congruent(q, if op == Add then l + r else l - r)
    ensures Congruent(q, if op == Add then x + y else x - y)
  {
    CongruentSum(l, r, x, y);
    if op == Add {
      CongruentTrans(q, l + r, x + y);
    } else {
      CongruentTrans(q, l - r, x - y);
    }
  }

  /** A text that draws no warning is read as what it says, under any values
      of its symbols, if and only if the errors of its unary minuses cancel. */
  lemma LinearRoundTripIff(input: Input, t: Tree, pos: nat, values: string -> int)
    requires Fits(t) && IsLinear(t) && At(input.text, pos, Print(t))
    requires var next := EndOf(t, pos); Delimits(CharAt(input.text, next)) && OpAt(input.text, next).Illegal?
    requires ParseExpr(input, pos, 0, []).warnings == []
    ensures Congruent(Meaning(ParseExpr(input, pos, 0, []).q, values), SourceMeaning(input.symbols, t, values))
            <==> Congruent(Error(input.symbols, t), 0)
  {
    hide OpAt, Eval, Fits, Delimits, ParseExpr, Meaning;
    PrintedParses(input, t, pos, []);
    LinearMeaning(input.symbols, t, values);
  }

  predicate NoMinus(t: Tree) {
    match t
    case Par(inner) => NoMinus(inner)
    case Pre(_, _) => false
    case Bin(_, left, right) => NoMinus(left) && NoMinus(right)
    case _ => true
  }

  /** Without unary operators there is no error. */
  lemma {:induction false} NoMinusNoError(symbols: Symbols, t: Tree)
    requires NoMinus(t)
    ensures Error(symbols, t) == 0
  {
    match t
    case Par(inner) => NoMinusNoError(symbols, inner);
    case Bin(_, left, right) =>
      NoMinusNoError(symbols, left);
      NoMinusNoError(symbols, right);
    case _ =>
  }

  /** -(foo+4) is read as -foo+4. */
  lemma MinusOfSum()
    ensures var t := Pre(Minus, Par(Bin(Add, Sym("foo"), Num(4, Decimal))));
      Error(map[], t) == 8 && Eval(map[], t, []) == Outcome(Quantity(None, Some("foo"), 4, Difference), [])
  {
    var sum := Bin(Add, Sym("foo"), Num(4, Decimal));
    assert Eval(map[], sum, []) == Outcome(Quantity(Some("foo"), None, 4, Unknown), []);
  }
}
