/** What the operators of an expression do with two 64-bit constants, as
    relations between numbers. */
module ExprArithmetic {
  import opened Arithmetic
  import opened Int64
  import opened ExprText
  import opened ExprQuantity

  /** x is q times y and r over; r is smaller than y, and zero or of the sign
      of x. */
  predicate Divides(x: int, y: int, q: int, r: int) {
    && x == q * y + r
    && (if y < 0 then y < r < -y else -y < r < y)
    && (r == 0 || (r < 0 <==> x < 0))
  }

  /** r is 1 if the relation holds and 0 if not. */
  predicate Tells(r: int, holds: bool) {
    r == if holds then 1 else 0
  }

  /** The 64-bit number that a result wraps around to. */
  ghost predicate WrapsTo(r: int, value: int) {
    -LIMIT <= r < LIMIT && exists k: int :: value - r == k * MODULUS
  }

  ghost predicate InWidth(r: int) {
    -LIMIT <= r < LIMIT
  }

  ghost predicate Yields(op: Operator, x: int, y: int, r: int) {
    match op
    case Multiply => WrapsTo(r, x * y)
    case Divide => if y == 0 then r == 0 else exists q, m :: Divides(x, y, q, m) && WrapsTo(r, q)
    case Modulus => if y == 0 then r == 0 else exists q :: Divides(x, y, q, r)
    case Add => WrapsTo(r, x + y)
    case Subtract => WrapsTo(r, x - y)
    case RightShift => r * Pow(2, y % 64) <= x < (r + 1) * Pow(2, y % 64)
    case LeftShift => WrapsTo(r, x * Pow(2, y % 64))
    case LessThan => Tells(r, x < y)
    case GreaterThan => Tells(r, y < x)
    case LessOrEqual => Tells(r, !(y < x))
    case GreaterOrEqual => Tells(r, !(x < y))
    case Equal => Tells(r, x == y)
    case NotEqual => Tells(r, x != y)
    case BitAnd => InWidth(r) && forall i: nat :: i < 64 ==> (Bit(r, i) <==> Bit(x, i) && Bit(y, i))
    case BitXor => InWidth(r) && forall i: nat :: i < 64 ==> (Bit(r, i) <==> Bit(x, i) != Bit(y, i))
    case BitOr => InWidth(r) && forall i: nat :: i < 64 ==> (Bit(r, i) <==> Bit(x, i) || Bit(y, i))
    case LogicalAnd => Tells(r, x != 0 && y != 0)
    case LogicalOr => Tells(r, x != 0 || y != 0)
  }

  ghost predicate UnaryYields(op: UnaryOperator, x: int, r: int) {
    match op
    case Minus => WrapsTo(r, -x)
    case BitNot => InWidth(r) && forall i: nat :: i < 64 ==> (Bit(r, i) <==> !Bit(x, i))
    case LogicalNot => Tells(r, x == 0)
  }

  lemma WrapWraps(value: int)
    ensures WrapsTo(Wrap(value), value)
  {
    var k := (value - Wrap(value)) / MODULUS;
    assert (Wrap(value) - value) % MODULUS == 0;
    assert value - Wrap(value) == k * MODULUS;
  }

  lemma QuotientDivides(x: int, y: int)
    requires y != 0
    ensures exists q, m :: Divides(x, y, q, m) && WrapsTo(Quotient(x, y), q) && m == Remainder(x, y)
  {
    hide Wrap, Divides;
    var a, b := if x < 0 then -x else x, if y < 0 then -y else y;
    var q := if (x < 0) == (y < 0) then a / b else -(a / b);
    MagnitudesDivide(x, y, a / b, a % b);
    WrapWraps(q);
    assert Divides(x, y, q, Remainder(x, y));
  }

  lemma MagnitudesDivide(x: int, y: int, q: int, m: int)
    requires y != 0 && 0 <= m < (if y < 0 then -y else y)
    requires (if x < 0 then -x else x) == q * (if y < 0 then -y else y) + m
    ensures Divides(x, y, if (x < 0) == (y < 0) then q else -q, if x < 0 then -m else m)
  {
    SignedProduct(q, if y < 0 then -y else y, if (x < 0) == (y < 0) then q else -q, y, x < 0);
  }

  lemma SignedProduct(q: int, b: int, s: int, y: int, negative: bool)
    requires b == (if y < 0 then -y else y) && s == if negative == (y < 0) then q else -q
    ensures s * y == if negative then -(q * b) else q * b
  {
  }

  /** Everything that two constants are made into is what the operator says. */
  lemma CalculateYields(op: Operator, x: int, y: int)
    requires InRange(x) && InRange(y)
    ensures Yields(op, x, y, Calculate(op, x, y)) && InRange(Calculate(op, x, y))
  {
    hide Wrap, Bit, Quotient, Remainder;
    match op {
      case Multiply => WrapWraps(x * y);
      case Divide => if y != 0 { QuotientDivides(x, y); }
      case Modulus =>
        if y != 0 {
          QuotientDivides(x, y);
        }
      case Add => WrapWraps(x + y);
      case Subtract => DifferenceWraps(x, y);
      case RightShift => ShiftedRight(x, y);
      case LeftShift => WrapWraps(x * Pow(2, y % WIDTH));
      case BitAnd => FromBitsIs((i: nat) => Bit(x, i) && Bit(y, i));
      case BitXor => FromBitsIs((i: nat) => Bit(x, i) != Bit(y, i));
      case BitOr => FromBitsIs((i: nat) => Bit(x, i) || Bit(y, i));
      case _ =>
    }
  }

  lemma DifferenceWraps(x: int, y: int)
    ensures WrapsTo(Wrap(x + Wrap(-y)), x - y)
  {
    hide Wrap;
    WrapWraps(-y);
    WrapWraps(x + Wrap(-y));
    var j: int :| -y - Wrap(-y) == j * MODULUS;
    var k: int :| x + Wrap(-y) - Wrap(x + Wrap(-y)) == k * MODULUS;
    SumTimes(j, k, MODULUS);
    assert x - y - Wrap(x + Wrap(-y)) == (j + k) * MODULUS;
  }

  lemma ShiftedRight(x: int, n: int)
    requires InRange(x)
    ensures var r, p := ShiftRight(x, n), Pow(2, n % 64);
      r * p <= x < (r + 1) * p && InRange(r)
  {
    hide Pow;
    var p := Pow(2, n % 64);
    PowPositive(2, n % 64);
    var r := x / p;
    assert x == r * p + x % p;
    SumTimes(r, 1, p);
    if r >= LIMIT {
      MulMonotone(r, 1, p);
    } else if r < -LIMIT {
      MulMonotone(-r - 1, 1, p);
    }
  }

  /** Adding a multiple of 2^n leaves the bits below n alone. */
  lemma BitPlus(x: int, k: int, n: nat, i: nat)
    requires i < n
    ensures Bit(x + k * Pow(2, n), i) <==> Bit(x, i)
  {
    hide Pow;
    var p, q := Pow(2, i), Pow(2, n - i - 1);
    PowPositive(2, i);
    EvenMultiple(k, n, i);
    PlusMultiple(x, k * q, p);
  }

  lemma EvenMultiple(k: int, n: nat, i: nat)
    requires i < n
    ensures k * Pow(2, n) == 2 * (k * Pow(2, n - i - 1)) * Pow(2, i)
  {
    hide Pow;
    var p, q := Pow(2, i), Pow(2, n - i - 1);
    PowAdd(2, i, n - i);
    PowStep(2, n - i - 1);
    MulRegroup(k, 2, q);
    MulRegroup(2 * (k * q), p, 1);
    MulRegroup(k, 2 * q, p);
  }

  lemma PlusMultiple(x: int, k: int, p: int)
    requires p > 0
    ensures (x + 2 * k * p) / p % 2 == x / p % 2
  {
    var y := x / p;
    SumTimes(y, 2 * k, p);
    DivModUnique(x + 2 * k * p, p, y + 2 * k, x % p);
  }

  lemma BitMinus(x: int, n: nat, i: nat)
    requires i < n
    ensures Bit(x - Pow(2, n), i) <==> Bit(x, i)
  {
    hide Pow, Bit;
    BitPlus(x, -1, n, i);
  }

  lemma {:induction false} WithBitsIs(bits: nat -> bool, n: nat, i: nat)
    ensures WithBits(bits, n) < Pow(2, n)
    ensures Bit(WithBits(bits, n), i) <==> i < n && bits(i)
  {
    hide Pow, Bit;
    if n == 0 {
      NoBits(i);
    } else {
      var v, p := WithBits(bits, n - 1), Pow(2, n - 1);
      WithBitsIs(bits, n - 1, i);
      PowStep(2, n - 1);
      if bits(n - 1) {
        TopBitAdded(v, n - 1, i);
      }
    }
  }

  lemma NoBits(i: nat)
    ensures !Bit(0, i) && Pow(2, 0) == 1
  {
    PowPositive(2, i);
    DivModUnique(0, Pow(2, i), 0, 0);
  }

  lemma TopBitAdded(v: nat, n: nat, i: nat)
    requires v < Pow(2, n)
    ensures Bit(v + Pow(2, n), i) <==> i == n || Bit(v, i)
  {
    hide Pow;
    var p := Pow(2, i);
    PowPositive(2, i);
    PowStep(2, n);
    if i < n {
      BitPlus(v, 1, n, i);
    } else if i == n {
      DivModUnique(v + p, p, 1, v);
    } else {
      PowMonotone(2, n + 1, i);
      DivModUnique(v + Pow(2, n), p, 0, v + Pow(2, n));
      DivModUnique(v, p, 0, v);
    }
  }

  lemma BitOfWrap(v: int, i: nat)
    requires i < 64
    ensures Bit(Wrap(v), i) <==> Bit(v, i)
  {
    hide Pow, Bit;
    WrapWraps(v);
    var k: int :| v - Wrap(v) == k * MODULUS;
    TwoToWidth();
    BitPlus(v, -k, 64, i);
  }

  lemma TwoToWidth()
    ensures Pow(2, 64) == MODULUS && Pow(2, 63) == LIMIT
  {
    hide Pow;
    assert Pow(2, 8) == 0x100 by { PowEight(); }
    PowAdd(2, 8, 8);
    PowAdd(2, 16, 16);
    PowAdd(2, 32, 32);
    PowStep(2, 63);
  }

  lemma PowEight()
    ensures Pow(2, 8) == 0x100
  {
  }

  lemma FromBitsIs(bits: nat -> bool)
    ensures InWidth(FromBits(bits)) && forall i: nat :: i < 64 ==> (Bit(FromBits(bits), i) <==> bits(i))
  {
    hide Bit, Pow, Wrap, WithBits;
    forall i: nat | i < 64
      ensures Bit(FromBits(bits), i) <==> bits(i)
    {
      BitOfWrap(WithBits(bits, 64), i);
      WithBitsIs(bits, 64, i);
    }
  }

  lemma UnaryIsRight(op: UnaryOperator, x: int)
    requires InRange(x)
    ensures UnaryYields(op, x, ApplyUnary(op, x)) && InRange(ApplyUnary(op, x))
  {
    hide Wrap, Bit;
    match op
    case Minus => WrapWraps(-x);
    case BitNot =>
      forall i: nat | i < 64
        ensures Bit(-x - 1, i) <==> !Bit(x, i)
      {
        ComplementBit(x, i);
      }
    case LogicalNot =>
  }

  lemma ComplementBit(x: int, i: nat)
    ensures Bit(-x - 1, i) <==> !Bit(x, i)
  {
    hide Pow;
    var p := Pow(2, i);
    PowPositive(2, i);
    var q, r := x / p, x % p;
    SumTimes(q, 1, p);
    assert -x - 1 == (-q - 1) * p + (p - 1 - r);
    DivModUnique(-x - 1, p, -q - 1, p - 1 - r);
  }

  lemma WrapsToUnique(r: int, s: int, value: int)
    requires WrapsTo(r, value) && WrapsTo(s, value)
    ensures r == s
  {
    var j: int :| value - r == j * MODULUS;
    var k: int :| value - s == k * MODULUS;
    assert s - r == (j - k) * MODULUS;
  }

  lemma DividesUnique(x: int, y: int, q: int, m: int, q': int, m': int)
    requires Divides(x, y, q, m) && Divides(x, y, q', m')
    ensures q == q' && m == m'
  {
    SumTimes(q, -q', y);
    var d := if y < 0 then -y else y;
    var k := if y < 0 then q' - q else q - q';
    assert k * d == (q - q') * y;
    assert m' - m == k * d;
    SmallMultiple(k, d);
    if y < 0 {
      SmallMultiple(q - q', d);
    }
  }

  lemma {:induction false} BelowByBits(v: nat, w: nat, n: nat)
    requires v < Pow(2, n) && w < Pow(2, n) && forall i: nat :: i < n ==> (Bit(v, i) <==> Bit(w, i))
    ensures v == w
  {
    hide Pow, Bit;
    if n == 0 {
      NoBits(0);
    } else {
      var p := Pow(2, n - 1);
      PowStep(2, n - 1);
      TopBitIs(v, n - 1);
      TopBitIs(w, n - 1);
      assert Bit(v, n - 1) <==> Bit(w, n - 1);
      var v', w' := if v >= p then v - p else v, if w >= p then w - p else w;
      forall i: nat | i < n - 1
        ensures Bit(v', i) <==> Bit(w', i)
      {
        BitMinus(v, n - 1, i);
        BitMinus(w, n - 1, i);
      }
      BelowByBits(v', w', n - 1);
    }
  }

  lemma TopBitIs(v: nat, n: nat)
    requires v < Pow(2, n + 1)
    ensures Bit(v, n) <==> v >= Pow(2, n)
  {
    hide Pow;
    var p := Pow(2, n);
    PowPositive(2, n);
    PowStep(2, n);
    if v >= p {
      DivModUnique(v, p, 1, v - p);
    } else {
      DivModUnique(v, p, 0, v);
    }
  }

  /** A 64-bit number is known by its bits. */
  lemma BitwiseUnique(r: int, s: int)
    requires InWidth(r) && InWidth(s) && forall i: nat :: i < 64 ==> (Bit(r, i) <==> Bit(s, i))
    ensures r == s
  {
    hide Pow, Bit;
    TwoToWidth();
    var v, w := r % MODULUS, s % MODULUS;
    forall i: nat | i < 64
      ensures Bit(v, i) <==> Bit(w, i)
    {
      BitPlus(r, -(r / MODULUS), 64, i);
      BitPlus(s, -(s / MODULUS), 64, i);
      assert Bit(r, i) <==> Bit(s, i);
    }
    BelowByBits(v, w, 64);
  }

  lemma ShiftUnique(x: int, p: int, r: int, s: int)
    requires p > 0 && r * p <= x < (r + 1) * p && s * p <= x < (s + 1) * p
    ensures r == s
  {
    SumTimes(r, 1, p);
    SumTimes(s, 1, p);
    SumTimes(r, -s, p);
    SmallMultiple(r - s, p);
  }

  /** At most one result is right. */
  lemma YieldsUnique(op: Operator, x: int, y: int, r: int, s: int)
    requires Yields(op, x, y, r) && Yields(op, x, y, s)
    ensures r == s
  {
    hide Bit, Pow, WrapsTo, Divides;
    match op {
      case Multiply => WrapsToUnique(r, s, x * y);
      case Divide =>
        if y != 0 {
          var q, m :| Divides(x, y, q, m) && WrapsTo(r, q);
          var q', m' :| Divides(x, y, q', m') && WrapsTo(s, q');
          DividesUnique(x, y, q, m, q', m');
          WrapsToUnique(r, s, q);
        }
      case Modulus =>
        if y != 0 {
          var q :| Divides(x, y, q, r);
          var q' :| Divides(x, y, q', s);
          DividesUnique(x, y, q, r, q', s);
        }
      case Add => WrapsToUnique(r, s, x + y);
      case Subtract => WrapsToUnique(r, s, x - y);
      case RightShift =>
        PowPositive(2, y % 64);
        ShiftUnique(x, Pow(2, y % 64), r, s);
      case LeftShift => WrapsToUnique(r, s, x * Pow(2, y % 64));
      case BitAnd => BitwiseUnique(r, s);
      case BitXor => BitwiseUnique(r, s);
      case BitOr => BitwiseUnique(r, s);
      case _ =>
    }
  }

  lemma UnaryYieldsUnique(op: UnaryOperator, x: int, r: int, s: int)
    requires UnaryYields(op, x, r) && UnaryYields(op, x, s)
    ensures r == s
  {
    hide Bit, WrapsTo;
    match op
    case Minus => WrapsToUnique(r, s, -x);
    case BitNot => BitwiseUnique(r, s);
    case LogicalNot =>
  }
}
