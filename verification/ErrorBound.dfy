/** How far the words may be from the number in the text: a closed bound on the
    relative error, from the accuracy of the tables and the size of the
    products. */
module ErrorBound {
  import opened Arithmetic
  import opened Littlenum
  import opened FlonumMult
  import opened CString
  import opened DecimalText
  import opened DecimalScan
  import opened DigitRoom
  import opened DigitAccumulation
  import opened PowerOfTen
  import opened PowerOfTenTheorems
  import opened AtofGeneric
  import opened IeeeFormat
  import opened IeeeRounding
  import opened GenToWords
  import opened GenToWordsTheorems
  import opened AtofIeee

  /** b^x, the exponent of either sign. */
  function Scale(b: nat, x: int): (r: real)
    requires b > 0
    ensures r > 0.0
  {
    PowPositive(b, if x < 0 then -x else x);
    if x < 0 then 1.0 / Pow(b, -x) as real else Pow(b, x) as real
  }

  lemma ScaleStep(b: nat, x: int)
    requires b > 0
    ensures Scale(b, x + 1) == b as real * Scale(b, x)
  {
    hide Pow;
    var n := if x >= 0 then x else -x - 1;
    PowStep(b, n);
    PowPositive(b, n);
    CastTimes(b, Pow(b, n));
    Reciprocal(b as real, Pow(b, n) as real);
    PowZero(b);
  }

  lemma PowZero(b: nat)
    ensures Pow(b, 0) == 1
  {
  }

  lemma CastTimes(x: int, y: int)
    ensures (x * y) as real == x as real * y as real
  {
  }

  lemma Reciprocal(x: real, y: real)
    requires x > 0.0 && y > 0.0
    ensures x * y > 0.0 && 1.0 / y == x * (1.0 / (x * y))
  {
  }

  lemma {:induction false} ScaleAddNat(b: nat, x: int, n: nat)
    requires b > 0
    ensures Scale(b, x + n) == Scale(b, x) * Scale(b, n)
  {
    hide Scale;
    if n == 0 {
      ScaleZero(b);
    } else {
      ScaleAddNat(b, x, n - 1);
      ScaleStep(b, x + (n - 1));
      ScaleStep(b, n - 1);
      Regroup(b as real, Scale(b, x), Scale(b, n - 1));
    }
  }

  lemma ScaleZero(b: nat)
    requires b > 0
    ensures Scale(b, 0) == 1.0
  {
  }

  lemma Regroup(x: real, y: real, z: real)
    ensures x * (y * z) == y * (x * z) == (x * y) * z
  {
  }

  lemma ScaleAdd(b: nat, x: int, y: int)
    requires b > 0
    ensures Scale(b, x + y) == Scale(b, x) * Scale(b, y)
  {
    hide Scale;
    if y >= 0 {
      ScaleAddNat(b, x, y);
    } else {
      ScaleAddNat(b, x + y, -y);
      ScaleAddNat(b, y, -y);
      ScaleZero(b);
      Regroup(Scale(b, x + y), Scale(b, -y), Scale(b, y));
    }
  }

  /** Neither exceeds the other by more than the factor. */
  ghost predicate Within(x: real, y: real, factor: real) {
    x > 0.0 && y > 0.0 && factor >= 1.0 && x <= y * factor && y <= x * factor
  }

  lemma TimesAtMost(x: real, y: real, u: real, v: real)
    requires 0.0 <= x <= y && 0.0 <= u <= v
    ensures 0.0 <= x * u <= y * v
  {
    assert x * u <= y * u;
    assert y * u <= y * v;
  }

  lemma WithinTimes(x: real, y: real, f: real, u: real, v: real, g: real, xu: real, yv: real, fg: real)
    requires Within(x, y, f) && Within(u, v, g)
    requires xu == x * u && yv == y * v && fg == f * g
    ensures Within(xu, yv, fg)
  {
    TimesAtMost(x, y * f, u, v * g);
    TimesAtMost(y, x * f, v, u * g);
    Swapped(y, f, v, g);
    Swapped(x, f, u, g);
    TimesAtMost(1.0, f, 1.0, g);
    Positive(x, u);
    Positive(y, v);
  }

  lemma Positive(x: real, y: real)
    requires x > 0.0 && y > 0.0
    ensures x * y > 0.0
  {
  }

  lemma Swapped(x: real, f: real, u: real, g: real)
    ensures (x * f) * (u * g) == (x * u) * (f * g)
  {
    Regroup(x * f, u, g);
    Regroup(x, f, u);
    Regroup(x, u, f);
    Regroup(x * u, f, g);
  }

  lemma WithinTrans(x: real, y: real, z: real, f: real, g: real, fg: real)
    requires Within(x, y, f) && Within(y, z, g) && fg == f * g
    ensures Within(x, z, fg)
  {
    TimesAtMost(y, z * g, f, f);
    TimesAtMost(y, x * f, g, g);
    Regroup(z, f, g);
    Regroup(x, f, g);
    TimesAtMost(1.0, f, 1.0, g);
    assert z * g * f == z * fg && x * f * g == x * fg;
    TimesAtMost(z, y * g, 1.0, 1.0);
  }

  function Value(n: Num): real {
    n.mantissa as real * Scale(RADIX, n.exponent)
  }

  /** What a product that fills so many littlenums may lose. */
  function Rounding(capacity: nat): (r: real)
    requires capacity > 0
    ensures r >= 1.0
  {
    PowPositive(RADIX, capacity - 1);
    1.0 + 1.0 / Pow(RADIX, capacity - 1) as real
  }

  /** A product is exact or fills the array. */
  predicate Kept(a: Num, b: Num, capacity: nat) {
    Remainder(a, b, capacity) == 0 || Times(a, b, capacity).size == capacity
  }

  lemma RoundingLoss(kept: nat, whole: nat, capacity: nat)
    requires capacity > 0 && 0 < kept <= whole
    requires whole == kept || (whole - kept) * Pow(RADIX, capacity - 1) <= kept
    ensures Within(kept as real, whole as real, Rounding(capacity))
  {
    hide Pow;
    PowPositive(RADIX, capacity - 1);
    var k := Pow(RADIX, capacity - 1) as real;
    if whole != kept {
      CastTimes(whole - kept, Pow(RADIX, capacity - 1));
      OverDivisor((whole - kept) as real, kept as real, k);
      Regroup(kept as real, 1.0, 1.0 / k);
      assert kept as real * Rounding(capacity) == kept as real + kept as real * (1.0 / k);
    } else {
      TimesAtMost(kept as real, whole as real, 1.0, Rounding(capacity));
    }
    TimesAtMost(kept as real, whole as real, 1.0, Rounding(capacity));
  }

  lemma OverDivisor(x: real, y: real, k: real)
    requires k > 0.0 && x * k <= y
    ensures x <= y * (1.0 / k)
  {
    assert y * (1.0 / k) == y / k;
  }

  /** One product. */
  lemma TimesWithin(a: Num, b: Num, capacity: nat)
    requires capacity > 0 && IsNormal(a) && IsNormal(b) && Kept(a, b, capacity)
    requires Times(a, b, capacity).size > 0
    ensures Within(Value(Times(a, b, capacity)), Value(a) * Value(b), Rounding(capacity))
  {
    hide Pow, Truncation, Scale, Within, Rounding, IsNormal, Kept, Value;
    var r, p := Times(a, b, capacity), Pow(RADIX, Cut(a, b, capacity));
    KeptLoss(a, b, capacity);
    RoundingLoss(r.mantissa * p, a.mantissa * b.mantissa, capacity);
    ScaledNat(RADIX, r.mantissa, a.exponent + b.exponent, Cut(a, b, capacity));
    assert Value(r) == r.mantissa as real * Scale(RADIX, r.exponent) by { ValueIs(r); }
    ProductValue(a, b);
    WithinScaled((r.mantissa * p) as real, (a.mantissa * b.mantissa) as real, Rounding(capacity),
                 Scale(RADIX, a.exponent + b.exponent), Value(r), Value(a) * Value(b));
  }

  lemma KeptLoss(a: Num, b: Num, capacity: nat)
    requires capacity > 0 && IsNormal(a) && IsNormal(b) && Kept(a, b, capacity)
    requires Times(a, b, capacity).size > 0
    ensures var t, kept := a.mantissa * b.mantissa, Times(a, b, capacity).mantissa * Pow(RADIX, Cut(a, b, capacity));
      0 < kept <= t && (t == kept || (t - kept) * Pow(RADIX, capacity - 1) <= kept)
  {
    hide Pow, Truncation;
    var r, p, rem := Times(a, b, capacity), Pow(RADIX, Cut(a, b, capacity)), Remainder(a, b, capacity);
    PowPositive(RADIX, Cut(a, b, capacity));
    TimesNormal(a, b, capacity);
    PowPositive(RADIX, r.size - 1);
    assert a.mantissa * b.mantissa == r.mantissa * p + rem;
    MulPositive(r.mantissa, p);
    if rem != 0 {
      MulMonotone(r.mantissa, rem, p);
      MulMonotone(rem, Pow(RADIX, capacity - 1), r.mantissa);
    }
  }

  lemma ScaledNat(b: nat, m: nat, x: int, k: nat)
    requires b > 0
    ensures m as real * Scale(b, x + k) == (m * Pow(b, k)) as real * Scale(b, x)
  {
    hide Pow, Scale;
    ScaleAdd(b, x, k);
    CastTimes(m, Pow(b, k));
    ScaleNat(b, k);
    Regroup(m as real, Scale(b, x), Scale(b, k));
    Regroup(m as real, Scale(b, k), Scale(b, x));
  }

  lemma ValueIs(r: Num)
    ensures Value(r) == r.mantissa as real * Scale(RADIX, r.exponent)
  {
  }

  lemma ProductValue(a: Num, b: Num)
    ensures Value(a) * Value(b) == (a.mantissa * b.mantissa) as real * Scale(RADIX, a.exponent + b.exponent)
  {
    hide Scale;
    ScaleAdd(RADIX, a.exponent, b.exponent);
    CastTimes(a.mantissa, b.mantissa);
    Swapped(a.mantissa as real, Scale(RADIX, a.exponent), b.mantissa as real, Scale(RADIX, b.exponent));
  }

  lemma WithinScaled(x: real, y: real, f: real, c: real, xc: real, yc: real)
    requires Within(x, y, f) && c > 0.0 && xc == x * c && yc == y * c
    ensures Within(xc, yc, f)
  {
    WithinTimes(x, y, f, c, c, 1.0, xc, yc, f);
  }

  lemma ScaleNat(b: nat, n: nat)
    requires b > 0
    ensures Scale(b, n) == Pow(b, n) as real
  {
  }

  /** Every product on the way is exact or fills the array, and does not come
      out as zero. */
  predicate ChainKept(table: seq<Num>, exponent: nat, place: nat, power: Num, capacity: nat)
    requires |table| == TABLE_SIZE + 1
  {
    exponent == 0
    || (exponent % 2 == 0 && ChainKept(table, exponent / 2, place + 1, power, capacity))
    || (exponent % 2 == 1 && place > TABLE_SIZE)
    || (exponent % 2 == 1 && place <= TABLE_SIZE && Kept(table[place], power, capacity)
        && Times(table[place], power, capacity).size > 0
        && ChainKept(table, exponent / 2, place + 1, Step(table[place], power, capacity), capacity))
  }

  /** Entry i stands for 10^(2^(i - 1)), or for its reciprocal, up to a factor. */
  ghost predicate Accurate(table: seq<Num>, sign: int, h: real) {
    |table| == TABLE_SIZE + 1
    && forall i :: 1 <= i <= TABLE_SIZE ==> Within(Value(table[i]), Scale(10, sign * Pow(2, i - 1)), h)
  }

  function RealPow(g: real, n: nat): real {
    if n == 0 then 1.0 else g * RealPow(g, n - 1)
  }

  /** How many bits of the exponent are set. */
  function Ones(n: nat): nat {
    if n == 0 then 0 else n % 2 + Ones(n / 2)
  }

  /** What the bits of the exponent from this place on stand for. */
  function Weight(sign: int, exponent: nat, place: nat): int
    requires place >= 1
  {
    sign * (exponent * Pow(2, place - 1))
  }

  lemma WeightStep(sign: int, exponent: nat, place: nat)
    requires place >= 1
    ensures Weight(sign, exponent, place) ==
      Weight(sign, exponent / 2, place + 1) + if exponent % 2 == 1 then Weight(sign, 1, place) else 0
  {
    hide Pow;
    var half, bit, p := exponent / 2, exponent % 2, Pow(2, place - 1);
    PowStep(2, place - 1);
    SumTimes(2 * half, bit, p);
    MulRegroup(half, 2, p);
    MulDistributes(sign, half * Pow(2, place), bit * p);
    assert 1 * p == p && 0 * p == 0;
  }

  /** The power of ten is right up to one factor of the tables and one of
      rounding for each bit of its exponent. */
  lemma {:induction false} ChainWithin(table: seq<Num>, sign: int, exponent: nat, place: nat, power: Num, capacity: nat,
                                       h: real, x: int, f: real, all: real)
    requires NormalTable(table) && Accurate(table, sign, h) && place >= 1 && capacity > 0
    requires all == f * RealPow(h * Rounding(capacity), Ones(exponent))
    requires IsNormal(power) && Within(Value(power), Scale(10, x), f)
    requires ChainKept(table, exponent, place, power, capacity) && !Overflows(exponent, place)
    ensures IsNormal(Chain(table, exponent, place, power, capacity))
    ensures Within(Value(Chain(table, exponent, place, power, capacity)),
                   Scale(10, x + Weight(sign, exponent, place)), all)
    decreases exponent
  {
    hide Pow, IsNormal, Times, Scale, Within, Value, Rounding, Kept, Weight, Accurate, Step, Remainder, Truncation;
    ChainNormal(table, exponent, place, power, capacity);
    var g, half := h * Rounding(capacity), exponent / 2;
    WeightStep(sign, exponent, place);
    if exponent == 0 {
      NoWeight(sign, place);
      assert all == f;
    } else if exponent % 2 == 0 {
      ChainWithin(table, sign, half, place + 1, power, capacity, h, x, f, all);
    } else if place <= TABLE_SIZE {
      var step := Step(table[place], power, capacity);
      EntryWithin(table, sign, place, h);
      StepWithin(table[place], power, capacity, h, Weight(sign, 1, place), x, f, g * f);
      Regroup(f, g, RealPow(g, Ones(half)));
      ChainWithin(table, sign, half, place + 1, step, capacity, h, Weight(sign, 1, place) + x, g * f, all);
    }
  }

  lemma NoWeight(sign: int, place: nat)
    requires place >= 1
    ensures Weight(sign, 0, place) == 0
  {
  }

  lemma EntryWithin(table: seq<Num>, sign: int, place: nat, h: real)
    requires Accurate(table, sign, h) && 1 <= place <= TABLE_SIZE
    ensures Within(Value(table[place]), Scale(10, Weight(sign, 1, place)), h)
  {
    hide Within, Value, Scale, Pow;
    assert Weight(sign, 1, place) == sign * Pow(2, place - 1);
  }

  lemma StepWithin(entry: Num, power: Num, capacity: nat, h: real, y: int, x: int, f: real, all: real)
    requires capacity > 0 && IsNormal(entry) && IsNormal(power) && Kept(entry, power, capacity)
    requires Times(entry, power, capacity).size > 0
    requires Within(Value(entry), Scale(10, y), h) && Within(Value(power), Scale(10, x), f)
    ensures IsNormal(Step(entry, power, capacity))
    requires all == (h * Rounding(capacity)) * f
    ensures Within(Value(Step(entry, power, capacity)), Scale(10, y + x), all)
  {
    hide Pow, IsNormal, Times, Scale, Within, Value, Rounding, Kept;
    TimesNormal(entry, power, capacity);
    TimesWithin(entry, power, capacity);
    ScaleAdd(10, y, x);
    var exact := Value(entry) * Value(power);
    WithinTimes(Value(entry), Scale(10, y), h, Value(power), Scale(10, x), f, exact, Scale(10, y + x), h * f);
    Regroup(Rounding(capacity), h, f);
    Regroup(h, Rounding(capacity), f);
    WithinTrans(Value(Step(entry, power, capacity)), exact, Scale(10, y + x), Rounding(capacity), h * f, all);
  }

  /** d * 10^e */
  function Decimal(d: nat, e: int): real {
    d as real * Scale(10, e)
  }

  function Magnitude(e: int): nat {
    if e < 0 then -e else e
  }

  /** The power of ten that goes into the product. */
  function PowerOf(e: int, positive: seq<Num>, negative: seq<Num>, precision: nat): Num
    requires |positive| == |negative| == TABLE_SIZE + 1
  {
    Chain(if e < 0 then negative else positive, Magnitude(e), 1, Num(1, 1, 0), precision)
  }

  /** Every product made for d * 10^e is exact or fills its array, and the last
      is not zero. */
  predicate ProductKept(d: nat, e: int, positive: seq<Num>, negative: seq<Num>, precision: nat)
    requires |positive| == |negative| == TABLE_SIZE + 1
  {
    && ChainKept(if e < 0 then negative else positive, Magnitude(e), 1, Num(1, 1, 0), precision)
    && Kept(PowerOf(e, positive, negative, precision), Num(d, LittlenumsOf(d), 0), precision)
    && Product(d, e, positive, negative, precision).size > 0
  }

  /** The bound for a decimal exponent: a factor of the tables and one of
      rounding for each bit set, and one more of rounding. */
  function Bound(h: real, e: int, precision: nat): real
    requires precision > 0
  {
    Rounding(precision) * PowerBound(h, e, precision)
  }

  function PowerBound(h: real, e: int, precision: nat): real
    requires precision > 0
  {
    RealPow(h * Rounding(precision), Ones(Magnitude(e)))
  }

  lemma ProductWithin(d: nat, e: int, positive: seq<Num>, negative: seq<Num>, precision: nat, h: real)
    requires |positive| == |negative| == TABLE_SIZE + 1
    requires NormalTable(positive) && NormalTable(negative) && precision > 0 && d > 0 && -0x800 < e < 0x800
    requires Accurate(positive, 1, h) && Accurate(negative, -1, h)
    requires ProductKept(d, e, positive, negative, precision)
    ensures Within(Value(Product(d, e, positive, negative, precision)), Decimal(d, e), Bound(h, e, precision))
  {
    hide Pow, IsNormal, Times, Scale, Within, Rounding, Kept, Accurate, ChainKept, Chain, NormalTable, RealPow, Value,
         Decimal, Weight, LittlenumsOf;
    var g, n := PowerBound(h, e, precision), Num(d, LittlenumsOf(d), 0);
    var power := PowerOf(e, positive, negative, precision);
    PowerWithin(d, e, positive, negative, precision, h);
    LittlenumsBracket(d);
    TimesWithin(power, n, precision);
    var exact := Value(power) * Value(n);
    WholeValue(d, LittlenumsOf(d));
    DecimalIs(d, e);
    WithinScaled(Value(power), Scale(10, e), g, d as real, exact, Decimal(d, e));
    WithinTrans(Value(Product(d, e, positive, negative, precision)), exact, Decimal(d, e), Rounding(precision), g,
                Bound(h, e, precision));
  }

  lemma DecimalIs(d: nat, e: int)
    ensures Decimal(d, e) == d as real * Scale(10, e) == Scale(10, e) * d as real
  {
  }

  lemma PowerWithin(d: nat, e: int, positive: seq<Num>, negative: seq<Num>, precision: nat, h: real)
    requires |positive| == |negative| == TABLE_SIZE + 1
    requires NormalTable(positive) && NormalTable(negative) && precision > 0 && -0x800 < e < 0x800
    requires Accurate(positive, 1, h) && Accurate(negative, -1, h)
    requires ProductKept(d, e, positive, negative, precision)
    ensures var power := PowerOf(e, positive, negative, precision);
      IsNormal(power) && Within(Value(power), Scale(10, e), PowerBound(h, e, precision))
  {
    hide Pow, IsNormal, Times, Scale, Within, Rounding, Kept, Accurate, ChainKept, Chain, NormalTable, RealPow, Value,
         Weight, Overflows;
    var table, sign := if e < 0 then negative else positive, if e < 0 then -1 else 1;
    One();
    WholeWeight(e);
    OverflowsIff(Magnitude(e), 1);
    TwoToEleven();
    ZeroNormal(0);
    var g := PowerBound(h, e, precision);
    assert g == 1.0 * RealPow(h * Rounding(precision), Ones(Magnitude(e)));
    ChainWithin(table, sign, Magnitude(e), 1, Num(1, 1, 0), precision, h, 0, 1.0, g);
  }

  lemma One()
    ensures Within(Value(Num(1, 1, 0)), Scale(10, 0), 1.0)
  {
    ScaleZero(10);
    ScaleZero(RADIX);
  }

  lemma WholeWeight(e: int)
    ensures Weight(if e < 0 then -1 else 1, Magnitude(e), 1) == e
  {
    assert Pow(2, 0) == 1;
  }

  lemma WholeValue(d: nat, size: nat)
    ensures Value(Num(d, size, 0)) == d as real
  {
    ScaleZero(RADIX);
  }

  /** The number a text spells. */
  function NumberValue(number: Number): real {
    Decimal(Dec(number.digits), number.exponent - number.fraction)
  }

  /** What cutting the number to the digits d costs. */
  function CutFactor(d: nat, all: bool): real
    requires d > 0
  {
    if all then 1.0 else 1.0 + 1.0 / d as real
  }

  /** What cutting a number to so many digits costs: nothing when it has no
      more; one part in 10^(limit - 1) when the first of them is not zero; and
      one part in the integer d that is read when zeros follow the point. */
  function LimitFactor(r: Scan, limit: nat, d: nat): real
    requires limit > 0 && d > 0
  {
    if r.before + r.after <= limit then 1.0
    else 1.0 + if r.before > 0 then Scale(10, 1 - limit) else 1.0 / d as real
  }

  lemma CutWithinLimit(r: Scan, limit: nat, d: nat, n: nat)
    requires limit > 0 && d > 0 && n == Min(r.before + r.after, limit)
    requires r.before > 0 ==> d >= Pow(10, n - 1)
    ensures 1.0 <= CutFactor(d, n == r.before + r.after) <= LimitFactor(r, limit, d)
  {
    hide Pow;
    if r.before + r.after > limit && r.before > 0 {
      PowPositive(10, limit - 1);
      Reciprocals(Pow(10, limit - 1) as real, d as real);
      ScaleDown(limit);
    }
  }

  lemma ScaleDown(limit: nat)
    requires limit > 0
    ensures Pow(10, limit - 1) > 0 && Scale(10, 1 - limit) == 1.0 / Pow(10, limit - 1) as real
  {
    PowPositive(10, limit - 1);
    assert Pow(10, 0) == 1;
  }

  lemma Reciprocals(x: real, y: real)
    requires 0.0 < x <= y
    ensures 0.0 < 1.0 / y <= 1.0 / x
  {
  }

  lemma WithinMore(x: real, y: real, f: real, g: real)
    requires Within(x, y, f) && f <= g
    ensures Within(x, y, g)
  {
    TimesAtMost(x, x, f, g);
    TimesAtMost(y, y, f, g);
  }

  /** A number whose first digit is not zero. */
  lemma {:induction false} FirstDigitCounts(s: string)
    requires s != "" && IsDigit(s[0]) && s[0] != '0'
    ensures Dec(s) >= Pow(10, |s| - 1)
  {
    if |s| > 1 {
      FirstDigitCounts(s[..|s| - 1]);
      PowStep(10, |s| - 2);
    } else {
      assert s[..0] == "" && Pow(10, 0) == 1;
    }
  }

  lemma FirstDigits(text: string, r: Scan, number: Number, n: nat)
    requires SameNumber(text, r, number) && r.InText(text) && 0 < n <= r.before + r.after && r.before > 0
    ensures Dec(r.Digits(text)[..n]) >= Pow(10, n - 1)
  {
    hide Dec, Pow;
    var s := r.Digits(text);
    assert s[0] == text[r.first] == text[r.first..r.first + r.before][0];
    FirstDigitCounts(s[..n]);
  }

  lemma CutWithin(text: string, r: Scan, number: Number, n: nat)
    requires SameNumber(text, r, number) && r.InText(text) && n <= r.before + r.after
    requires Dec(r.Digits(text)[..n]) > 0
    ensures var d := Dec(r.Digits(text)[..n]);
      Within(Decimal(d, DecimalExponent(r, n)), NumberValue(number), CutFactor(d, n == r.before + r.after))
  {
    hide Dec, Pow, Scale, Within, SameNumber, CutFactor, Scan.Digits, Decimal;
    CutDigits(text, r, number, n);
    CutDecimal(Dec(r.Digits(text)[..n]), Dec(number.digits), DecimalExponent(r, n), number.exponent - number.fraction,
               n == r.before + r.after);
  }

  lemma CutDecimal(d: nat, whole: nat, e: int, x: int, all: bool)
    requires d > 0 && e >= x && Pow(10, e - x) > 0 && d == whole / Pow(10, e - x)
    requires all ==> whole == d * Pow(10, e - x)
    ensures Within(Decimal(d, e), Decimal(whole, x), CutFactor(d, all))
  {
    hide Pow, Scale, Within, CutFactor;
    var p := Pow(10, e - x);
    CutLoss(d, whole, p, all);
    ScaledNat(10, d, x, e - x);
    WithinScaled((d * p) as real, whole as real, CutFactor(d, all), Scale(10, x), Decimal(d, e), Decimal(whole, x));
  }

  lemma CutLoss(d: nat, whole: nat, p: nat, all: bool)
    requires d > 0 && p > 0 && d == whole / p && (all ==> whole == d * p)
    ensures Within((d * p) as real, whole as real, CutFactor(d, all))
  {
    assert d * p <= whole < d * p + p;
    MulPositive(d, p);
    CastTimes(d, p);
    if all {
      TimesAtMost(whole as real, whole as real, 1.0, 1.0);
    } else {
      Regroup(1.0 / d as real, d as real, p as real);
      assert (d * p) as real * CutFactor(d, all) == (d * p) as real + p as real;
      TimesAtMost((d * p) as real, whole as real, 1.0, CutFactor(d, all));
    }
  }

  /** From text to words: the words are the roundTiesToAway encoding of a number
      that is within a closed factor of the one in the text, from which at most
      11 digits are used for a float and 21 for a double. The products must be
      exact or fill their arrays, and the encoding one of the good cases. */
  lemma TextToWords(text: string, scan: Scan, number: Number, fm: Format, words: seq<Littlenum>, sign: nat,
                    value: Num, positive: seq<Num>, negative: seq<Num>, c: nat, above: Littlenum, h: real, n: nat)
    requires fm.Valid() && |words| == fm.words && sign <= 1 && |positive| == |negative| == TABLE_SIZE + 1
    requires NormalTable(positive) && NormalTable(negative)
    requires Accurate(positive, 1, h) && Accurate(negative, -1, h)
    requires SameNumber(text, scan, number) && scan.InText(text) && scan.before + scan.after > 0
    requires Converted(text, scan, value, 0, positive, negative, fm.words + GUARD)
    requires IsResult(fm, words, sign, value, 0, c, above)
    requires n == Min(scan.before + scan.after, if fm.words == 2 then 11 else 21)
    requires var d := Dec(scan.Digits(text)[..n]);
      d > 0 && ProductKept(d, DecimalExponent(scan, n), positive, negative, fm.words + GUARD)
    requires Good(fm, value.mantissa, c, BiasedExponent(fm, c, value.exponent), above)
    ensures var d := Dec(scan.Digits(text)[..n]);
      var code := Be(words) - sign * TopBit(fm.words);
      && code >= 0
      && IsRoundTiesToAway(fm, code, value.mantissa, BITS * value.exponent + UnitExponent(fm))
      && Within(Value(value), NumberValue(number),
                TextBound(h, DecimalExponent(scan, n), fm.words + GUARD,
                          LimitFactor(scan, if fm.words == 2 then 11 else 21, d)))
  {
    hide Be, TopBit, WordBits, HasBits, Pow, Good, IsRoundTiesToAway, Product, Dec, SameNumber, Scan.Digits, Bound,
         NormalTable, Accurate, ProductKept, Within, Value, Scale, NumberValue, CutFactor, UsefulDigits, Decimal,
         LimitFactor;
    FormatDigits(fm);
    var d, e := Dec(scan.Digits(text)[..n]), DecimalExponent(scan, n);
    ProductKeeps(d, e, positive, negative, fm.words + GUARD);
    RoundsCorrectlyIff(fm, sign, value.mantissa, c, BiasedExponent(fm, c, value.exponent), above);
    ProductWithin(d, e, positive, negative, fm.words + GUARD, h);
    var limit := if fm.words == 2 then 11 else 21;
    var cut := LimitFactor(scan, limit, d);
    if scan.before > 0 {
      FirstDigits(text, scan, number, n);
    }
    CutWithinLimit(scan, limit, d, n);
    CutWithin(text, scan, number, n);
    WithinMore(Decimal(d, e), NumberValue(number), CutFactor(d, n == scan.before + scan.after), cut);
    WithinTrans(Value(value), Decimal(d, e), NumberValue(number), Bound(h, e, fm.words + GUARD), cut,
                TextBound(h, e, fm.words + GUARD, cut));
  }

  /** All of it: the tables, the rounding of the products, and the cut. */
  function TextBound(h: real, e: int, precision: nat, cut: real): real
    requires precision > 0
  {
    Bound(h, e, precision) * cut
  }

  lemma ProductKeeps(d: nat, e: int, positive: seq<Num>, negative: seq<Num>, precision: nat)
    requires |positive| == |negative| == TABLE_SIZE + 1
    requires ProductKept(d, e, positive, negative, precision)
    ensures Product(d, e, positive, negative, precision).size > 0
  {
  }
}
