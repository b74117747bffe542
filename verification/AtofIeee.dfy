/** From the text of a number to the words of a float or a double. */
module AtofIeee {
  import opened Arithmetic
  import opened Littlenum
  import opened Flonums
  import opened FlonumMult
  import opened CString
  import opened DecimalText
  import opened DecimalScan
  import opened DigitRoom
  import opened DigitAccumulation
  import opened PowerOfTen
  import opened AtofGeneric
  import opened BitStream
  import opened IeeeFormat
  import opened IeeeRounding
  import opened GenToWords
  import opened GenToWordsTheorems

  const GUARD: nat := 2

  /** A number without leading zero littlenums. */
  ghost predicate IsNormal(n: Num) {
    if n.size == 0 then n.mantissa == 0
    else Pow(RADIX, n.size - 1) <= n.mantissa < Pow(RADIX, n.size)
  }

  /** The entries that are used; the first one never is. */
  ghost predicate NormalTable(nums: seq<Num>) {
    |nums| == TABLE_SIZE + 1 && forall i :: 1 <= i < |nums| ==> IsNormal(nums[i])
  }

  lemma TruncationWithin(t: nat, columns: nat, capacity: nat)
    requires capacity > 0
    ensures Truncation(t, columns, capacity) <= columns + if t < Pow(RADIX, columns) then 0 else 1
    ensures t == 0 ==> Truncation(t, columns, capacity) == columns
  {
    hide Pow;
    PowPositive(RADIX, columns);
  }

  /** A truncated product has no leading zero littlenums if the factors have
      none, or is zero. */
  lemma TimesNormal(a: Num, b: Num, capacity: nat)
    requires capacity > 0 && IsNormal(a) && (IsNormal(b) || b.mantissa == 0)
    ensures IsNormal(Times(a, b, capacity))
  {
    hide Pow, Truncation;
    var columns := Max(0, a.size + b.size - 1);
    var t := a.mantissa * b.mantissa;
    var k := Truncation(t, columns, capacity);
    TruncationWithin(t, columns, capacity);
    PowPositive(RADIX, columns);
    PowPositive(RADIX, k);
    if a.mantissa == 0 || b.mantissa == 0 {
      assert t == 0;
      DivModUnique(0, Pow(RADIX, k), 0, 0);
    } else {
      NormalPositive(a);
      NormalPositive(b);
      ProductBracket(a, b);
      QuotientBracket(t, k, columns + if t < Pow(RADIX, columns) then 0 else 1);
    }
  }

  lemma NormalPositive(a: Num)
    requires IsNormal(a) && a.mantissa != 0
    ensures a.size > 0
  {
  }

  lemma ProductBracket(a: Num, b: Num)
    requires IsNormal(a) && IsNormal(b) && a.size > 0 && b.size > 0
    ensures Pow(RADIX, a.size + b.size - 2) <= a.mantissa * b.mantissa < Pow(RADIX, a.size + b.size)
  {
    hide Pow;
    PowAdd(RADIX, a.size - 1, b.size - 1);
    PowAdd(RADIX, a.size, b.size);
    PowPositive(RADIX, a.size - 1);
    PowPositive(RADIX, b.size - 1);
    MulMonotone(Pow(RADIX, a.size - 1), Pow(RADIX, b.size - 1), b.mantissa);
    MulMonotone(b.mantissa, Pow(RADIX, a.size - 1), a.mantissa);
    MulStrict(a.mantissa, b.mantissa, Pow(RADIX, b.size));
    MulMonotone(Pow(RADIX, b.size), a.mantissa, Pow(RADIX, a.size));
  }

  lemma QuotientBracket(t: nat, k: nat, n: nat)
    requires k <= n && (n > 0 ==> Pow(RADIX, n - 1) <= t) && t < Pow(RADIX, n)
    ensures Pow(RADIX, k) > 0
    ensures var q := t / Pow(RADIX, k);
      if n == k then q == 0 else Pow(RADIX, n - k - 1) <= q < Pow(RADIX, n - k)
  {
    hide Pow;
    var p := Pow(RADIX, k);
    PowPositive(RADIX, k);
    if n == k {
      DivModUnique(t, p, 0, t);
    } else {
      PowAdd(RADIX, n - k - 1, k);
      PowAdd(RADIX, n - k, k);
      DivAtLeast(t, p, Pow(RADIX, n - k - 1));
      DivAtLeast(t, p, Pow(RADIX, n - k));
    }
  }

  lemma {:induction false} ChainNormal(table: seq<Num>, exponent: nat, place: nat, power: Num, capacity: nat)
    requires NormalTable(table) && place >= 1 && IsNormal(power) && capacity > 0
    ensures IsNormal(Chain(table, exponent, place, power, capacity))
  {
    hide IsNormal, Times;
    if exponent != 0 {
      if exponent % 2 == 0 {
        ChainNormal(table, exponent / 2, place + 1, power, capacity);
      } else if place <= TABLE_SIZE {
        TimesNormal(table[place], power, capacity);
        ZeroNormal(power.exponent);
        ChainNormal(table, exponent / 2, place + 1, Step(table[place], power, capacity), capacity);
      }
    }
  }

  lemma ZeroNormal(exponent: int)
    ensures IsNormal(Num(0, 0, exponent)) && IsNormal(Num(1, 1, exponent))
  {
    assert Pow(RADIX, 1) == RADIX && Pow(RADIX, 0) == 1;
  }

  lemma {:induction false} LittlenumsBracket(d: nat)
    requires d > 0
    ensures IsNormal(Num(d, LittlenumsOf(d), 0))
  {
    hide Pow;
    var n := LittlenumsOf(d);
    assert Pow(RADIX, 0) == 1 && Pow(RADIX, 1) == RADIX by { ZeroNormal(0); OneDigit(); }
    if d >= RADIX {
      LittlenumsBracket(d / RADIX);
      PowStep(RADIX, n - 1);
      PowStep(RADIX, n - 2);
    }
  }

  lemma OneDigit()
    ensures Pow(RADIX, 0) == 1 && Pow(RADIX, 1) == RADIX
  {
  }

  /** What the conversion yields has no leading zero littlenums: the search for
      its first significant bit ends. */
  lemma ProductNormal(d: nat, e: int, positive: seq<Num>, negative: seq<Num>, precision: nat)
    requires NormalTable(positive) && NormalTable(negative) && precision > 0
    ensures IsNormal(Product(d, e, positive, negative, precision))
  {
    hide IsNormal, Chain, Times;
    var table := if e < 0 then negative else positive;
    ZeroNormal(0);
    ChainNormal(table, if e < 0 then -e else e, 1, Num(1, 1, 0), precision);
    if d > 0 {
      LittlenumsBracket(d);
    }
    TimesNormal(Chain(table, if e < 0 then -e else e, 1, Num(1, 1, 0), precision), Num(d, LittlenumsOf(d), 0),
                precision);
  }

  /** The words, sign included, of what a text without letters converts to. */
  ghost predicate IsResult(fm: Format, words: seq<Littlenum>, sign: nat, value: Num, code: int, c: nat,
                           above: Littlenum)
    requires fm.Valid()
  {
    if code != 0 then Be(words) == sign * TopBit(fm.words) + Infinity(fm)
    else if value.size == 0 then Be(words) == sign * TopBit(fm.words)
    else
      && HasBits(value.mantissa, c)
      && Be(words) == WordBits(fm, sign, value.mantissa, c, BiasedExponent(fm, c, value.exponent), above)
  }

  /** An exponent too large for the tables, of either sign, gives an infinity. */
  method Convert(text: string, start: nat, ghost fm: Format, precision: nat, exponentBits: nat, words: array<Littlenum>,
                 positive: seq<Flonum>, negative: seq<Flonum>,
                 ghost positiveNums: seq<Num>, ghost negativeNums: seq<Num>)
    returns (end: nat, ghost scan: Scan, ghost value: Num, ghost code: int, ghost c: nat, ghost above: Littlenum)
    requires fm.Valid() && precision == fm.words && exponentBits == fm.exponentBits
    requires start <= |text| && words.Length >= 6
    requires IsTable(positive, positiveNums) && IsTable(negative, negativeNums)
    requires NormalTable(positiveNums) && NormalTable(negativeNums)
    modifies words
    ensures var i := AfterSign(text, start);
      var sign := if CharAt(text, start) == '-' then 1 else 0;
      if Spells(text, i, "nan") then end == i + 3 && Be(words[..precision]) == TopBit(precision) - 1
      else if Spells(text, i, "inf") then
        && end == (if Spells(text, i + 3, "inity") then i + 8 else i + 3)
        && Be(words[..precision]) == sign * TopBit(precision) + Infinity(fm)
      else
        && i <= |text| && end == ReadNumber(text, i).end && SameNumber(text, scan, ReadNumber(text, i))
        && Converted(text, scan, value, code, positiveNums, negativeNums, precision + GUARD)
        && DigitsToUse(scan, precision + GUARD) == Min(scan.before + scan.after, if precision == 2 then 11 else 21)
        && IsResult(fm, words[..precision], sign, value, code, c, above)
  {
    hide Be, TopBit, Infinity, WordBits, HasBits, Pow, Val, ReadNumber, SameNumber, Converted, NormalTable, IsTable,
         IsNormal, UsefulDigits;
    FormatDigits(fm);
    var bits := new Littlenum[precision + GUARD](_ => 0);
    var g := new Flonum(bits);
    var failed;
    end, failed, scan := ConvertText(text, start, g, positive, negative, positiveNums, negativeNums);
    code, value, above, c := failed, NumOf(g), g.low[1], 0;
    if failed != 0 {
      WriteInfinity(words, precision, if g.sign == '-' then 1 else 0, fm);
    } else {
      if !Spells(text, AfterSign(text, start), "nan") && !Spells(text, AfterSign(text, start), "inf") {
        KeepsInText(text, scan, ReadNumber(text, AfterSign(text, start)));
        ConvertedNormal(text, scan, value, failed, positiveNums, negativeNums, precision + GUARD);
        NormalNonzero(value);
      }
      var hangs;
      hangs, c := ToWords(g, words, precision, exponentBits, fm);
    }
  }

  /** A float uses 11 digits and a double 21. */
  lemma FormatDigits(fm: Format)
    requires fm.Valid()
    ensures UsefulDigits(fm.words + GUARD) == if fm.words == 2 then 11 else 21
  {
  }

  lemma ConvertedNormal(text: string, r: Scan, value: Num, code: int, positive: seq<Num>, negative: seq<Num>,
                        precision: nat)
    requires NormalTable(positive) && NormalTable(negative) && precision > 0 && r.InText(text)
    requires Converted(text, r, value, code, positive, negative, precision)
    ensures IsNormal(value)
  {
    hide IsNormal, NormalTable, Product, Dec, Scan.Digits;
    ZeroNormal(0);
    var n := DigitsToUse(r, precision);
    if r.before + r.after != 0 {
      ProductNormal(Dec(r.Digits(text)[..n]), DecimalExponent(r, n), positive, negative, precision);
    }
  }

  lemma NormalNonzero(value: Num)
    requires IsNormal(value)
    ensures value.size > 0 ==> value.mantissa > 0
  {
    PowPositive(RADIX, if value.size > 0 then value.size - 1 else 0);
  }

  /** The digits that are used always fit the destination. */
  lemma UsefulDigitsRoom(precision: nat, n: nat)
    requires 2 <= precision < 0x800_0000 && n <= UsefulDigits(precision)
    ensures EnoughBits(n) < 0x8000_0000 && EnoughLittlenums(n) <= precision
    ensures Pow(10, n) <= Pow(RADIX, precision)
  {
    hide Pow;
    UsefulDigitsFit(precision, n);
    var x := (precision - 2) as real * 16.0 / LOG_TO_BASE_2_OF_10;
    assert n as real <= x + 2.0;
    assert n as real * LOG_TO_BASE_2_OF_10 + 1.0 < (precision - 2) as real * 16.0 + 8.0;
    assert EnoughBits(n) < (precision - 2) * 16 + 8;
    RoomForDigits(n);
    PowMonotone(RADIX, EnoughLittlenums(n), precision);
  }

  /** Multiplied by the power 1, a number that fits is kept whole. */
  lemma WholeExact(d: nat, positive: seq<Num>, negative: seq<Num>, precision: nat)
    requires |positive| == |negative| == TABLE_SIZE + 1
    requires 0 < d < Pow(RADIX, precision)
    ensures var v := Product(d, 0, positive, negative, precision);
      v.exponent >= 0 && v.size > 0 && v.mantissa * Pow(RADIX, v.exponent) == d
  {
    hide Pow, LittlenumsOf;
    var n := LittlenumsOf(d);
    LittlenumsBracket(d);
    assert Pow(RADIX, n - 1) <= d < Pow(RADIX, n) && n > 0 by { SizePositive(d); }
    SizeWithin(d, n, precision);
    var z := TrailingZeros(d, n);
    var v := Product(d, 0, positive, negative, precision);
    assert v == Times(Num(1, 1, 0), Num(d, n, 0), precision);
    assert Truncation(d, n, precision) == z;
    DivModUnique(d, Pow(RADIX, z), d / Pow(RADIX, z), 0);
    ZerosBelowSize(d, n);
  }

  lemma SizePositive(d: nat)
    ensures LittlenumsOf(d) > 0
  {
  }

  lemma SizeWithin(d: nat, n: nat, precision: nat)
    requires n > 0 && Pow(RADIX, n - 1) <= d < Pow(RADIX, precision)
    ensures n <= precision
  {
    hide Pow;
    if n > precision {
      PowMonotone(RADIX, precision, n - 1);
    }
  }

  lemma ZerosBelowSize(d: nat, n: nat)
    requires 0 < d < Pow(RADIX, n)
    ensures TrailingZeros(d, n) < n
  {
    hide Pow;
    var z := TrailingZeros(d, n);
    if z == n {
      DivModUnique(d, Pow(RADIX, n), 0, d);
    }
  }

  /** Moving a power of two from the mantissa to the exponent changes no
      rounding. */
  lemma SameRounding(fm: Format, code: nat, m: nat, k: nat, t: nat)
    requires fm.Valid() && IsRoundTiesToAway(fm, code, m, t + k)
    ensures IsRoundTiesToAway(fm, code, m * Pow(2, k), t)
  {
    hide Pow, Units, Infinity;
    PowAdd(2, k, t);
    MulRegroup(m, Pow(2, k), Pow(2, t));
    assert m * Pow(2, t + k) == m * Pow(2, k) * Pow(2, t);
    forall other: nat
      ensures Distance(fm.FractionBits(), other, m, t + k) == Distance(fm.FractionBits(), other, m * Pow(2, k), t)
    {
    }
  }

  /** The exponent of the unit of the format, below 1. */
  function UnitExponent(fm: Format): int
    requires fm.Valid()
  {
    Pow(2, fm.exponentBits - 1) - 2 + fm.FractionBits()
  }

  /** A decimal number whose digits are all used and that needs no power of ten,
      as any integer of up to 11 digits for a float and 21 for a double, becomes
      the words of its roundTiesToAway value. */
  lemma WholeNumbersRound(fm: Format, words: seq<Littlenum>, sign: nat, d: nat, positive: seq<Num>, negative: seq<Num>,
                          c: nat, above: Littlenum)
    requires fm.Valid() && |words| == fm.words && sign <= 1 && |positive| == |negative| == TABLE_SIZE + 1
    requires 0 < d < Pow(RADIX, fm.words + GUARD)
    requires IsResult(fm, words, sign, Product(d, 0, positive, negative, fm.words + GUARD), 0, c, above)
    ensures UnitExponent(fm) >= 0
    ensures var code := Be(words) - sign * TopBit(fm.words);
      code >= 0 && IsRoundTiesToAway(fm, code, d, UnitExponent(fm))
  {
    hide Be, TopBit, WordBits, HasBits, Pow, Good, IsRoundTiesToAway, Product;
    var v := Product(d, 0, positive, negative, fm.words + GUARD);
    WholeExact(d, positive, negative, fm.words + GUARD);
    var e := BiasedExponent(fm, c, v.exponent);
    InNormalRange(fm, d, v.mantissa, v.exponent, c);
    RoundsCorrectlyIff(fm, sign, v.mantissa, c, e, above);
    var code := Be(words) - sign * TopBit(fm.words);
    PowMul(2, BITS, v.exponent);
    UnitsNonnegative(fm);
    SameRounding(fm, code, v.mantissa, BITS * v.exponent, UnitExponent(fm));
  }

  lemma UnitsNonnegative(fm: Format)
    requires fm.Valid()
    ensures UnitExponent(fm) >= 0 && Pow(2, BITS) == RADIX
  {
    TwoToBits();
    PowPositive(2, fm.exponentBits - 1);
    assert Pow(2, 1) == 2;
    PowMonotone(2, 1, fm.exponentBits - 1);
  }

  /** A whole number that fits the destination has a biased exponent in the
      normal range. */
  lemma InNormalRange(fm: Format, d: nat, m: nat, z: nat, c: nat)
    requires fm.Valid() && 0 < d < Pow(RADIX, fm.words + GUARD) && d == m * Pow(RADIX, z) && HasBits(m, c)
    ensures 1 <= BiasedExponent(fm, c, z) < fm.MaxExponent()
    ensures forall above :: Good(fm, m, c, BiasedExponent(fm, c, z), above)
  {
    hide Pow, Top;
    var p := fm.words + GUARD;
    TwoToBits();
    PowMul(2, BITS, z);
    PowMul(2, BITS, p);
    PowAdd(2, c - 1, BITS * z);
    PowPositive(2, BITS * z);
    MulMonotone(Pow(2, BITS * z), Pow(2, c - 1), m);
    if c - 1 + BITS * z >= BITS * p {
      PowMonotone(2, BITS * p, c - 1 + BITS * z);
    }
    MaxExponentLarge(fm);
    BiasValue(fm);
  }

  lemma BiasValue(fm: Format)
    requires fm.Valid()
    ensures Pow(2, fm.exponentBits - 1) == if fm.words == 2 then 0x80 else 0x400
  {
    assert Pow(2, 7) == 0x80;
    assert Pow(2, 3) == 8;
    PowAdd(2, 7, 3);
  }

  /** The number is the integer d, written with trailing digits that cancel. */
  ghost predicate IsInteger(number: Number, d: nat) {
    number.fraction >= number.exponent && d * Pow(10, number.fraction - number.exponent) == Dec(number.digits)
  }

  ghost predicate RoundsTo(fm: Format, words: seq<Littlenum>, sign: nat, d: nat) {
    fm.Valid() && |words| == fm.words &&
    var code := Be(words) - sign * TopBit(fm.words);
    code >= 0 && UnitExponent(fm) >= 0 && IsRoundTiesToAway(fm, code, d, UnitExponent(fm))
  }

  /** From text to words: a text that spells an integer d, in any notation of at
      most 11 significant digits for a float and 21 for a double that leaves no
      power of ten, becomes the words of the roundTiesToAway value of d. */
  lemma IntegersRound(text: string, scan: Scan, number: Number, fm: Format, words: seq<Littlenum>, sign: nat,
                      value: Num, code: int, positive: seq<Num>, negative: seq<Num>, c: nat, above: Littlenum, d: nat)
    requires fm.Valid() && |words| == fm.words && sign <= 1 && |positive| == |negative| == TABLE_SIZE + 1
    requires SameNumber(text, scan, number) && scan.InText(text) && IsInteger(number, d) && d > 0
    requires scan.before + scan.after <= if fm.words == 2 then 11 else 21
    requires DecimalExponent(scan, scan.before + scan.after) == 0
    requires Converted(text, scan, value, code, positive, negative, fm.words + GUARD)
    requires IsResult(fm, words, sign, value, code, c, above)
    ensures RoundsTo(fm, words, sign, d)
  {
    hide Be, TopBit, WordBits, HasBits, Pow, Val, Dec, IsResult, IsRoundTiesToAway, Product, SameNumber, UsefulDigits,
         Scan.Digits, Scan.WellPlaced, UnitExponent;
    var n := scan.before + scan.after;
    FormatDigits(fm);
    AllDigitsUsed(text, scan, number, d);
    var s := scan.Digits(text);
    DecBound(s[..n]);
    UsefulDigitsRoom(fm.words + GUARD, n);
    WholeNumbersRound(fm, words, sign, d, positive, negative, c, above);
  }

  lemma AllDigitsUsed(text: string, scan: Scan, number: Number, d: nat)
    requires SameNumber(text, scan, number) && scan.InText(text) && IsInteger(number, d) && d > 0
    requires DecimalExponent(scan, scan.before + scan.after) == 0
    ensures scan.before + scan.after > 0 && Dec(scan.Digits(text)[..scan.before + scan.after]) == d
  {
    hide Pow, Dec, SameNumber, Scan.Digits, Scan.WellPlaced;
    var n := scan.before + scan.after;
    CutDigits(text, scan, number, n);
    var p := Pow(10, number.fraction - number.exponent);
    DivModUnique(d * p, p, d, 0);
    assert scan.Digits(text)[..0] == "";
    assert Dec("") == 0 by { NoDigits(); }
  }

  lemma NoDigits()
    ensures Dec("") == 0
  {
  }
}
