/** From the text of a decimal number to a flonum. */
module AtofGeneric {
  import opened Arithmetic
  import opened Littlenum
  import opened Flonums
  import opened FlonumMult
  import opened CString
  import opened DecimalText
  import opened DecimalScan
  import opened DigitRoom
  import opened DigitAccumulation
  import opened PowerOfTen

  function AfterSign(text: string, start: nat): nat {
    if CharAt(text, start) in "+-" then start + 1 else start
  }

  /** The letters at i, in either case. */
  predicate Spells(text: string, i: nat, letters: string) {
    forall j :: 0 <= j < |letters| ==> LowerCase(CharAt(text, i + j)) == letters[j]
  }

  function LowerCase(c: char): char {
    if 'A' <= c <= 'Z' then (c as int - 'A' as int + 'a' as int) as char else c
  }

  /** How many littlenums a number takes, one at least. */
  function LittlenumsOf(d: nat): nat {
    if d < RADIX then 1 else 1 + LittlenumsOf(d / RADIX)
  }

  /** The exponent of the power of ten that goes with the first n digits. */
  function DecimalExponent(r: Scan, n: int): int {
    r.exponent + r.before - n
  }

  /** The flonum for d * 10^e. */
  function Product(d: nat, e: int, positive: seq<Num>, negative: seq<Num>, precision: nat): Num
    requires |positive| == |negative| == TABLE_SIZE + 1
  {
    var power := Chain(if e < 0 then negative else positive, if e < 0 then -e else e, 1, Num(1, 1, 0), precision);
    Times(power, Num(d, LittlenumsOf(d), 0), precision)
  }

  /** What the conversion of a number proper leaves. */
  ghost predicate Converted(text: string, r: Scan, value: Num, code: int,
                            positive: seq<Num>, negative: seq<Num>, precision: nat)
    requires |positive| == |negative| == TABLE_SIZE + 1
    requires r.InText(text)
  {
    var n := DigitsToUse(r, precision);
    var e := DecimalExponent(r, n);
    if r.before + r.after == 0 then value == Num(0, 0, 0) && code == 0
    else
      && 0 <= n <= r.before + r.after
      && value == Product(Dec(r.Digits(text)[..n]), e, positive, negative, precision)
      && code == (if -0x800 < e < 0x800 then 0 else ERROR_EXPONENT_OVERFLOW)
  }

  method ConvertText(text: string, start: nat, result: Flonum,
                     positive: seq<Flonum>, negative: seq<Flonum>,
                     ghost positiveNums: seq<Num>, ghost negativeNums: seq<Num>)
    returns (end: nat, code: int, ghost scan: Scan)
    requires start <= |text|
    requires 2 <= result.low.Length < 0x800_0000
    requires IsTable(positive, positiveNums) && IsTable(negative, negativeNums)
    modifies result, result.low
    ensures result.Valid()
    ensures var i := AfterSign(text, start);
      if Spells(text, i, "nan") then
        end == i + 3 && code == 0 && result.sign == '\0' && result.leader == result.exponent == 0
      else if Spells(text, i, "inf") then
        && end == (if Spells(text, i + 3, "inity") then i + 8 else i + 3) && code == 0
        && result.sign == (if CharAt(text, start) == '-' then 'N' else 'P')
        && result.leader == result.exponent == 0
      else
        && i <= |text| && end == ReadNumber(text, i).end
        && result.sign == (if CharAt(text, start) == '-' then '-' else '+')
        && SameNumber(text, scan, ReadNumber(text, i))
        && Converted(text, scan, NumOf(result), code, positiveNums, negativeNums, result.low.Length)
  {
    hide Val, Pow, SameNumber, Converted, ReadNumber;
    var first := start;
    var sign := '+';
    if CharAt(text, first) == '-' || CharAt(text, first) == '+' {
      sign := CharAt(text, first);
      first := first + 1;
    }
    code := 0;
    scan := Scan(0, 0, 0, 0, 0);
    if Spells(text, first, "nan") {
      result.sign, result.exponent, result.leader := '\0', 0, 0;
      end := first + 3;
    } else if Spells(text, first, "inf") {
      result.sign := if sign == '+' then 'P' else 'N';
      result.exponent, result.leader := 0, 0;
      end := if Spells(text, first + 3, "inity") then first + 8 else first + 3;
    } else {
      var r := ScanNumber(text, first);
      scan := r;
      KeepsInText(text, r, ReadNumber(text, first));
      end := r.end;
      if r.before + r.after == 0 {
        result.exponent, result.leader := 0, -1;
        NothingConverted(text, r, positiveNums, negativeNums, result.low.Length);
        ValZero([]);
      } else {
        code := ConvertDigits(text, r, result, positive, negative, positiveNums, negativeNums);
      }
      result.sign := sign;
    }
  }

  /** The digits times their power of ten. */
  method ConvertDigits(text: string, r: Scan, result: Flonum,
                       positive: seq<Flonum>, negative: seq<Flonum>,
                       ghost positiveNums: seq<Num>, ghost negativeNums: seq<Num>)
    returns (code: int)
    requires r.InText(text) && r.WellPlaced(text) && r.before + r.after > 0
    requires 2 <= result.low.Length < 0x800_0000
    requires IsTable(positive, positiveNums) && IsTable(negative, negativeNums)
    modifies result, result.low
    ensures result.Valid()
    ensures Converted(text, r, NumOf(result), code, positiveNums, negativeNums, result.low.Length)
  {
    hide Val, Pow, Dec, IsTruncated, Chain, Times, UsefulDigits, EnoughBits, EnoughLittlenums,
         Scan.WellPlaced, Scan.Digits;
    var precision := result.low.Length;
    var n := DigitsToUse(r, precision);
    DigitsToUseFit(r, precision);
    var decimalExponent := r.exponent + (r.before - n);
    var low := Accumulate(text, r, n);
    var digits := DigitsFlonum(low);
    var isNegative := decimalExponent < 0;
    if isNegative {
      decimalExponent := -decimalExponent;
    }
    code := TimesPower(digits, result, if isNegative then negative else positive,
                       if isNegative then negativeNums else positiveNums, decimalExponent);
  }

  /** Compute the power of ten, and multiply the digits by it. */
  method TimesPower(digits: Flonum, result: Flonum, table: seq<Flonum>, ghost nums: seq<Num>, exponent: nat)
    returns (code: int)
    requires digits.Valid() && digits.sign == '+' && digits != result && digits.low != result.low
    requires digits.leader < 0x1000_0000 && 2 <= result.low.Length < 0x800_0000 && IsTable(table, nums)
    modifies result, result.low
    ensures result.Valid()
    ensures NumOf(result) == Times(Chain(nums, exponent, 1, Num(1, 1, 0), result.low.Length), old(NumOf(digits)),
                                   result.low.Length)
    ensures code == if exponent < 0x800 then 0 else ERROR_EXPONENT_OVERFLOW
  {
    hide Val, Pow, IsTruncated, Chain, Times;
    var power;
    power, code := ComputePower(table, nums, exponent, result.low.Length);
    ghost var a, b := NumOf(power), NumOf(digits);
    FlonumMultip(power, digits, result);
    TruncatedIsTimes(a, b, result.low.Length, result.exponent - a.exponent - b.exponent, result.Digits());
  }

  /** The accumulated digits without the high littlenums that are zero. */
  method DigitsFlonum(low: array<Littlenum>) returns (digits: Flonum)
    requires 1 <= low.Length
    ensures fresh(digits) && digits.low == low && digits.Valid() && digits.sign == '+'
    ensures NumOf(digits) == Num(Val(low[..]), LittlenumsOf(Val(low[..])), 0)
  {
    hide Val, Pow;
    var size := low.Length;
    assert low[..size] == low[..];
    while size >= 2 && low[size - 1] == 0
      invariant 1 <= size <= low.Length
      invariant Val(low[..size]) == Val(low[..])
    {
      assert low[..size] == low[..size - 1] + [0];
      ValSnoc(low[..size - 1], 0);
      size := size - 1;
    }
    digits := new Flonum(low);
    digits.leader := size - 1;
    digits.exponent := 0;
    digits.sign := '+';
    SizeOfDigits(low[..size]);
  }

  lemma SizeOfDigits(s: Bignum)
    requires s != [] && (|s| == 1 || s[|s| - 1] != 0)
    ensures LittlenumsOf(Val(s)) == |s|
  {
    ValBound(s);
    if |s| > 1 {
      ValTop(s);
    }
    SizeOfNumber(Val(s), |s|);
  }

  lemma {:induction false} SizeOfNumber(d: nat, n: nat)
    requires n > 0 && d < Pow(RADIX, n) && (n > 1 ==> d >= Pow(RADIX, n - 1))
    ensures LittlenumsOf(d) == n
  {
    if n > 1 {
      PowMonotone(RADIX, 1, n - 1);
      assert d / RADIX < Pow(RADIX, n - 1);
      if n > 2 {
        assert d / RADIX >= Pow(RADIX, n - 2);
      }
      SizeOfNumber(d / RADIX, n - 1);
    }
  }

  lemma KeepsInText(text: string, r: Scan, n: Number)
    requires SameNumber(text, r, n)
    ensures r.InText(text) && r.WellPlaced(text) && r.end == n.end
  {
  }

  lemma NothingConverted(text: string, r: Scan, positive: seq<Num>, negative: seq<Num>, precision: nat)
    requires |positive| == |negative| == TABLE_SIZE + 1 && r.InText(text)
    requires r.before + r.after == 0
    ensures Converted(text, r, Num(0, 0, 0), 0, positive, negative, precision)
  {
  }

  /** The first n digits D and the exponent e that goes with them: the number
      N * 10^x in the text is at least D * 10^e and below (D + 1) * 10^e. */
  lemma CutDigits(text: string, r: Scan, number: Number, n: nat)
    requires SameNumber(text, r, number) && n <= r.before + r.after
    ensures var d := Dec(r.Digits(text)[..n]);
      var e := DecimalExponent(r, n);
      var x := number.exponent - number.fraction;
      && e >= x && Pow(10, e - x) > 0
      && d == Dec(number.digits) / Pow(10, e - x)
      && (n == r.before + r.after ==> Dec(number.digits) == d * Pow(10, e - x))
  {
    hide Dec, Pow;
    var s := r.Digits(text);
    var cut, stripped := |s| - n, number.fraction - r.after;
    assert s == s[..n] + s[n..];
    DecAppend(s[..n], s[n..]);
    DecBound(s[n..]);
    PowPositive(10, cut);
    PowPositive(10, stripped);
    PowAdd(10, stripped, cut);
    DivModUnique(Dec(s), Pow(10, cut), Dec(s[..n]), Dec(s[n..]));
    ModOfMultiple(Dec(s), Pow(10, stripped));
    DivDiv(Dec(number.digits), Pow(10, stripped), Pow(10, cut));
    if n == |s| {
      assert s[..n] == s;
      PowTenZero();
    }
  }

  lemma PowTenZero()
    ensures Pow(10, 0) == 1
  {
  }

  /** A number other than zero is read as zero exactly when it has no digit
      before the point but zeros, and more zeros right after the point than
      there are useful digits. */
  lemma LostToZeroIff(text: string, r: Scan, number: Number, n: nat)
    requires SameNumber(text, r, number) && 0 < n <= r.before + r.after
    ensures Dec(r.Digits(text)[..n]) == 0 <==>
      r.before == 0 && forall i :: r.first < i <= r.first + n ==> text[i] == '0'
  {
    hide Dec, Pow;
    var s := r.Digits(text);
    assert AllDigits(s);
    if r.before == 0 {
      assert forall i :: 0 <= i < n ==> s[i] == text[r.first + 1 + i];
      assert forall i :: r.first < i <= r.first + n ==> text[i] == s[i - r.first - 1];
    } else {
      assert s[0] == text[r.first];
    }
    if i :| 0 <= i < n && s[i] != '0' {
      DecPositive(s[..n], i);
    } else {
      DecZeros(s[..n]);
    }
  }

  /** A double has 21 useful digits: a number below 1e-21 written out without
      an exponent is read as zero. */
  lemma SmallNumberLost(zeros: string)
    requires |zeros| >= 21 && forall i :: 0 <= i < |zeros| ==> zeros[i] == '0'
    ensures var text := "0." + zeros + "1";
      var r := Scan(1, 0, |zeros| + 1, 0, |text|);
      && r.WellPlaced(text) && SameNumber(text, r, ReadNumber(text, 0))
      && Dec(r.Digits(text)) > 0
      && DigitsToUse(r, 6) == 21
      && Dec(r.Digits(text)[..21]) == 0
  {
    hide Dec, SameNumber, ReadNumber;
    var text := "0." + zeros + "1";
    var r := Scan(1, 0, |zeros| + 1, 0, |text|);
    var s := text[2..|text|];
    assert s == zeros + "1" && text == "0." + s;
    assert r.Digits(text) == s;
    assert AllDigits(s) && s[|zeros|] == '1';
    ReadsWholeFraction(text, s);
    SmallScanned(text, s);
    DecPositive(s, |zeros|);
    DecZeros(s[..21]);
    assert UsefulDigits(6) == 21;
  }

  lemma SmallScanned(text: string, s: string)
    requires s != "" && text == "0." + s && AllDigits(s) && s[|s| - 1] != '0'
    ensures SameNumber(text, Scan(1, 0, |s|, 0, |text|), Number("0" + s, |s|, 0, |text|))
  {
    hide SameNumber;
    assert text[0..1] == "0" && text[2..] == s;
    ScanKeeps(text, 0, Scan(1, 0, |s|, 0, |text|), s);
  }

  /** A zero, a point and digits up to the end. */
  lemma ReadsWholeFraction(text: string, s: string)
    requires text == "0." + s && AllDigits(s)
    ensures ReadNumber(text, 0) == Number("0" + s, |s|, 0, |text|)
  {
    hide Dec;
    assert text[0..1] == "0" && text[2..] == s && text[1] == '.';
    assert DigitsEnd(text, 1) == 1;
    assert DigitsEnd(text, 0) == 1;
    DigitsToEnd(text, 2);
    assert text[2..|text|] == s;
  }

  lemma {:induction false} DigitsToEnd(text: string, p: nat)
    requires p <= |text| && AllDigits(text[p..])
    ensures DigitsEnd(text, p) == |text|
    decreases |text| - p
  {
    if p < |text| {
      assert text[p..][0] == text[p] && text[p..][1..] == text[p + 1..];
      DigitsToEnd(text, p + 1);
    }
  }
}
