/** The digits of the text as a binary number: `atof_generic`'s exact part. */
module DigitAccumulation {
  import opened Arithmetic
  import opened Littlenum
  import opened CString
  import opened DecimalText
  import opened DecimalScan
  import opened DigitRoom

  /** `maximum_useful_digits` for a destination of `precision` littlenums. */
  function UsefulDigits(precision: nat): int {
    ((precision - 2) as real * BITS as real / LOG_TO_BASE_2_OF_10).Floor + 2
  }

  /** `number_of_digits_to_use`. */
  function DigitsToUse(r: Scan, precision: nat): int {
    Min(r.before + r.after, UsefulDigits(precision))
  }

  lemma UsefulDigitsFit(precision: nat, n: nat)
    requires 2 <= precision < 0x800_0000 && n <= UsefulDigits(precision)
    ensures UsefulDigits(precision) >= 2
    ensures EnoughBits(n) < 0x8000_0000 && 2 <= EnoughLittlenums(n) < 0x1000_0000
  {
    var x := (precision - 2) as real * 16.0 / LOG_TO_BASE_2_OF_10;
    assert x >= 0.0 && x.Floor as real <= x;
    assert n as real <= x + 2.0;
    assert n as real * LOG_TO_BASE_2_OF_10 <= (precision - 2) as real * 16.0 + 2.0 * LOG_TO_BASE_2_OF_10;
  }

  lemma DigitsToUseFit(r: Scan, precision: nat)
    requires 2 <= precision < 0x800_0000 && r.before + r.after > 0
    ensures var n := DigitsToUse(r, precision);
      0 < n <= r.before + r.after && EnoughBits(n) < 0x8000_0000 && 2 <= EnoughLittlenums(n) < 0x1000_0000
  {
    UsefulDigitsFit(precision, 0);
    UsefulDigitsFit(precision, DigitsToUse(r, precision));
  }

  /** The integer the first n significant digits spell, built up in place. The
      carry out of the array, for which the source calls abort, is always 0. */
  method Accumulate(text: string, r: Scan, n: nat) returns (low: array<Littlenum>)
    requires r.InText(text) && r.WellPlaced(text) && n <= r.before + r.after
    requires EnoughBits(n) < 0x8000_0000
    ensures fresh(low) && low.Length == EnoughLittlenums(n)
    ensures Val(low[..]) == Dec(r.Digits(text)[..n])
  {
    hide Dec, Val, Pow, Scan.Digits, Scan.WellPlaced;
    RoomForDigits(n);
    low := new Littlenum[EnoughLittlenums(n)](_ => 0);
    ghost var s := r.Digits(text);
    var p, count := r.first, n;
    ZeroDigits(low[..]);
    assert s[..0] == "";
    while count > 0
      invariant 0 <= count <= n
      invariant (p == r.first + n - count && n - count <= r.before)
             || (p == r.first + n - count + 1 && n - count >= r.before)
      invariant Val(low[..]) == Dec(s[..n - count])
      decreases count, r.first + n + 2 - p
    {
      DigitHere(text, r, n - count, p);
      var c := text[p];
      if IsDigit(c) {
        TakeDigit(s, n - count);
        var carry := MultiplyByTen(low, c as int - '0' as int);
        NoCarry(Val(low[..]), carry, low.Length, s[..n - count + 1], n);
        if carry != 0 {
          assert false;
        }
        count := count - 1;
      }
      p := p + 1;
    }
    assert s[..n - count] == s[..n];
  }

  /** With j digits read the cursor is on the next one, or on the point. */
  lemma DigitHere(text: string, r: Scan, j: nat, p: nat)
    requires r.WellPlaced(text) && j < r.before + r.after
    requires (p == r.first + j && j <= r.before) || (p == r.first + j + 1 && j >= r.before)
    ensures p < |text|
    ensures if p == r.first + j && j == r.before then text[p] == '.'
            else IsDigit(text[p]) && text[p] == r.Digits(text)[j]
  {
    if j < r.before {
      assert text[r.first..r.first + r.before][j] == text[p];
    } else if p == r.first + j + 1 {
      assert text[r.first + r.before + 1..r.first + r.before + 1 + r.after][j - r.before] == text[p];
    }
  }

  lemma TakeDigit(s: string, j: nat)
    requires j < |s|
    ensures Dec(s[..j + 1]) == 10 * Dec(s[..j]) + DigitValue(s[j])
  {
    assert s[..j + 1] == s[..j] + [s[j]];
    DecSnoc(s[..j], s[j]);
  }

  lemma ZeroDigits(low: Bignum)
    requires AllZero(low)
    ensures Val(low) == Dec("")
  {
    ValZero(low);
  }

  lemma NoCarry(v: nat, carry: nat, length: nat, s: string, n: nat)
    requires |s| <= n && Pow(10, n) <= Pow(RADIX, length)
    requires v + carry * Pow(RADIX, length) == Dec(s)
    ensures carry == 0 && v == Dec(s)
  {
    hide Dec, Pow;
    DecBound(s);
    PowMonotone(10, |s|, n);
    if carry > 0 {
      MulMonotone(Pow(RADIX, length), 1, carry);
    }
  }

  /** Ten times the number in the array plus a digit; what does not fit is
      left in the carry. */
  method MultiplyByTen(low: array<Littlenum>, digit: nat) returns (carry: nat)
    requires digit <= 9
    modifies low
    ensures Val(low[..]) + carry * Pow(RADIX, low.Length) == 10 * old(Val(low[..])) + digit
  {
    hide Val, Pow;
    carry := digit;
    ghost var was := low[..];
    var i := 0;
    TenTimesNothing(digit);
    while i < low.Length
      invariant 0 <= i <= low.Length
      invariant low[i..] == was[i..]
      invariant carry <= 9
      invariant Val(low[..i]) + carry * Pow(RADIX, i) == 10 * Val(was[..i]) + digit
    {
      var littlenum: int := low[i];
      var work := carry + 10 * littlenum;
      ghost var before := low[..i];
      assert was[..i + 1] == was[..i] + [low[i]];
      TenTimes(before, carry, was[..i], littlenum, digit, work / RADIX, work % RADIX);
      low[i] := work % RADIX;
      carry := work / RADIX;
      i := i + 1;
      assert low[..i] == before + [work % RADIX];
    }
    assert low[..] == low[..i] && was == was[..i];
  }

  lemma TenTimesNothing(digit: nat)
    ensures Val([]) + digit * Pow(RADIX, 0) == 10 * Val([]) + digit
  {
  }

  lemma TenTimes(s: Bignum, carry: nat, was: Bignum, x: Littlenum, digit: nat, q: nat, r: Littlenum)
    requires |s| == |was| && Val(s) + carry * Pow(RADIX, |s|) == 10 * Val(was) + digit
    requires q * RADIX + r == carry + 10 * (x as int)
    ensures Val(s + [r]) + q * Pow(RADIX, |s| + 1) == 10 * Val(was + [x]) + digit
  {
    hide Val, Pow;
    PowStep(RADIX, |s|);
    ValSnoc(s, r);
    ValSnoc(was, x);
    CarryUp(q, r, carry, x, Pow(RADIX, |s|), Pow(RADIX, |s| + 1));
  }

  lemma CarryUp(q: nat, r: nat, carry: nat, x: nat, p: nat, next: nat)
    requires q * RADIX + r == carry + 10 * x && next == RADIX * p
    ensures r * p + q * next == carry * p + 10 * (x * p)
  {
    SumTimes(q * RADIX, r, p);
    SumTimes(carry, 10 * x, p);
    MulRegroup(q, RADIX, p);
  }
}
