/** Decimal numbers as text: digits, and the number a text spells. */
module DecimalText {
  import opened Arithmetic
  import opened CString

  function DigitValue(c: char): (d: nat)
    ensures d <= 9
  {
    if IsDigit(c) then c as int - '0' as int else 0
  }

  ghost predicate AllDigits(s: string) {
    forall i :: 0 <= i < |s| ==> IsDigit(s[i])
  }

  /** The number a string of decimal digits spells. */
  function Dec(s: string): nat {
    if s == "" then 0 else 10 * Dec(s[..|s| - 1]) + DigitValue(s[|s| - 1])
  }

  /** Where the run of digits starting at i ends. */
  function DigitsEnd(text: string, i: nat): (end: nat)
    requires i <= |text|
    ensures i <= end <= |text|
    ensures AllDigits(text[i..end]) && !IsDigit(CharAt(text, end))
    decreases |text| - i
  {
    if IsDigit(CharAt(text, i)) then
      var end := DigitsEnd(text, i + 1);
      assert text[i..end] == [text[i]] + text[i + 1..end];
      end
    else i
  }

  /** The digits of a number without its point, how many of them follow the
      point, the exponent part, and where the text of the number ends. */
  datatype Number = Number(digits: string, fraction: nat, exponent: int, end: nat)

  /** The grammar of the header comment of `atof_generic`, from just after the
      sign. The number is Dec(digits) * 10^(exponent - fraction). */
  function ReadNumber(text: string, i: nat): Number
    requires i <= |text|
  {
    var a := DigitsEnd(text, i);
    if CharAt(text, a) == '.' then
      var b := DigitsEnd(text, a + 1);
      ReadExponent(text, text[i..a] + text[a + 1..b], b - (a + 1), b)
    else
      ReadExponent(text, text[i..a], 0, a)
  }

  function ReadExponent(text: string, digits: string, fraction: nat, i: nat): Number
    requires i <= |text|
  {
    if CharAt(text, i) in "eE" then
      var start := if CharAt(text, i + 1) in "+-" then i + 2 else i + 1;
      var end := DigitsEnd(text, start);
      var magnitude: int := Dec(text[start..end]);
      Number(digits, fraction, if CharAt(text, i + 1) == '-' then -magnitude else magnitude, end)
    else
      Number(digits, fraction, 0, i)
  }

  lemma DecSnoc(s: string, c: char)
    ensures Dec(s + [c]) == 10 * Dec(s) + DigitValue(c)
  {
    assert (s + [c])[..|s|] == s;
  }

  lemma {:induction false} DecAppend(s: string, t: string)
    ensures Dec(s + t) == Dec(s) * Pow(10, |t|) + Dec(t)
  {
    if t == "" {
      assert s + t == s;
    } else {
      var n := |t| - 1;
      assert s + t == (s + t[..n]) + [t[n]];
      DecSnoc(s + t[..n], t[n]);
      DecAppend(s, t[..n]);
      MulRegroup(10, Dec(s), Pow(10, n));
    }
  }

  lemma {:induction false} DecBound(s: string)
    ensures Dec(s) < Pow(10, |s|)
  {
    if s != "" {
      DecBound(s[..|s| - 1]);
    }
  }

  lemma {:induction false} DecZeros(s: string)
    requires forall i :: 0 <= i < |s| ==> s[i] == '0'
    ensures Dec(s) == 0
  {
    if s != "" {
      DecZeros(s[..|s| - 1]);
    }
  }

  /** A digit other than zero makes the number nonzero. */
  lemma {:induction false} DecPositive(s: string, i: nat)
    requires i < |s| && IsDigit(s[i]) && s[i] != '0'
    ensures Dec(s) > 0
  {
    if i < |s| - 1 {
      DecPositive(s[..|s| - 1], i);
    }
  }

  /** Leading zeros add nothing and trailing ones a power of ten. */
  lemma DecStrip(s: string, zeros: string, t: string)
    requires forall i :: 0 <= i < |zeros| ==> zeros[i] == '0'
    ensures Dec(zeros + t) == Dec(t)
    ensures Dec(s + zeros) == Dec(s) * Pow(10, |zeros|)
  {
    hide Dec, Pow;
    DecZeros(zeros);
    DecAppend(zeros, t);
    DecAppend(s, zeros);
  }
}
