/** Decimal numbers as they are written, and that they are read so. */
module DecimalNotation {
  import opened CString
  import opened DecimalText

  /** Digits, perhaps a point and more digits, and perhaps an exponent with its
      mark, its sign and its digits. */
  datatype Notation = Notation(integer: string, point: bool, fraction: string,
                               mark: string, sign: string, exponent: string)

  ghost predicate Proper(n: Notation) {
    && AllDigits(n.integer) && AllDigits(n.fraction) && AllDigits(n.exponent)
    && (!n.point ==> n.fraction == "")
    && n.mark in ["", "e", "E"] && n.sign in ["", "+", "-"]
    && (n.mark == "" ==> n.sign == "" && n.exponent == "")
  }

  function FractionText(n: Notation): string {
    if n.point then "." + n.fraction else ""
  }

  function ExponentText(n: Notation): string {
    n.mark + n.sign + n.exponent
  }

  function Written(n: Notation): string {
    n.integer + FractionText(n) + ExponentText(n)
  }

  /** A character that does not continue the number. */
  predicate Ends(n: Notation, c: char) {
    && !IsDigit(c)
    && (n.mark == "" ==> c !in "eE" && (n.point || c != '.'))
    && (n.mark != "" && n.sign == "" && n.exponent == "" ==> c !in "+-")
  }

  lemma {:induction false} DigitsEndAt(text: string, pos: nat, s: string)
    requires At(text, pos, s) && AllDigits(s) && !IsDigit(CharAt(text, pos + |s|))
    ensures DigitsEnd(text, pos) == pos + |s| && text[pos..pos + |s|] == s
    decreases |s|
  {
    if s != "" {
      assert text[pos..pos + |s|][0] == text[pos];
      assert s == [s[0]] + s[1..];
      AtAppend(text, pos, [s[0]], s[1..]);
      DigitsEndAt(text, pos + 1, s[1..]);
    }
  }

  lemma FirstOf(text: string, pos: nat, s: string)
    requires At(text, pos, s) && s != ""
    ensures CharAt(text, pos) == s[0]
  {
    assert text[pos..pos + |s|][0] == text[pos];
  }

  lemma ExponentRead(text: string, n: Notation, digits: string, fraction: nat, pos: nat)
    requires Proper(n) && At(text, pos, ExponentText(n)) && Ends(n, CharAt(text, pos + |ExponentText(n)|))
    ensures ReadExponent(text, digits, fraction, pos)
         == Number(digits, fraction, if n.sign == "-" then -(Dec(n.exponent) as int) else Dec(n.exponent),
                   pos + |ExponentText(n)|)
  {
    hide Dec, DigitsEnd, At, AllDigits;
    if n.mark == "" {
      assert ExponentText(n) == "";
      NoDigitsNoNumber();
    } else {
      AtAppend(text, pos, n.mark + n.sign, n.exponent);
      AtAppend(text, pos, n.mark, n.sign);
      FirstOf(text, pos, n.mark);
      var start := pos + 1 + |n.sign|;
      DigitsEndAt(text, start, n.exponent);
      if n.sign != "" {
        FirstOf(text, pos + 1, n.sign);
      } else if n.exponent != "" {
        FirstOf(text, pos + 1, n.exponent);
        FirstIsDigit(n.exponent);
      }
    }
  }

  lemma FirstIsDigit(s: string)
    requires AllDigits(s) && s != ""
    ensures IsDigit(s[0])
  {
  }

  lemma NoDigitsNoNumber()
    ensures Dec("") == 0
  {
  }

  /** The whole notation is read, and nothing after it, as the digits, the
      places after the point and the exponent that it shows. */
  lemma NotationRead(text: string, pos: nat, n: Notation)
    requires Proper(n) && At(text, pos, Written(n)) && Ends(n, CharAt(text, pos + |Written(n)|))
    ensures ReadNumber(text, pos)
         == Number(n.integer + n.fraction, |n.fraction|,
                   if n.sign == "-" then -(Dec(n.exponent) as int) else Dec(n.exponent), pos + |Written(n)|)
  {
    hide Dec, ReadExponent, ExponentText, Ends, DigitsEnd, At, AllDigits, FractionText;
    AtAppend(text, pos, n.integer + FractionText(n), ExponentText(n));
    AtAppend(text, pos, n.integer, FractionText(n));
    var b := pos + |n.integer + FractionText(n)|;
    AfterDigits(text, b, n);
    ExponentRead(text, n, n.integer + n.fraction, |n.fraction|, b);
    FractionIs(n);
    if n.point {
      PointRead(text, pos, n.integer, n.fraction);
    } else {
      DigitsEndAt(text, pos, n.integer);
    }
  }

  lemma FractionIs(n: Notation)
    requires !n.point ==> n.fraction == ""
    ensures FractionText(n) == (if n.point then "." + n.fraction else "") && n.integer + "" == n.integer
    ensures |n.integer + FractionText(n)| == |n.integer| + (if n.point then 1 + |n.fraction| else 0)
  {
  }

  lemma PointRead(text: string, pos: nat, integer: string, fraction: string)
    requires AllDigits(integer) && AllDigits(fraction) && At(text, pos, integer)
    requires At(text, pos + |integer|, "." + fraction) && !IsDigit(CharAt(text, pos + |integer| + 1 + |fraction|))
    ensures var a := DigitsEnd(text, pos);
      && a == pos + |integer| && text[pos..a] == integer && CharAt(text, a) == '.'
      && DigitsEnd(text, a + 1) == a + 1 + |fraction| && text[a + 1..a + 1 + |fraction|] == fraction
  {
    hide DigitsEnd, At;
    var a := pos + |integer|;
    FirstOf(text, a, "." + fraction);
    AtAppend(text, a, ".", fraction);
    DigitsEndAt(text, a + 1, fraction);
    DigitsEndAt(text, pos, integer);
  }

  /** What follows the digits is no digit, and no point if none was there. */
  lemma AfterDigits(text: string, b: nat, n: Notation)
    requires Proper(n) && At(text, b, ExponentText(n)) && Ends(n, CharAt(text, b + |ExponentText(n)|))
    ensures !IsDigit(CharAt(text, b)) && (!n.point ==> CharAt(text, b) != '.')
  {
    if n.mark != "" {
      FirstOf(text, b, ExponentText(n));
    }
  }
}
