/** The scan at the head of `atof_generic`: which digits of the text matter. */
module DecimalScan {
  import opened Arithmetic
  import opened CString
  import opened DecimalText

  /** What the scan leaves in the local variables: `first` is the index of the
      first significant digit (or of what follows the zeros before the point),
      and the counts are of the digits used on either side of the point. */
  datatype Scan = Scan(first: nat, before: nat, after: nat, exponent: int, end: nat) {

    /** The significant digits, the point left out. */
    function Digits(text: string): (s: string)
      requires InText(text)
      ensures |s| == before + after
    {
      text[first..first + before] + (if after == 0 then "" else text[first + before + 1..first + before + 1 + after])
    }

    predicate InText(text: string) {
      && first + before <= |text|
      && (after > 0 ==> first + before + 1 + after <= |text|)
    }

    /** All the digits are digits, and a point stands between the two groups. */
    ghost predicate WellPlaced(text: string) {
      && InText(text)
      && AllDigits(text[first..first + before])
      && (after > 0 ==>
            && text[first + before] == '.'
            && AllDigits(text[first + before + 1..first + before + 1 + after]))
    }
  }

  /** The scan `r` keeps the value of the number n. */
  ghost predicate SameNumber(text: string, r: Scan, n: Number) {
    && r.WellPlaced(text)
    && r.end == n.end && r.exponent == n.exponent
    && r.after <= n.fraction
    && Dec(n.digits) == Dec(r.Digits(text)) * Pow(10, n.fraction - r.after)
    && (r.before + r.after == 0 <==> Dec(n.digits) == 0)
    && (r.before > 0 ==> text[r.first] != '0')
    && (r.after > 0 ==> text[r.first + r.before + r.after] != '0')
    && r.end <= |text|
  }

  method ScanNumber(text: string, start: nat) returns (r: Scan)
    requires start <= |text|
    ensures SameNumber(text, r, ReadNumber(text, start))
  {
    hide Dec, Pow, SameNumber, ReadExponent, DigitsEnd, Scanned;
    var first, before, seen, p := ScanInteger(text, start);
    ghost var a := p;
    var after := 0;
    if CharAt(text, p) == '.' {
      p, after := ScanFraction(text, p + 1, seen);
      after := RetractZeros(text, first + before, p, after);
    }
    assert text[start..a] + "" == text[start..a];
    ghost var fraction := if CharAt(text, a) == '.' then text[a + 1..p] else "";
    var exponent, end := ScanExponent(text, p, text[start..a] + fraction, |fraction|);
    r := Scan(first, before, after, exponent, end);
    if CharAt(text, a) == '.' {
      FractionScanned(text, start, r, p);
    } else {
      IntegerScanned(text, start, r);
    }
    ScanKeeps(text, start, r, fraction);
  }

  /** Zeros that end the fraction are not needed. */
  method RetractZeros(text: string, point: nat, end: nat, after0: nat) returns (after: nat)
    requires point < end <= |text| && (after0 == end - point - 1 || after0 == 0)
    requires after0 == 0 ==> forall i :: point < i < end ==> text[i] == '0'
    ensures after <= end - point - 1
    ensures forall i :: point + after < i < end ==> text[i] == '0'
    ensures after > 0 ==> text[point + after] != '0'
  {
    after := after0;
    while after > 0 && text[point + after] == '0'
      invariant 0 <= after <= end - point - 1
      invariant forall i :: point + after < i < end ==> text[i] == '0'
    {
      after := after - 1;
    }
  }

  /** Where the scan leaves the digits of a number whose integer part starts at
      `start` and whose fraction is `fraction`. */
  ghost predicate Scanned(text: string, start: nat, r: Scan, fraction: string) {
    var a := r.first + r.before;
    && start <= r.first && a <= |text| && r.end <= |text|
    && AllDigits(text[start..a]) && AllDigits(fraction)
    && (forall i :: start <= i < r.first ==> text[i] == '0')
    && (r.before > 0 ==> text[r.first] != '0')
    && (fraction != "" ==>
          a + 1 + |fraction| <= |text| && text[a] == '.' && fraction == text[a + 1..a + 1 + |fraction|])
    && r.after <= |fraction|
    && (forall i :: r.after <= i < |fraction| ==> fraction[i] == '0')
    && (r.after > 0 ==> fraction[r.after - 1] != '0')
  }

  lemma IntegerScanned(text: string, start: nat, r: Scan)
    requires start <= r.first && r.first + r.before <= |text| && r.end <= |text|
    requires AllDigits(text[start..r.first + r.before])
    requires forall i :: start <= i < r.first ==> text[i] == '0'
    requires r.before > 0 ==> text[r.first] != '0'
    requires r.after == 0
    ensures Scanned(text, start, r, "")
  {
  }

  lemma FractionScanned(text: string, start: nat, r: Scan, p: nat)
    requires start <= r.first && r.first + r.before < p <= |text| && r.end <= |text|
    requires AllDigits(text[start..r.first + r.before])
    requires forall i :: start <= i < r.first ==> text[i] == '0'
    requires r.before > 0 ==> text[r.first] != '0'
    requires var a := r.first + r.before;
      && text[a] == '.' && AllDigits(text[a + 1..p])
      && r.after <= p - a - 1
      && (forall i :: a + r.after < i < p ==> text[i] == '0')
      && (r.after > 0 ==> text[a + r.after] != '0')
    ensures Scanned(text, start, r, text[r.first + r.before + 1..p])
  {
  }

  lemma ScanKeeps(text: string, start: nat, r: Scan, fraction: string)
    requires Scanned(text, start, r, fraction)
    ensures SameNumber(text, r, Number(text[start..r.first + r.before] + fraction, |fraction|, r.exponent, r.end))
  {
    hide Dec, Pow;
    var a := r.first + r.before;
    var integer := text[r.first..a];
    var kept := fraction[..r.after];
    ScannedDigits(text, start, r, fraction);
    assert text[start..a] + fraction == text[start..r.first] + (integer + kept + fraction[r.after..]);
    StripValue(text[start..r.first], integer, kept, fraction[r.after..]);
  }

  lemma ScannedDigits(text: string, start: nat, r: Scan, fraction: string)
    requires Scanned(text, start, r, fraction)
    ensures r.WellPlaced(text) && r.Digits(text) == text[r.first..r.first + r.before] + fraction[..r.after]
    ensures AllDigits(text[r.first..r.first + r.before]) && AllDigits(fraction[..r.after])
    ensures r.after > 0 ==> text[r.first + r.before + r.after] == fraction[r.after - 1]
  {
    var a := r.first + r.before;
    forall i | 0 <= i < r.before
      ensures IsDigit(text[r.first..a][i])
    {
      var k := r.first - start + i;
      assert text[start..a][k] == text[start + k] == text[r.first..a][i];
      assert IsDigit(text[start..a][k]);
    }
    forall i | 0 <= i < r.after
      ensures IsDigit(fraction[..r.after][i])
    {
      assert fraction[..r.after][i] == fraction[i];
    }
    assert r.after > 0 ==> fraction[..r.after] == text[a + 1..a + 1 + r.after];
  }

  /** Leading zeros and the zeros that end the fraction do not count. */
  lemma StripValue(leading: string, integer: string, fraction: string, trailing: string)
    requires AllDigits(integer) && AllDigits(fraction)
    requires forall i :: 0 <= i < |leading| ==> leading[i] == '0'
    requires forall i :: 0 <= i < |trailing| ==> trailing[i] == '0'
    requires integer != "" ==> integer[0] != '0'
    requires fraction != "" ==> fraction[|fraction| - 1] != '0'
    ensures var whole := leading + (integer + fraction + trailing);
      && Dec(whole) == Dec(integer + fraction) * Pow(10, |trailing|)
      && (integer + fraction == "" <==> Dec(whole) == 0)
  {
    hide Dec, Pow;
    var s := integer + fraction;
    DecStrip(s, trailing, "");
    DecStrip("", leading, s + trailing);
    DecZeros("");
    if s != "" {
      DecPositive(s, if integer != "" then 0 else |s| - 1);
      PowPositive(10, |trailing|);
      MulPositive(Dec(s), Pow(10, |trailing|));
    }
  }

  /** The digits before the point; leading zeros move `first` past them. */
  method ScanInteger(text: string, start: nat) returns (first: nat, before: nat, seen: bool, p: nat)
    requires start <= |text|
    ensures p == DigitsEnd(text, start) && first + before == p && start <= first
    ensures forall i :: start <= i < first ==> text[i] == '0'
    ensures seen <==> before > 0
    ensures before > 0 ==> text[first] != '0'
  {
    first, before, seen, p := start, 0, false, start;
    while CharAt(text, p) != '\0' && CharAt(text, p) != '.' && CharAt(text, p) !in "eE"
      invariant start <= first && first + before == p <= |text|
      invariant DigitsEnd(text, start) == DigitsEnd(text, p)
      invariant forall i :: start <= i < first ==> text[i] == '0'
      invariant seen <==> before > 0
      invariant before > 0 ==> text[first] != '0'
      decreases |text| - p
    {
      var c := CharAt(text, p);
      if IsDigit(c) {
        if seen || c > '0' {
          before := before + 1;
          seen := true;
        } else {
          first := first + 1;
        }
      } else {
        break;
      }
      p := p + 1;
    }
  }

  /** The digits after the point; the count is retracted when they end, at
      something other than an exponent or the end of the text, without any
      significant digit seen. */
  method ScanFraction(text: string, start: nat, seen0: bool) returns (p: nat, after: nat)
    requires start <= |text|
    ensures p == DigitsEnd(text, start)
    ensures after == p - start || after == 0
    ensures after == 0 ==> forall i :: start <= i < p ==> text[i] == '0'
  {
    p, after := start, 0;
    var seen := seen0;
    while CharAt(text, p) != '\0' && CharAt(text, p) !in "eE"
      invariant start <= p <= |text| && after == p - start
      invariant DigitsEnd(text, start) == DigitsEnd(text, p)
      invariant seen0 ==> seen
      invariant !seen ==> forall i :: start <= i < p ==> text[i] == '0'
      decreases |text| - p
    {
      var c := CharAt(text, p);
      if IsDigit(c) {
        after := after + 1;
        if c > '0' {
          seen := true;
        }
      } else {
        if !seen {
          after := 0;
        }
        break;
      }
      p := p + 1;
    }
  }

  method ScanExponent(text: string, start: nat, ghost digits: string, ghost fraction: nat)
    returns (exponent: int, end: nat)
    requires start <= |text|
    ensures ReadExponent(text, digits, fraction, start) == Number(digits, fraction, exponent, end)
    ensures end <= |text|
  {
    exponent, end := 0, start;
    var p := start;
    if CharAt(text, p) in "eE" {
      p := p + 1;
      var sign := '+';
      if CharAt(text, p) in "+-" {
        sign := CharAt(text, p);
        p := p + 1;
      }
      exponent, p := ScanDigits(text, p);
      if sign == '-' {
        exponent := -exponent;
      }
      end := p;
    }
  }

  method ScanDigits(text: string, start: nat) returns (value: nat, end: nat)
    requires start <= |text|
    ensures end == DigitsEnd(text, start) && value == Dec(text[start..end])
  {
    hide Dec;
    value, end := 0, start;
    assert text[start..start] == "";
    DecZeros("");
    while CharAt(text, end) != '\0'
      invariant start <= end <= |text|
      invariant DigitsEnd(text, start) == DigitsEnd(text, end)
      invariant value == Dec(text[start..end])
      decreases |text| - end
    {
      var c := CharAt(text, end);
      if IsDigit(c) {
        assert text[start..end + 1] == text[start..end] + [c];
        DecSnoc(text[start..end], c);
        value := value * 10 + (c as int - '0' as int);
      } else {
        break;
      }
      end := end + 1;
    }
  }
}
