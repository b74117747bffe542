/** Binary interchange formats (section 3.4 of IEEE 754-2008) and the rounding
    attribute roundTiesToAway (section 4.3.1). Magnitudes are counted in units
    of the smallest subnormal number. */
module IeeeFormat {
  import opened Arithmetic

  /** The number of 16-bit words, and of bits in the exponent field. */
  datatype Format = Format(words: nat, exponentBits: nat) {

    predicate Valid() {
      (words == 2 && exponentBits == 8) || (words == 4 && exponentBits == 11)
    }

    function FractionBits(): int {
      16 * words - 1 - exponentBits
    }

    function MaxExponent(): int {
      Pow(2, exponentBits) - 1
    }
  }

  const SINGLE := Format(2, 8)
  const DOUBLE := Format(4, 11)

  /** The encoding of infinity, the sign bit left out. */
  function Infinity(fm: Format): int
    requires fm.Valid()
  {
    fm.MaxExponent() * Pow(2, fm.FractionBits())
  }

  /** The magnitude encoded by `code`, with f fraction bits. Infinity counts as
      the number one step above the largest finite one, where rounding to it
      begins to apply. */
  function Units(f: nat, code: nat): nat {
    PowPositive(2, f);
    var p := Pow(2, f);
    if code < p then code else (p + code % p) * Pow(2, code / p - 1)
  }

  /** How far the encoding is from mantissa * 2^t, both scaled to integers. */
  function Distance(f: nat, code: nat, mantissa: nat, t: int): nat {
    var x := Units(f, code) * Pow(2, Max(0, -t));
    var y := mantissa * Pow(2, Max(0, t));
    if x <= y then y - x else x - y
  }

  /** No encoding up to infinity is nearer, and none as near is farther from
      zero. */
  ghost predicate IsRoundTiesToAway(fm: Format, code: nat, mantissa: nat, t: int)
    requires fm.Valid()
  {
    var f := fm.FractionBits();
    && code <= Infinity(fm)
    && forall other: nat :: other <= Infinity(fm) ==>
         && Distance(f, code, mantissa, t) <= Distance(f, other, mantissa, t)
         && (Distance(f, code, mantissa, t) == Distance(f, other, mantissa, t) ==> other <= code)
  }

  /** At most one encoding is the rounded one. */
  lemma RoundedUnique(fm: Format, a: nat, b: nat, mantissa: nat, t: int)
    requires fm.Valid() && IsRoundTiesToAway(fm, a, mantissa, t) && IsRoundTiesToAway(fm, b, mantissa, t)
    ensures a == b
  {
    var f := fm.FractionBits();
    assert Distance(f, a, mantissa, t) <= Distance(f, b, mantissa, t);
    assert Distance(f, b, mantissa, t) <= Distance(f, a, mantissa, t);
  }

  /** Significand q with exponent s above the subnormal one, also where q has
      just reached the next power of two. */
  lemma UnitsAt(f: nat, s: nat, q: nat)
    requires q <= 2 * Pow(2, f) && (s > 0 ==> q >= Pow(2, f))
    ensures s * Pow(2, f) >= 0 && Units(f, s * Pow(2, f) + q) == q * Pow(2, s)
  {
    hide Pow, Units;
    var p := Pow(2, f);
    PowPositive(2, f);
    if q == 2 * p {
      UnitsOfTwice(f, s);
      PowBasics(s);
      TwiceSignificand(p, Pow(2, s), Pow(2, s + 1));
    } else if q >= p {
      UnitsOfNormal(f, s, q - p);
      assert p + (q - p) == q;
    } else {
      PowBasics(s);
      UnitsOf(f, 0, q);
    }
  }

  lemma UnitsOfNormal(f: nat, s: nat, r: nat)
    requires r < Pow(2, f)
    ensures s * Pow(2, f) >= 0 && Units(f, s * Pow(2, f) + (Pow(2, f) + r)) == (Pow(2, f) + r) * Pow(2, s)
  {
    hide Pow, Units;
    SumTimes(s, 1, Pow(2, f));
    UnitsOf(f, s + 1, r);
    assert s * Pow(2, f) >= 0;
  }

  /** The next power of two. */
  lemma UnitsOfTwice(f: nat, s: nat)
    ensures s * Pow(2, f) >= 0 && Units(f, s * Pow(2, f) + 2 * Pow(2, f)) == Pow(2, f) * Pow(2, s + 1)
  {
    hide Pow, Units;
    PowPositive(2, f);
    SumTimes(s, 1, Pow(2, f));
    UnitsOfNormal(f, s + 1, 0);
    assert s * Pow(2, f) >= 0;
  }

  lemma TwiceSignificand(p: nat, w: nat, v: nat)
    requires v == 2 * w
    ensures p * v == (2 * p) * w
  {
    MulRegroup(p, 2, w);
  }

  /** An exponent field d and a fraction r. */
  lemma UnitsOf(f: nat, d: nat, r: nat)
    requires r < Pow(2, f)
    ensures d * Pow(2, f) >= 0
    ensures Units(f, d * Pow(2, f) + r) == if d == 0 then r else (Pow(2, f) + r) * Pow(2, d - 1)
  {
    hide Pow;
    DivModUnique(d * Pow(2, f) + r, Pow(2, f), d, r);
    if d > 0 {
      MulMonotone(Pow(2, f), 1, d);
    }
  }

  lemma PowBasics(s: nat)
    ensures Pow(2, 0) == 1 && Pow(2, s + 1) == 2 * Pow(2, s)
  {
  }

  /** The significand and exponent of an encoding. */
  lemma Decompose(f: nat, code: nat) returns (s: nat, q: nat)
    ensures code == s * Pow(2, f) + q && q < 2 * Pow(2, f) && (s > 0 ==> q >= Pow(2, f))
  {
    hide Pow;
    var p := Pow(2, f);
    PowPositive(2, f);
    if code < p {
      s, q := 0, code;
    } else {
      s, q := code / p - 1, p + code % p;
      SumTimes(code / p, -1, p);
      DivAtLeast(code, p, 1);
    }
  }

  lemma UnitsStep(f: nat, code: nat)
    ensures Units(f, code) < Units(f, code + 1)
  {
    hide Pow, Units;
    var s, q := Decompose(f, code);
    UnitsAt(f, s, q);
    UnitsAt(f, s, q + 1);
    PowPositive(2, s);
    SumTimes(q, 1, Pow(2, s));
  }

  lemma {:induction false} UnitsMonotone(f: nat, a: nat, b: nat)
    requires a <= b
    ensures Units(f, a) <= Units(f, b) && (a < b ==> Units(f, a) < Units(f, b))
    decreases b - a
  {
    if a < b {
      UnitsMonotone(f, a, b - 1);
      UnitsStep(f, b - 1);
    }
  }

  /** Between two neighbouring encodings, the nearer is the nearest of all. */
  lemma NearestNeighbour(fm: Format, code: nat, mantissa: nat, t: int, up: bool)
    requires fm.Valid() && code + 1 <= Infinity(fm)
    requires var f := fm.FractionBits();
      var a, b := Pow(2, Max(0, -t)), mantissa * Pow(2, Max(0, t));
      && Units(f, code) * a <= b < Units(f, code + 1) * a
      && (up <==> 2 * b >= Units(f, code) * a + Units(f, code + 1) * a)
    ensures IsRoundTiesToAway(fm, if up then code + 1 else code, mantissa, t)
  {
    hide Pow, Units, Infinity;
    var f := fm.FractionBits();
    forall other: nat | other <= Infinity(fm)
      ensures var chosen := if up then code + 1 else code;
        && Distance(f, chosen, mantissa, t) <= Distance(f, other, mantissa, t)
        && (Distance(f, chosen, mantissa, t) == Distance(f, other, mantissa, t) ==> other <= chosen)
    {
      NearerThan(f, code, mantissa, t, up, other);
    }
  }

  lemma NearerThan(f: nat, code: nat, mantissa: nat, t: int, up: bool, other: nat)
    requires var a, b := Pow(2, Max(0, -t)), mantissa * Pow(2, Max(0, t));
      && Units(f, code) * a <= b < Units(f, code + 1) * a
      && (up <==> 2 * b >= Units(f, code) * a + Units(f, code + 1) * a)
    ensures var chosen := if up then code + 1 else code;
      && Distance(f, chosen, mantissa, t) <= Distance(f, other, mantissa, t)
      && (Distance(f, chosen, mantissa, t) == Distance(f, other, mantissa, t) ==> other <= chosen)
  {
    hide Pow, Units;
    if other <= code {
      ScaledMonotone(f, other, code, t);
    } else {
      ScaledMonotone(f, code + 1, other, t);
    }
  }

  lemma ScaledMonotone(f: nat, a: nat, b: nat, t: int)
    requires a <= b
    ensures var p := Pow(2, Max(0, -t));
      && Units(f, a) * p <= Units(f, b) * p
      && (a < b ==> Units(f, a) * p < Units(f, b) * p)
  {
    hide Pow, Units;
    UnitsMonotone(f, a, b);
    var p := Pow(2, Max(0, -t));
    PowPositive(2, Max(0, -t));
    MulMonotone(p, Units(f, a), Units(f, b));
    if a < b {
      MulStrict(p, Units(f, a), Units(f, b));
    }
  }

  /** Anything from the step above the largest finite number on is infinite. */
  lemma NearestInfinity(fm: Format, mantissa: nat, t: int)
    requires fm.Valid() && Infinity(fm) >= 0
    requires Units(fm.FractionBits(), Infinity(fm)) * Pow(2, Max(0, -t)) <= mantissa * Pow(2, Max(0, t))
    ensures IsRoundTiesToAway(fm, Infinity(fm), mantissa, t)
  {
    hide Pow, Units, Infinity;
    forall other: nat | other <= Infinity(fm)
      ensures Distance(fm.FractionBits(), Infinity(fm), mantissa, t) <= Distance(fm.FractionBits(), other, mantissa, t)
    {
      ScaledMonotone(fm.FractionBits(), other, Infinity(fm), t);
    }
  }
}
