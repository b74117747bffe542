/** The correctly rounded encoding of a number, computed from its leading
    bits. The number is m * 2^(e - c + f) units: m has c bits, f is the number
    of fraction bits of the format, and e the biased exponent. */
module IeeeRounding {
  import opened Arithmetic
  import opened BitStream
  import opened BitStreamTheorems
  import opened IeeeFormat

  ghost predicate HasBits(m: nat, c: nat) {
    c > 0 && Pow(2, c - 1) <= m < Pow(2, c)
  }

  /** How many leading bits of m the encoding keeps. */
  function KeptBits(f: nat, e: int): int {
    f + 1 + Min(0, e - 1)
  }

  /** The kept bits placed in the exponent and fraction fields. */
  function TruncatedCode(f: nat, m: nat, c: nat, e: int): nat
    requires e + f >= 0
  {
    PowPositive(2, f);
    MulNonnegative(Max(0, e - 1), Pow(2, f));
    Max(0, e - 1) * Pow(2, f) + Top(m, c, KeptBits(f, e))
  }

  /** The first bit not kept. */
  function RoundBit(f: nat, m: nat, c: nat, e: int): nat
    requires e + f >= 0
  {
    Top(m, c, KeptBits(f, e) + 1) % 2
  }

  function CorrectCode(fm: Format, m: nat, c: nat, e: int): int
    requires fm.Valid()
  {
    var f := fm.FractionBits();
    if e + f < 0 then 0
    else if e >= fm.MaxExponent() then Infinity(fm)
    else TruncatedCode(f, m, c, e) + RoundBit(f, m, c, e)
  }

  lemma MulNonnegative(x: nat, y: nat)
    ensures x * y >= 0
  {
  }

  lemma Bracket(m: nat, c: nat, n: nat, k: nat, u: nat)
    requires n + k == c + u
    ensures Top(m, c, n) * Pow(2, k) <= m * Pow(2, u) < (Top(m, c, n) + 1) * Pow(2, k)
  {
    if n <= c {
      BracketWithin(m, c, n, k, u);
    } else {
      BracketBeyond(m, c, n, k, u);
    }
  }

  lemma BracketWithin(m: nat, c: nat, n: nat, k: nat, u: nat)
    requires n <= c && n + k == c + u
    ensures Top(m, c, n) * Pow(2, k) <= m * Pow(2, u) < (Top(m, c, n) + 1) * Pow(2, k)
  {
    hide Pow;
    PowPositive(2, c - n);
    PowPositive(2, u);
    PowAdd(2, c - n, u);
    FloorTimes(m, Pow(2, c - n), Pow(2, u));
  }

  lemma FloorTimes(m: nat, p: nat, w: nat)
    requires p > 0 && w > 0
    ensures m / p * (p * w) <= m * w < (m / p + 1) * (p * w)
  {
    var q := m / p;
    FloorBrackets(m, p);
    MulMonotone(w, q * p, m);
    MulStrict(w, m, (q + 1) * p);
    MulRegroup(q, p, w);
    MulRegroup(q + 1, p, w);
  }

  lemma FloorBrackets(m: nat, p: nat)
    requires p > 0
    ensures m / p * p <= m < (m / p + 1) * p
  {
    DivAtLeast(m, p, m / p);
    DivAtLeast(m, p, m / p + 1);
  }

  lemma BracketBeyond(m: nat, c: nat, n: nat, k: nat, u: nat)
    requires n > c && n + k == c + u
    ensures Top(m, c, n) * Pow(2, k) <= m * Pow(2, u) < (Top(m, c, n) + 1) * Pow(2, k)
  {
    hide Pow;
    PowPositive(2, k);
    PowAdd(2, n - c, k);
    MulRegroup(m, Pow(2, n - c), Pow(2, k));
    SumTimes(Top(m, c, n), 1, Pow(2, k));
  }

  lemma TopAtLeast(m: nat, c: nat, n: nat)
    requires HasBits(m, c) && n > 0
    ensures Top(m, c, n) >= Pow(2, n - 1)
  {
    hide Pow;
    if n <= c {
      PowPositive(2, c - n);
      PowAdd(2, n - 1, c - n);
      DivAtLeast(m, Pow(2, c - n), Pow(2, n - 1));
    } else {
      PowAdd(2, c - 1, n - c);
      MulMonotone(Pow(2, n - c), Pow(2, c - 1), m);
    }
  }

  /** One more bit. */
  lemma NextBit(m: nat, c: nat, n: nat)
    ensures Top(m, c, n + 1) / 2 == Top(m, c, n)
  {
    hide Top, Below;
    TopAppend(m, c, n, 1);
    BelowFits(m, c, n);
    TopFits(Below(m, c, n), Max(0, c - n), 1);
    assert Pow(2, 1) == 2;
  }

  lemma Doubling(m: nat, u: nat)
    ensures m * Pow(2, u + 1) == 2 * (m * Pow(2, u))
  {
    PowStep(2, u);
    MulRegroup(m, 2, Pow(2, u));
  }

  /** The kept bits are the neighbour below, the round bit says which half. */
  lemma Neighbours(f: nat, m: nat, c: nat, e: int)
    requires HasBits(m, c) && e + f >= 0
    ensures var t := e - c + f;
      var code := TruncatedCode(f, m, c, e);
      var a, b := Pow(2, Max(0, -t)), m * Pow(2, Max(0, t));
      && Units(f, code) * a <= b < Units(f, code + 1) * a
      && (RoundBit(f, m, c, e) == 1 <==> 2 * b >= Units(f, code) * a + Units(f, code + 1) * a)
  {
    hide Pow, Units, Top, HasBits;
    var t, n, s := e - c + f, KeptBits(f, e), Max(0, e - 1);
    var u, d := Max(0, t), Max(0, -t);
    var q := Top(m, c, n);
    Significand(f, m, c, e);
    UnitsAt(f, s, q);
    UnitsAt(f, s, q + 1);
    PowAdd(2, s, d);
    MulRegroup(q, Pow(2, s), Pow(2, d));
    MulRegroup(q + 1, Pow(2, s), Pow(2, d));
    Bracket(m, c, n, s + d, u);
    Bracket(m, c, n + 1, s + d, u + 1);
    NextBit(m, c, n);
    Doubling(m, u);
    Halves(q, Top(m, c, n + 1), m * Pow(2, u), Pow(2, s + d));
  }

  lemma Significand(f: nat, m: nat, c: nat, e: int)
    requires HasBits(m, c) && e + f >= 0
    ensures var q := Top(m, c, KeptBits(f, e));
      q + 1 <= 2 * Pow(2, f) && (e > 1 ==> q >= Pow(2, f))
  {
    hide Pow, Top;
    TopFits(m, c, KeptBits(f, e));
    PowStep(2, f);
    PowMonotone(2, KeptBits(f, e), f + 1);
    if e > 1 {
      TopAtLeast(m, c, f + 1);
    }
  }

  lemma Halves(q: nat, r: nat, b: nat, k: nat)
    requires r / 2 == q && r * k <= 2 * b < (r + 1) * k
    ensures r % 2 == 1 <==> 2 * b >= q * k + (q + 1) * k
  {
    SumTimes(q, 1, k);
    SumTimes(r, 1, k);
    SumTimes(q, q, k);
    if r % 2 == 1 {
      SumTimes(q + q, 1, k);
    }
  }

  /** The rounded code is the roundTiesToAway encoding, subnormal or normal. */
  lemma RoundedIsNearest(fm: Format, m: nat, c: nat, e: int)
    requires fm.Valid() && HasBits(m, c) && 0 <= e + fm.FractionBits() && e < fm.MaxExponent()
    ensures var f := fm.FractionBits();
      IsRoundTiesToAway(fm, TruncatedCode(f, m, c, e) + RoundBit(f, m, c, e), m, e - c + f)
  {
    hide Pow, Units, Top, HasBits, TruncatedCode, Format.MaxExponent;
    var f := fm.FractionBits();
    Neighbours(f, m, c, e);
    CodeBelowInfinity(fm, m, c, e);
    NearestNeighbour(fm, TruncatedCode(f, m, c, e), m, e - c + f, RoundBit(f, m, c, e) == 1);
  }

  lemma CodeBelowInfinity(fm: Format, m: nat, c: nat, e: int)
    requires fm.Valid() && HasBits(m, c) && 0 <= e + fm.FractionBits() && e < fm.MaxExponent()
    ensures TruncatedCode(fm.FractionBits(), m, c, e) + 1 <= Infinity(fm)
  {
    hide Pow, Top, HasBits, Format.MaxExponent;
    var f := fm.FractionBits();
    var s := Max(0, e - 1);
    Significand(f, m, c, e);
    PowPositive(2, f);
    MaxExponentLarge(fm);
    MulMonotone(Pow(2, f), s + 2, fm.MaxExponent());
    SumTimes(s, 2, Pow(2, f));
  }

  lemma MaxExponentLarge(fm: Format)
    requires fm.Valid()
    ensures 3 <= fm.MaxExponent() && fm.MaxExponent() == if fm.words == 2 then 0xff else 0x7ff
  {
    assert Pow(2, 8) == 0x100;
    assert Pow(2, 3) == 8;
    PowAdd(2, 8, 3);
  }

  /** Half the smallest subnormal number is the least that is not rounded to
      zero. */
  lemma TooSmall(fm: Format, m: nat, c: nat, e: int)
    requires fm.Valid() && HasBits(m, c) && e + fm.FractionBits() < 0
    ensures IsRoundTiesToAway(fm, 0, m, e - c + fm.FractionBits())
  {
    hide Pow;
    var f := fm.FractionBits();
    var t := e - c + f;
    PowMonotone(2, c + 1, -t);
    PowStep(2, c);
    PowMonotone(2, 1, f);
    PowPositive(2, f);
    assert Pow(2, 0) == 1 && Pow(2, 1) == 2 by { PowBasics(0); }
    MaxExponentLarge(fm);
    MulMonotone(Pow(2, f), 1, fm.MaxExponent());
    NearestNeighbour(fm, 0, m, t, false);
  }

  lemma TooLarge(fm: Format, m: nat, c: nat, e: int)
    requires fm.Valid() && HasBits(m, c) && e >= fm.MaxExponent()
    ensures Infinity(fm) >= 0 && IsRoundTiesToAway(fm, Infinity(fm), m, e - c + fm.FractionBits())
  {
    hide Pow, Units, Format.MaxExponent;
    var f, top := fm.FractionBits(), fm.MaxExponent();
    var t := e - c + f;
    var u, d := Max(0, t), Max(0, -t);
    MaxExponentLarge(fm);
    PowPositive(2, f);
    UnitsAt(f, top - 2, 2 * Pow(2, f));
    SumTimes(top - 2, 2, Pow(2, f));
    PowStep(2, f);
    PowAdd(2, f + 1, top - 2);
    PowAdd(2, f + top - 1, d);
    PowAdd(2, c - 1, u);
    PowMonotone(2, f + top - 1 + d, c - 1 + u);
    PowPositive(2, u);
    MulMonotone(Pow(2, u), Pow(2, c - 1), m);
    NearestInfinity(fm, m, t);
  }

  lemma CorrectIsNearest(fm: Format, m: nat, c: nat, e: int)
    requires fm.Valid() && HasBits(m, c)
    ensures 0 <= CorrectCode(fm, m, c, e)
    ensures IsRoundTiesToAway(fm, CorrectCode(fm, m, c, e), m, e - c + fm.FractionBits())
  {
    hide HasBits, IsRoundTiesToAway, Infinity, Pow, Format.MaxExponent;
    if e + fm.FractionBits() < 0 {
      TooSmall(fm, m, c, e);
    } else if e >= fm.MaxExponent() {
      TooLarge(fm, m, c, e);
    } else {
      RoundedIsNearest(fm, m, c, e);
    }
  }
}
