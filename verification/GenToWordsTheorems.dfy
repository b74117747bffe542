/** When the words of a finite number are its correctly rounded encoding. */
module GenToWordsTheorems {
  import opened Arithmetic
  import opened Littlenum
  import opened BitStream
  import opened BitStreamTheorems
  import opened IeeeFormat
  import opened IeeeRounding
  import opened GenToWords

  /** Up to the largest exponent the encoding is right, except at the all-ones
      exponent field, where only a fraction of zero makes an infinity. Below
      the normal range it is right unless the number is so small that the code
      gives up, unless the carry out of the last word is lost, or unless the
      mantissa was 1 and the littlenum above it, read in its place, is even. */
  ghost predicate Good(fm: Format, m: nat, c: nat, e: int, above: Littlenum)
    requires fm.Valid()
  {
    var f := fm.FractionBits();
    if e >= 1 then
      e != fm.MaxExponent() || (Top(m, c, f + 1) == Pow(2, f) && RoundBit(f, m, c, e) == 0)
    else
      && -e < 16 * fm.words + 14 - 2 * fm.exponentBits
      && !(f + e == BITS && Top(m, c, BITS) == 0xffff && RoundBit(f, m, c, e) == 1)
      && (c == 1 && f + e >= 0 ==> above % 2 == 1)
  }

  /** The words hold the roundTiesToAway encoding of the number, sign and
      magnitude, exactly in the good cases. */
  lemma RoundsCorrectlyIff(fm: Format, sign: nat, m: nat, c: nat, e: int, above: Littlenum)
    requires fm.Valid() && sign <= 1 && HasBits(m, c)
    ensures var code := WordBits(fm, sign, m, c, e, above) - sign * TopBit(fm.words);
      (code >= 0 && IsRoundTiesToAway(fm, code, m, e - c + fm.FractionBits())) <==> Good(fm, m, c, e, above)
  {
    hide HasBits, IsRoundTiesToAway, Infinity, Pow, Format.MaxExponent, WordBits, Good, CorrectCode, TopBit;
    CodeIsCorrectIff(fm, sign, m, c, e, above);
    CorrectIsNearest(fm, m, c, e);
    var code := WordBits(fm, sign, m, c, e, above) - sign * TopBit(fm.words);
    var t := e - c + fm.FractionBits();
    if code >= 0 && IsRoundTiesToAway(fm, code, m, t) {
      RoundedUnique(fm, code, CorrectCode(fm, m, c, e), m, t);
    }
  }

  lemma CodeIsCorrectIff(fm: Format, sign: nat, m: nat, c: nat, e: int, above: Littlenum)
    requires fm.Valid() && sign <= 1 && HasBits(m, c)
    ensures WordBits(fm, sign, m, c, e, above) == sign * TopBit(fm.words) + CorrectCode(fm, m, c, e)
            <==> Good(fm, m, c, e, above)
  {
    hide HasBits, Infinity, Pow, Format.MaxExponent, TopBit, DenormalCode, Top, RoundBit, TruncatedCode, NormalBits;
    InfinityBelowSign(fm);
    MaxExponentLarge(fm);
    assert c > 0 by { BitsPositive(m, c); }
    if e >= 1 {
      if e < fm.MaxExponent() {
        BelowMaximum(fm, sign, m, c, e);
      } else if e == fm.MaxExponent() {
        AtMaximum(fm, sign, m, c, e);
      }
    } else if e >= -62 {
      if c > 1 {
        DenormalCorrectIff(fm, m, c, e);
      } else {
        LastBitTaken(fm, m, e, above);
      }
    }
  }

  lemma BitsPositive(m: nat, c: nat)
    requires HasBits(m, c)
    ensures c > 0 && m > 0
  {
    PowPositive(2, c - 1);
  }

  lemma InfinityBelowSign(fm: Format)
    requires fm.Valid()
    ensures 0 < Infinity(fm) < TopBit(fm.words)
    ensures TopBit(fm.words) == Infinity(fm) + Pow(2, fm.FractionBits())
  {
    hide Pow;
    MaxExponentLarge(fm);
    PowPositive(2, fm.FractionBits());
    PowAdd(2, fm.exponentBits, fm.FractionBits());
    MulPositive(fm.MaxExponent(), Pow(2, fm.FractionBits()));
    SumTimes(fm.MaxExponent(), 1, Pow(2, fm.FractionBits()));
  }

  lemma BelowMaximum(fm: Format, sign: nat, m: nat, c: nat, e: int)
    requires fm.Valid() && HasBits(m, c) && 1 <= e < fm.MaxExponent()
    ensures NormalBits(fm, sign, m, c, e) == sign * TopBit(fm.words) + CorrectCode(fm, m, c, e)
  {
    hide HasBits, Infinity, Pow, Format.MaxExponent, TopBit, Top, TruncatedCode;
    InfinityBelowSign(fm);
    CodeBelowInfinity(fm, m, c, e);
  }

  lemma AtMaximum(fm: Format, sign: nat, m: nat, c: nat, e: int)
    requires fm.Valid() && sign <= 1 && HasBits(m, c) && 1 <= e == fm.MaxExponent()
    ensures var f := fm.FractionBits();
      NormalBits(fm, sign, m, c, e) == sign * TopBit(fm.words) + Infinity(fm)
      <==> Top(m, c, f + 1) == Pow(2, f) && RoundBit(f, m, c, e) == 0
  {
    hide HasBits, Pow, TopBit, Top, Format.MaxExponent;
    var f := fm.FractionBits();
    InfinityBelowSign(fm);
    TopAtLeast(m, c, f + 1);
    SumTimes(e - 1, 1, Pow(2, f));
    assert TruncatedCode(f, m, c, e) == Infinity(fm) + Top(m, c, f + 1) - Pow(2, f);
    MulNonnegative(sign, TopBit(fm.words));
  }

  /** Away from the two dead ends a subnormal is right. */
  lemma DenormalCorrectIff(fm: Format, m: nat, c: nat, e: int)
    requires fm.Valid() && HasBits(m, c) && e <= 0
    ensures var f := fm.FractionBits();
      DenormalCode(fm, m, c, e) == CorrectCode(fm, m, c, e) <==>
        && -e < 16 * fm.words + 14 - 2 * fm.exponentBits
        && !(f + e == BITS && Top(m, c, BITS) == 0xffff && RoundBit(f, m, c, e) == 1)
  {
    hide HasBits, Infinity, Pow, Format.MaxExponent, Top;
    var f := fm.FractionBits();
    var k := f + e;
    InfinityBelowSign(fm);
    MaxExponentLarge(fm);
    if -e < 16 * fm.words + 14 - 2 * fm.exponentBits && 0 <= k <= BITS {
      KeptFits(m, c, k);
    }
  }

  lemma KeptFits(m: nat, c: nat, k: nat)
    requires HasBits(m, c) && k <= BITS
    ensures Top(m, c, k) < RADIX && (k < BITS ==> Top(m, c, k) + 1 < RADIX)
  {
    hide Pow, Top;
    TopFits(m, c, k);
    TwoToBits();
    PowStep(2, 15);
    if k < BITS {
      PowMonotone(2, k, 15);
    }
  }

  /** A mantissa of 1, whose only bit could not be given back. */
  lemma LastBitTaken(fm: Format, m: nat, e: int, above: Littlenum)
    requires fm.Valid() && HasBits(m, 1) && -62 <= e <= 0
    ensures DenormalCode(fm, above % 2, 1, e) == CorrectCode(fm, m, 1, e) <==> Good(fm, m, 1, e, above)
  {
    assert m == 1 by { assert Pow(2, 0) == 1 && Pow(2, 1) == 2; }
    hide HasBits, Infinity, Pow, Top, DenormalCode, CorrectCode;
    DenormalCorrectIff(fm, 1, 1, e);
    if above % 2 == 0 {
      OnlyBitLost(fm, e);
    }
  }

  /** Without its only bit the number comes out as zero, or else is one of those
      that are wrong anyway. */
  lemma OnlyBitLost(fm: Format, e: int)
    requires fm.Valid() && e <= 0
    ensures if 0 <= fm.FractionBits() + e then DenormalCode(fm, 0, 1, e) != CorrectCode(fm, 1, 1, e)
            else DenormalCode(fm, 0, 1, e) == DenormalCode(fm, 1, 1, e)
  {
    hide Infinity, Pow, Top, Format.MaxExponent;
    var k := fm.FractionBits() + e;
    InfinityBelowSign(fm);
    MaxExponentLarge(fm);
    if 0 <= k {
      NothingLeft(k);
      NothingLeft(k + 1);
      OneBit(k);
    }
  }

  lemma NothingLeft(k: nat)
    ensures Top(0, 1, k) == 0
  {
    assert Pow(2, 1) == 2 && Pow(2, 0) == 1;
  }

  lemma OneBit(k: nat)
    ensures Top(1, 1, k) + Top(1, 1, k + 1) % 2 > 0
  {
    assert Pow(2, 1) == 2 && Pow(2, 0) == 1;
    if k > 0 {
      PowPositive(2, k - 1);
    }
  }
}
