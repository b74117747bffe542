/** Finite numbers whose words are not their rounded encoding, one for each way
    in which that can happen. */
module GenToWordsExamples {
  import opened Arithmetic
  import opened Littlenum
  import opened BitStream
  import opened IeeeFormat
  import opened IeeeRounding
  import opened GenToWords
  import opened GenToWordsTheorems

  /** The float made of m * RADIX^exponent is `code`, which is not its
      roundTiesToAway encoding. */
  ghost predicate Misrounded(m: nat, c: nat, exponent: int, above: Littlenum, code: nat) {
    var e := BiasedExponent(SINGLE, c, exponent);
    && HasBits(m, c) && WordBits(SINGLE, 0, m, c, e, above) == code
    && !IsRoundTiesToAway(SINGLE, code, m, e - c + SINGLE.FractionBits())
  }

  lemma NotGoodMisrounded(m: nat, c: nat, exponent: int, above: Littlenum, code: nat)
    requires var e := BiasedExponent(SINGLE, c, exponent);
      HasBits(m, c) && WordBits(SINGLE, 0, m, c, e, above) == code && !Good(SINGLE, m, c, e, above)
    ensures Misrounded(m, c, exponent, above, code)
  {
    hide HasBits, WordBits, Good, IsRoundTiesToAway, Pow, TopBit;
    RoundsCorrectlyIff(SINGLE, 0, m, c, BiasedExponent(SINGLE, c, exponent), above);
    assert 0 * TopBit(SINGLE.words) == 0;
  }

  lemma Powers()
    ensures Pow(2, 0) == 1 && Pow(2, 1) == 2 && Pow(2, 3) == 8 && Pow(2, 4) == 0x10
    ensures Pow(2, 7) == 0x80 && Pow(2, 8) == 0x100 && Pow(2, 10) == 0x400 && Pow(2, 11) == 0x800
    ensures Pow(2, 16) == 0x1_0000 && Pow(2, 17) == 0x2_0000 && Pow(2, 22) == 0x40_0000 && Pow(2, 23) == 0x80_0000
    ensures Pow(2, 26) == 0x400_0000 && Pow(2, 27) == 0x800_0000 && Pow(2, 31) == 0x8000_0000
  {
    assert Pow(2, 4) == 0x10;
    PowAdd(2, 4, 4);
    PowAdd(2, 4, 3);
    PowAdd(2, 8, 2);
    PowAdd(2, 8, 3);
    PowAdd(2, 8, 8);
    PowAdd(2, 16, 1);
    PowAdd(2, 11, 11);
    PowAdd(2, 22, 1);
    PowAdd(2, 16, 10);
    PowAdd(2, 26, 1);
    PowAdd(2, 23, 8);
  }

  /** 1.5 * 2^128, too large for a float, becomes a NaN. */
  lemma OverflowToNan()
    ensures Misrounded(0x1_8000, 17, 7, 0, 0x7fc0_0000)
  {
    hide Pow;
    Powers();
    PowAdd(2, 7, 1);
    NotGoodMisrounded(0x1_8000, 17, 7, 0, 0x7fc0_0000);
  }

  /** (2^17 - 1) * 2^-150 keeps sixteen bits, all of them ones; rounding up
      gives zero. */
  lemma CarryDropped()
    ensures Misrounded(0x7ff_fc00, 27, -10, 0, 0)
  {
    hide Pow;
    Powers();
    NotGoodMisrounded(0x7ff_fc00, 27, -10, 0, 0);
  }

  /** 2^-157, less than half the smallest subnormal, becomes an infinity. */
  lemma TinyToInfinity()
    ensures Misrounded(8, 4, -10, 0, 0x7f80_0000)
  {
    hide Pow;
    Powers();
    NotGoodMisrounded(8, 4, -10, 0, 0x7f80_0000);
  }

  /** 2^-128, a mantissa of 1 under an even littlenum, becomes zero. */
  lemma OnlyBitDropped()
    ensures Misrounded(1, 1, -8, 0, 0)
  {
    hide Pow;
    Powers();
    NotGoodMisrounded(1, 1, -8, 0, 0);
  }
}
