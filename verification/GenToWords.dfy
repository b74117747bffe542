/** Packing a flonum into the words of an IEEE float or double. */
module GenToWords {
  import opened Arithmetic
  import opened Littlenum
  import opened Flonums
  import opened BitStream
  import opened BitStreamTheorems
  import opened IeeeFormat
  import opened IeeeRounding

  /** The number a sequence of words stands for, the first the most
      significant. */
  function Be(s: Bignum): nat {
    if s == [] then 0 else Be(s[..|s| - 1]) * RADIX + s[|s| - 1]
  }

  const SIGN: int := 0x8000

  /** The highest bit of so many words. */
  function TopBit(words: nat): nat {
    if words == 0 then 0 else Pow(2, BITS * words - 1)
  }

  lemma {:induction false} BeBound(s: Bignum)
    ensures Be(s) < Pow(RADIX, |s|)
  {
    if s != [] {
      BeBound(s[..|s| - 1]);
    }
  }

  lemma BeSnoc(s: Bignum, x: Littlenum)
    ensures Be(s + [x]) == Be(s) * RADIX + x
  {
    assert (s + [x])[..|s|] == s;
  }

  /** One more on the last word, the carry rippling towards the first. */
  method RoundUp(words: array<Littlenum>, precision: nat)
    requires precision <= words.Length
    modifies words
    ensures Pow(RADIX, precision) > 0
    ensures Be(words[..precision]) == (old(Be(words[..precision])) + 1) % Pow(RADIX, precision)
    ensures words[precision..] == old(words[precision..])
  {
    hide Be, Pow;
    ghost var was := words[..precision];
    var carry := 1;
    var lp: int := precision - 1;
    NothingRounded(was);
    while carry != 0 && lp >= 0
      invariant -1 <= lp < precision && 0 <= carry <= 1
      invariant words[..lp + 1] == was[..lp + 1]
      invariant words[precision..] == old(words[precision..])
      invariant Rounded(was, lp + 1, carry, words[..precision])
      decreases lp
    {
      var x: int := words[lp];
      RoundedStep(was, lp, carry, words[..precision]);
      words[lp] := (x + carry) % RADIX;
      carry := (x + carry) / RADIX;
      lp := lp - 1;
    }
    RoundedDone(was, lp + 1, carry, words[..precision]);
  }

  /** With the words from i on done and a carry into the words before. */
  ghost predicate Rounded(was: Bignum, i: nat, carry: nat, now: Bignum) {
    && |now| == |was| && i <= |was|
    && now[..i] == was[..i]
    && Be(now) + carry * Pow(RADIX, |was| - i) == Be(was) + 1
  }

  lemma NothingRounded(was: Bignum)
    ensures Rounded(was, |was|, 1, was)
  {
    assert Pow(RADIX, 0) == 1;
  }

  lemma {:induction false} BeUpdate(s: Bignum, i: nat, y: Littlenum)
    requires i < |s|
    ensures Be(s[i := y]) == Be(s) + (y - s[i]) * Pow(RADIX, |s| - 1 - i)
  {
    var n := |s| - 1;
    if i == n {
      assert s[i := y][..n] == s[..n];
      assert Pow(RADIX, 0) == 1;
    } else {
      BeUpdate(s[..n], i, y);
      assert s[i := y][..n] == s[..n][i := y];
      SumTimes(Be(s[..n]), (y - s[i]) * Pow(RADIX, n - 1 - i), RADIX);
      MulRegroup(y - s[i], Pow(RADIX, n - 1 - i), RADIX);
    }
  }

  lemma RoundedStep(was: Bignum, lp: nat, carry: nat, now: Bignum)
    requires lp < |was| && Rounded(was, lp + 1, carry, now)
    ensures Rounded(was, lp, (was[lp] + carry) / RADIX, now[lp := (was[lp] + carry) % RADIX])
  {
    hide Be, Pow;
    assert now[lp] == was[..lp + 1][lp];
    var sum: int := was[lp] + carry;
    var w := Pow(RADIX, |was| - 1 - lp);
    BeUpdate(now, lp, sum % RADIX);
    PowStep(RADIX, |was| - 1 - lp);
    Carried(was[lp], carry, sum / RADIX, sum % RADIX, w);
    assert now[lp := sum % RADIX][..lp] == was[..lp] by {
      assert was[..lp + 1][..lp] == was[..lp];
    }
  }

  lemma Carried(x: int, carry: int, q: int, r: int, w: int)
    requires q * RADIX + r == x + carry
    ensures (r - x) * w + q * (RADIX * w) == carry * w
  {
    MulRegroup(q, RADIX, w);
    SumTimes(r - x, q * RADIX, w);
  }

  lemma RoundedDone(was: Bignum, i: nat, carry: nat, now: Bignum)
    requires Rounded(was, i, carry, now) && carry <= 1 && (carry == 0 || i == 0)
    ensures Pow(RADIX, |was|) > 0 && Be(now) == (Be(was) + 1) % Pow(RADIX, |was|)
  {
    hide Be, Pow;
    PowPositive(RADIX, |was|);
    BeBound(now);
    DivModUnique(Be(was) + 1, Pow(RADIX, |was|), carry, Be(now));
  }

  /** The reader has k bits of m, which has c, behind it. */
  ghost predicate At(reader: Reader, m: nat, c: nat, k: nat)
    reads reader, reader.low
  {
    reader.Valid() && reader.Rest() == Below(m, c, k) && reader.Unread() == Max(0, c - k)
  }

  /** How many leading bits of the mantissa are in the first i words. */
  function KeptIn(fm: Format, e: int, i: nat): int {
    BITS * i - fm.exponentBits + Min(0, e - 1)
  }

  /** The first i words of a truncated encoding. */
  function Partial(fm: Format, sign: nat, m: nat, c: nat, e: int, i: nat): int
    requires fm.Valid() && i > 0 && KeptIn(fm, e, i) >= 0
  {
    sign * TopBit(i) + Max(0, e - 1) * Pow(2, BITS * i - 1 - fm.exponentBits) + Top(m, c, KeptIn(fm, e, i))
  }

  method ReadAt(reader: Reader, n: nat, ghost m: nat, ghost c: nat, ghost k: nat) returns (value: int)
    requires At(reader, m, c, k) && n <= BITS
    modifies reader
    ensures At(reader, m, c, k + n)
    ensures value == Top(Below(m, c, k), Max(0, c - k), n)
    ensures 0 <= value < Pow(2, n)
    ensures Top(m, c, k + n) == Top(m, c, k) * Pow(2, n) + value
    ensures reader.Current() == AfterNext(old(reader.Current()), n)
  {
    hide Top, Below, Pow, Reader.Rest, Reader.Unread, Reader.Valid;
    TopAppend(m, c, k, n);
    BelowFits(m, c, k);
    TopFits(Below(m, c, k), Max(0, c - k), n);
    value := reader.NextBits(n);
  }

  lemma PartialStep(fm: Format, sign: nat, m: nat, c: nat, e: int, i: nat, word: nat)
    requires fm.Valid() && i > 0 && KeptIn(fm, e, i) >= 0
    requires Top(m, c, KeptIn(fm, e, i) + BITS) == Top(m, c, KeptIn(fm, e, i)) * Pow(2, BITS) + word
    ensures KeptIn(fm, e, i + 1) == KeptIn(fm, e, i) + BITS
    ensures Partial(fm, sign, m, c, e, i + 1) == Partial(fm, sign, m, c, e, i) * RADIX + word
  {
    hide Pow, Top;
    TwoToBits();
    var x, y := Pow(2, BITS * i - 1), Pow(2, BITS * i - 1 - fm.exponentBits);
    PowAdd(2, BITS * i - 1, BITS);
    PowAdd(2, BITS * i - 1 - fm.exponentBits, BITS);
    MulRegroup(sign, x, RADIX);
    MulRegroup(Max(0, e - 1), y, RADIX);
    SumTimes(sign * x + Max(0, e - 1) * y, Top(m, c, KeptIn(fm, e, i)), RADIX);
    SumTimes(sign * x, Max(0, e - 1) * y, RADIX);
  }

  /** From `start` on the words are filled with what the reader has next. */
  method FillWords(reader: Reader, words: array<Littlenum>, start: nat, precision: nat,
                   ghost fm: Format, ghost sign: nat, ghost m: nat, ghost c: nat, ghost e: int)
    requires fm.Valid() && fm.words == precision && 0 < start <= precision <= words.Length
    requires words != reader.low
    requires KeptIn(fm, e, start) >= 0 && At(reader, m, c, KeptIn(fm, e, start))
    requires Be(words[..start]) == Partial(fm, sign, m, c, e, start)
    modifies reader, words
    ensures KeptIn(fm, e, precision) >= 0 && At(reader, m, c, KeptIn(fm, e, precision))
    ensures Be(words[..precision]) == Partial(fm, sign, m, c, e, precision)
    ensures words[..start] == old(words[..start])
    ensures words[precision..] == old(words[precision..])
  {
    hide At, Be, Partial, Pow, Top, Below;
    TwoToBits();
    var lp := start;
    while lp < precision
      invariant start <= lp <= precision
      invariant KeptIn(fm, e, lp) >= 0 && At(reader, m, c, KeptIn(fm, e, lp))
      invariant Be(words[..lp]) == Partial(fm, sign, m, c, e, lp)
      invariant words[..start] == old(words[..start])
      invariant words[precision..] == old(words[precision..])
    {
      ghost var before := words[..lp];
      var word := ReadAt(reader, BITS, m, c, KeptIn(fm, e, lp));
      words[lp] := word;
      PartialStep(fm, sign, m, c, e, lp, word);
      BeSnoc(before, word);
      lp := lp + 1;
      assert words[..lp] == before + [word];
    }
  }

  /** The first word of a normal number: sign, exponent, high fraction bits. */
  lemma FirstWord(fm: Format, sign: nat, m: nat, c: nat, e: int, bits: nat)
    requires fm.Valid() && HasBits(m, c) && 1 <= e <= fm.MaxExponent() && sign <= 1
    requires var n := BITS - 1 - fm.exponentBits;
      bits < Pow(2, n) && Top(m, c, 1 + n) == Top(m, c, 1) * Pow(2, n) + bits
    ensures var word := sign * SIGN + e * Pow(2, BITS - 1 - fm.exponentBits) + bits;
      word < RADIX && word / SIGN == sign && Partial(fm, sign, m, c, e, 1) == word
  {
    hide Pow, Top;
    var n := BITS - 1 - fm.exponentBits;
    TopBitFirst(m, c);
    PowAdd(2, fm.exponentBits, n);
    SmallTopBit();
    MulMonotone(Pow(2, n), e + 1, Pow(2, fm.exponentBits));
    SumTimes(e, 1, Pow(2, n));
    SumTimes(e, -1, Pow(2, n));
    DivModUnique(sign * SIGN + e * Pow(2, n) + bits, SIGN, sign, e * Pow(2, n) + bits);
  }

  lemma SmallTopBit()
    ensures TopBit(1) == Pow(2, 15) == SIGN
  {
    assert Pow(2, 7) == 0x80 && Pow(2, 8) == 0x100;
    PowAdd(2, 7, 8);
  }

  lemma TopBitFirst(m: nat, c: nat)
    requires HasBits(m, c)
    ensures Top(m, c, 1) == 1
  {
    hide Top;
    TopFits(m, c, 1);
    TopAtLeast(m, c, 1);
    assert Pow(2, 0) == 1 && Pow(2, 1) == 2;
  }

  /** A normal number: sign, exponent and fraction, rounded on the next bit,
      the carry running into the exponent. A carry out of the exponent field
      would flip the sign; the sign bit is cleared then. */
  method WriteNormal(reader: Reader, words: array<Littlenum>, precision: nat, exponentBits: nat, e: int, sign: nat,
                     ghost fm: Format, ghost m: nat, ghost c: nat)
    requires fm.Valid() && fm.words == precision && fm.exponentBits == exponentBits
    requires 6 <= words.Length && words != reader.low && sign <= 1
    requires HasBits(m, c) && 1 <= e <= fm.MaxExponent() && At(reader, m, c, 1)
    modifies reader, words
    ensures Be(words[..precision]) == NormalBits(fm, sign, m, c, e)
  {
    hide At, Be, Partial, Pow, Top, Below, Reader.Rest, Reader.Unread, Reader.Valid, HasBits,
         Format.MaxExponent, NormalBits;
    var bits := ReadAt(reader, BITS - 1 - exponentBits, m, c, 1);
    FirstWord(fm, sign, m, c, e, bits);
    var word1 := sign * SIGN + e * Pow(2, BITS - 1 - exponentBits) + bits;
    words[0] := word1;
    BeOne(words[..1]);
    FillWords(reader, words, 1, precision, fm, sign, m, c, e);
    assert words[..1][0] == word1;
    ghost var k := KeptIn(fm, e, precision);
    ghost var before := words[..precision];
    var round := ReadAt(reader, 1, m, c, k);
    IsRoundBit(m, c, k, round);
    if round == 1 {
      RoundUp(words, precision);
      ghost var rounded := words[..precision];
      SignFlip(rounded);
      if words[0] / SIGN != word1 / SIGN {
        words[0] := words[0] % SIGN;
        assert words[..precision] == rounded[0 := rounded[0] % SIGN];
      }
      NormalRounded(fm, sign, m, c, e, Be(rounded));
    } else {
      NormalTruncated(fm, sign, m, c, e);
    }
  }

  /** The bits of the words `WriteNormal` leaves. */
  function NormalBits(fm: Format, sign: nat, m: nat, c: nat, e: int): int
    requires fm.Valid() && e >= 1
  {
    var code := TruncatedCode(fm.FractionBits(), m, c, e) + RoundBit(fm.FractionBits(), m, c, e);
    if code < TopBit(fm.words) then sign * TopBit(fm.words) + code else 0
  }

  lemma BeOne(s: Bignum)
    requires |s| == 1
    ensures Be(s) == s[0]
  {
    assert s[..0] == [];
  }

  lemma IsRoundBit(m: nat, c: nat, k: nat, bit: nat)
    requires Top(m, c, k + 1) == Top(m, c, k) * Pow(2, 1) + bit && bit < Pow(2, 1)
    ensures bit <= 1 && Top(m, c, k + 1) % 2 == bit
  {
    assert Pow(2, 1) == 2;
  }

  lemma {:induction false} BeHead(s: Bignum)
    requires s != []
    ensures Be(s) == s[0] * Pow(RADIX, |s| - 1) + Be(s[1..])
  {
    var n := |s| - 1;
    if n == 0 {
      BeOne(s);
      assert Pow(RADIX, 0) == 1;
    } else {
      BeHead(s[..n]);
      assert s[..n][1..] == s[1..][..n - 1];
      PowStep(RADIX, n - 1);
      SumTimes(s[0] * Pow(RADIX, n - 1), Be(s[1..][..n - 1]), RADIX);
      MulRegroup(s[0], RADIX, Pow(RADIX, n - 1));
    }
  }

  /** The sign bit seen in the whole: reading it and clearing it. */
  lemma SignFlip(s: Bignum)
    requires s != []
    ensures TopBit(|s|) > 0 && Pow(RADIX, |s|) == 2 * TopBit(|s|)
    ensures Be(s) / TopBit(|s|) == s[0] / SIGN
    ensures Be(s[0 := s[0] % SIGN]) == Be(s) % TopBit(|s|)
  {
    hide Be, Pow, TopBit;
    var n := |s| - 1;
    var r := Pow(RADIX, n);
    TopBitPlace(|s|);
    BeHead(s);
    BeHead(s[0 := s[0] % SIGN]);
    assert s[0 := s[0] % SIGN][1..] == s[1..];
    BeBound(s[1..]);
    var q, x := s[0] / SIGN, s[0] % SIGN;
    SumTimes(q * SIGN, x, r);
    MulRegroup(q, SIGN, r);
    SumTimes(x, 1, r);
    MulMonotone(r, x + 1, SIGN);
    DivModUnique(Be(s), TopBit(|s|), q, x * r + Be(s[1..]));
  }

  lemma TopBitPlace(n: nat)
    requires n > 0
    ensures TopBit(n) == SIGN * Pow(RADIX, n - 1) && TopBit(n) > 0 && Pow(RADIX, n) == 2 * TopBit(n)
  {
    SmallTopBit();
    RadixPower(n - 1);
    PowAdd(2, 15, BITS * (n - 1));
    PowPositive(RADIX, n - 1);
    PowStep(RADIX, n - 1);
  }

  lemma NormalBelowSign(fm: Format, m: nat, c: nat, e: int)
    requires fm.Valid() && HasBits(m, c) && 1 <= e <= fm.MaxExponent()
    ensures TruncatedCode(fm.FractionBits(), m, c, e) < TopBit(fm.words)
    ensures forall sign :: 0 <= sign && KeptIn(fm, e, fm.words) >= 0 ==>
      Partial(fm, sign, m, c, e, fm.words) == sign * TopBit(fm.words) + TruncatedCode(fm.FractionBits(), m, c, e)
  {
    hide Pow, Top, HasBits;
    var f := fm.FractionBits();
    Significand(f, m, c, e);
    PowPositive(2, f);
    PowAdd(2, fm.exponentBits, f);
    MulMonotone(Pow(2, f), e + 1, Pow(2, fm.exponentBits));
    SumTimes(e - 1, 2, Pow(2, f));
  }

  lemma NormalTruncated(fm: Format, sign: nat, m: nat, c: nat, e: int)
    requires fm.Valid() && HasBits(m, c) && 1 <= e <= fm.MaxExponent()
    requires RoundBit(fm.FractionBits(), m, c, e) == 0
    ensures KeptIn(fm, e, fm.words) >= 0 && Partial(fm, sign, m, c, e, fm.words) == NormalBits(fm, sign, m, c, e)
  {
    hide Pow, Top, HasBits, TruncatedCode, RoundBit, Partial;
    NormalBelowSign(fm, m, c, e);
  }

  lemma NormalRounded(fm: Format, sign: nat, m: nat, c: nat, e: int, rounded: nat)
    requires fm.Valid() && HasBits(m, c) && 1 <= e <= fm.MaxExponent() && sign <= 1
    requires RoundBit(fm.FractionBits(), m, c, e) == 1
    requires KeptIn(fm, e, fm.words) >= 0 && TopBit(fm.words) > 0
    requires rounded == (Partial(fm, sign, m, c, e, fm.words) + 1) % (2 * TopBit(fm.words))
    ensures NormalBits(fm, sign, m, c, e)
         == if rounded / TopBit(fm.words) != sign then rounded % TopBit(fm.words) else rounded
  {
    hide Pow, Top, HasBits, TruncatedCode, RoundBit, Partial, TopBit;
    NormalBelowSign(fm, m, c, e);
    RoundedCarry(sign, TopBit(fm.words), TruncatedCode(fm.FractionBits(), m, c, e), rounded);
  }

  lemma RoundedCarry(sign: nat, t: nat, w: nat, b: nat)
    requires sign <= 1 && w < t && b == (sign * t + w + 1) % (2 * t)
    ensures w + 1 < t ==> b == sign * t + w + 1 && b / t == sign
    ensures w + 1 == t ==> b / t != sign && b % t == 0
  {
    if w + 1 < t {
      DivModUnique(sign * t + w + 1, 2 * t, 0, sign * t + w + 1);
      DivModUnique(b, t, sign, w + 1);
    } else if sign == 0 {
      DivModUnique(t, 2 * t, 0, t);
      DivModUnique(b, t, 1, 0);
    } else {
      DivModUnique(2 * t, 2 * t, 1, 0);
      DivModUnique(b, t, 0, 0);
    }
  }

  /** Infinity, with the sign bit for a negative number. */
  method WriteInfinity(words: array<Littlenum>, precision: nat, sign: nat, ghost fm: Format)
    requires fm.Valid() && fm.words == precision && 6 <= words.Length && sign <= 1
    modifies words
    ensures Be(words[..precision]) == sign * TopBit(precision) + Infinity(fm)
  {
    if precision == 2 {
      words[0], words[1] := 0x7f80, 0;
    } else {
      words[0], words[1], words[2], words[3] := 0x7ff0, 0, 0, 0;
    }
    if sign == 1 {
      words[0] := words[0] + SIGN;
    }
    InfinityWords(fm, sign, words[..precision]);
  }

  lemma InfinityWords(fm: Format, sign: nat, s: Bignum)
    requires fm.Valid() && |s| == fm.words && sign <= 1
    requires s[0] == (if fm.words == 2 then 0x7f80 else 0x7ff0) + sign * SIGN
    requires forall i :: 1 <= i < |s| ==> s[i] == 0
    ensures Be(s) == sign * TopBit(fm.words) + Infinity(fm)
  {
    hide Pow, Format.MaxExponent;
    var n := fm.words - 1;
    BeHead(s);
    BeZeros(s[1..]);
    TopBitPlace(fm.words);
    MaxExponentLarge(fm);
    RadixPower(n);
    var low := BITS - 1 - fm.exponentBits;
    PowAdd(2, low, BITS * n);
    assert Pow(2, low) == (if fm.words == 2 then 0x80 else 0x10) by { LowBits(); }
    MulRegroup(fm.MaxExponent(), Pow(2, low), Pow(2, BITS * n));
    SumTimes(sign * SIGN, fm.MaxExponent() * Pow(2, low), Pow(RADIX, n));
    MulRegroup(sign, SIGN, Pow(RADIX, n));
  }

  lemma LowBits()
    ensures Pow(2, 7) == 0x80 && Pow(2, 4) == 0x10
  {
  }

  lemma {:induction false} BeZeros(s: Bignum)
    requires AllZero(s)
    ensures Be(s) == 0
  {
    if s != [] {
      BeZeros(s[..|s| - 1]);
    }
  }

  /** The magnitude bits the subnormal branch leaves. Far below the smallest
      subnormal it gives up with infinity; and when just sixteen bits are kept,
      rounding up does not carry out of the last word. */
  function DenormalCode(fm: Format, m: nat, c: nat, e: int): int
    requires fm.Valid() && e <= 0
  {
    var k := fm.FractionBits() + e;
    if -e >= 16 * fm.words + 14 - 2 * fm.exponentBits then Infinity(fm)
    else if k < 0 then 0
    else
      var rounded := Top(m, c, k) + Top(m, c, k + 1) % 2;
      if k <= BITS then rounded % RADIX else rounded
  }

  /** A number below the smallest normal one; the reader is at its leading bit. */
  method WriteDenormal(reader: Reader, words: array<Littlenum>, precision: nat, exponentBits: nat, e: int, sign: nat,
                       ghost fm: Format, ghost m: nat, ghost c: nat)
    requires fm.Valid() && fm.words == precision && fm.exponentBits == exponentBits
    requires 6 <= words.Length && words != reader.low && sign <= 1
    requires -62 <= e <= 0 && m < Pow(2, c) && At(reader, m, c, 0)
    modifies reader, words
    ensures Be(words[..precision]) == sign * TopBit(precision) + DenormalCode(fm, m, c, e)
  {
    hide At, Be, Partial, Pow, Top, Below, Reader.Rest, Reader.Unread, Reader.Valid, DenormalCode, TopBit, Infinity;
    var numBits := -e;
    var precBits := BITS * precision - (exponentBits + 1 + numBits);
    if numBits >= BITS - exponentBits && numBits - (BITS - 1 - exponentBits) + exponentBits + 1 >= precision * BITS {
      WriteInfinity(words, precision, sign, fm);
      DenormalInfinite(fm, m, c, e);
      return;
    }
    var lp := StartDenormal(reader, words, precision, exponentBits, numBits, sign, fm, m, c, e);
    if lp <= precision {
      FillWords(reader, words, lp, precision, fm, sign, m, c, e);
      lp := precision;
    }
    ghost var k := KeptIn(fm, e, lp);
    ghost var was := words[..precision];
    var round := ReadAt(reader, 1, m, c, k);
    IsRoundBit(m, c, k, round);
    if lp > precision {
      NothingKept(fm, m, c, e);
    } else {
      DenormalRounded(fm, sign, m, c, e, was, round);
    }
    if round == 1 {
      lp := lp - 1;
      if precBits > BITS {
        RoundUp(words, precision);
      } else {
        words[lp] := (words[lp] as int + 1) % RADIX;
        assert words[..precision] ==
          if lp < precision then was[lp := (was[lp] as int + 1) % RADIX] else was;
      }
    }
  }

  /** The words up to and including the one the leading bit falls in. */
  method StartDenormal(reader: Reader, words: array<Littlenum>, precision: nat, exponentBits: nat, numBits0: int,
                       sign: nat,
                       ghost fm: Format, ghost m: nat, ghost c: nat, ghost e: int) returns (lp: nat)
    requires fm.Valid() && fm.words == precision && fm.exponentBits == exponentBits
    requires 6 <= words.Length && words != reader.low && sign <= 1
    requires numBits0 == -e && -62 <= e <= 0 && m < Pow(2, c) && At(reader, m, c, 0)
    requires numBits0 + 2 * exponentBits - 14 < BITS * precision
    modifies reader, words
    ensures 0 < lp <= precision + 1
    ensures KeptIn(fm, e, lp) >= 0 && At(reader, m, c, KeptIn(fm, e, lp))
    ensures if lp <= precision then Be(words[..lp]) == Partial(fm, sign, m, c, e, lp)
            else KeptIn(fm, e, precision) < 0 && Be(words[..precision]) == sign * TopBit(precision)
  {
    hide At, Be, Partial, Pow, Top, Below, Reader.Rest, Reader.Unread, Reader.Valid, TopBit;
    var numBits := numBits0;
    if numBits >= BITS - exponentBits {
      numBits := numBits - (BITS - 1 - exponentBits);
      words[0] := sign * SIGN;
      SignWord(words[..1], sign);
      lp, numBits := SkipWords(words, numBits, precision, fm, sign, e);
      ghost var before := words[..lp];
      if numBits != 0 {
        var word := ReadAt(reader, BITS - numBits, m, c, 0);
        WordFits(BITS - numBits);
        words[lp] := word;
        FirstDenormalWord(fm, sign, m, c, e, before, word);
        lp := lp + 1;
        assert words[..lp] == before + [word];
      } else {
        NoBitsYet(fm, sign, m, c, e, lp);
      }
    } else {
      var word := ReadAt(reader, BITS - 1 - (exponentBits + numBits), m, c, 0);
      MaskedWord(fm, sign, m, c, e, word);
      words[0] := sign * SIGN + word;
      BeOne(words[..1]);
      lp := 1;
    }
  }

  /** Zero words until fewer than sixteen bits are left to skip. */
  method SkipWords(words: array<Littlenum>, numBits0: int, precision: nat, ghost fm: Format, ghost sign: nat,
                   ghost e: int)
    returns (lp: nat, numBits: int)
    requires fm.Valid() && fm.words == precision && 6 <= words.Length && e <= 0
    requires numBits0 == -KeptIn(fm, e, 1) && 0 <= numBits0 && numBits0 + fm.exponentBits + 1 < BITS * precision
    requires Be(words[..1]) == sign * TopBit(1)
    modifies words
    ensures 0 < lp <= precision && 0 <= numBits < BITS && numBits == -KeptIn(fm, e, lp)
    ensures Be(words[..lp]) == sign * TopBit(lp)
  {
    hide Be, TopBit;
    lp, numBits := 1, numBits0;
    while numBits >= BITS
      invariant 0 < lp <= precision && 0 <= numBits == -KeptIn(fm, e, lp)
      invariant numBits + fm.exponentBits + 1 < BITS * (precision - lp + 1)
      invariant Be(words[..lp]) == sign * TopBit(lp)
    {
      ghost var before := words[..lp];
      numBits := numBits - BITS;
      words[lp] := 0;
      BeSnoc(before, 0);
      NextTopBit(sign, lp);
      lp := lp + 1;
      assert words[..lp] == before + [0];
    }
  }

  lemma NextTopBit(sign: nat, n: nat)
    requires n > 0
    ensures sign * TopBit(n + 1) == sign * TopBit(n) * RADIX
  {
    TwoToBits();
    PowAdd(2, BITS * n - 1, BITS);
    MulRegroup(sign, TopBit(n), RADIX);
  }

  lemma SignWord(s: Bignum, sign: nat)
    requires |s| == 1 && s[0] == sign * SIGN
    ensures Be(s) == sign * TopBit(1)
  {
    BeOne(s);
    SmallTopBit();
  }

  lemma WordFits(n: nat)
    requires n <= BITS
    ensures Pow(2, n) <= RADIX
  {
    TwoToBits();
    PowMonotone(2, n, BITS);
  }

  lemma FirstDenormalWord(fm: Format, sign: nat, m: nat, c: nat, e: int, before: Bignum, word: Littlenum)
    requires fm.Valid() && e <= 0 && m < Pow(2, c) && before != []
    requires Be(before) == sign * TopBit(|before|)
    requires 0 <= KeptIn(fm, e, |before| + 1)
    requires Top(m, c, KeptIn(fm, e, |before| + 1)) == Top(m, c, 0) * Pow(2, KeptIn(fm, e, |before| + 1)) + word
    ensures Be(before + [word]) == Partial(fm, sign, m, c, e, |before| + 1)
  {
    hide Be, Top, Pow, TopBit;
    ReadNothing(m, c);
    BeSnoc(before, word);
    NextTopBit(sign, |before|);
  }

  lemma NoBitsYet(fm: Format, sign: nat, m: nat, c: nat, e: int, lp: nat)
    requires fm.Valid() && e <= 0 && m < Pow(2, c) && lp > 0 && KeptIn(fm, e, lp) == 0
    ensures Partial(fm, sign, m, c, e, lp) == sign * TopBit(lp)
  {
    hide Top, Pow, TopBit;
    ReadNothing(m, c);
  }

  lemma MaskedWord(fm: Format, sign: nat, m: nat, c: nat, e: int, word: nat)
    requires fm.Valid() && e <= 0 && m < Pow(2, c) && KeptIn(fm, e, 1) >= 0 && sign <= 1
    requires word < Pow(2, KeptIn(fm, e, 1))
    requires Top(m, c, KeptIn(fm, e, 1)) == Top(m, c, 0) * Pow(2, KeptIn(fm, e, 1)) + word
    ensures sign * SIGN + word < RADIX && Partial(fm, sign, m, c, e, 1) == sign * SIGN + word
  {
    hide Top, Pow, TopBit;
    ReadNothing(m, c);
    SmallTopBit();
    PowMonotone(2, KeptIn(fm, e, 1), 15);
  }

  lemma DenormalInfinite(fm: Format, m: nat, c: nat, e: int)
    requires fm.Valid() && e <= 0 && -e >= 16 * fm.words + 14 - 2 * fm.exponentBits
    ensures DenormalCode(fm, m, c, e) == Infinity(fm)
  {
  }

  lemma NothingKept(fm: Format, m: nat, c: nat, e: int)
    requires fm.Valid() && -e < 16 * fm.words + 14 - 2 * fm.exponentBits && KeptIn(fm, e, fm.words) < 0
    ensures e <= 0 && DenormalCode(fm, m, c, e) == 0
  {
    hide Infinity;
  }

  /** Rounding the kept bits, by a ripple through all words or on the last. */
  lemma DenormalRounded(fm: Format, sign: nat, m: nat, c: nat, e: int, was: Bignum, round: nat)
    requires fm.Valid() && e <= 0 && m < Pow(2, c) && sign <= 1 && |was| == fm.words
    requires -e < 16 * fm.words + 14 - 2 * fm.exponentBits && KeptIn(fm, e, fm.words) >= 0
    requires Be(was) == Partial(fm, sign, m, c, e, fm.words)
    requires round <= 1 && Top(m, c, KeptIn(fm, e, fm.words) + 1) % 2 == round
    ensures Pow(RADIX, |was|) > 0
    ensures var code := sign * TopBit(fm.words) + DenormalCode(fm, m, c, e);
      if round == 0 then Be(was) == code
      else if KeptIn(fm, e, fm.words) > BITS then (Be(was) + 1) % Pow(RADIX, |was|) == code
      else Be(was[|was| - 1 := (was[|was| - 1] as int + 1) % RADIX]) == code
  {
    hide Be, Top, Pow, TopBit, Infinity;
    var k, n := KeptIn(fm, e, fm.words), fm.words;
    TopFits(m, c, k);
    TopBitPlace(n);
    PowMonotone(2, k, BITS * n - 2);
    TopBitHalf(n);
    if k > BITS {
      DivModUnique(Be(was) + round, Pow(RADIX, n), 0, Be(was) + round);
    } else {
      WordFits(k);
      LastWord(was, sign, Top(m, c, k));
      if round == 0 {
        DivModUnique(Top(m, c, k), RADIX, 0, Top(m, c, k));
      }
    }
  }

  lemma TopBitHalf(n: nat)
    requires n > 0
    ensures TopBit(n) == 2 * Pow(2, BITS * n - 2)
  {
    PowStep(2, BITS * n - 2);
  }

  /** Adding to the last word only. */
  lemma LastWord(s: Bignum, sign: nat, low: nat)
    requires |s| >= 2 && low < RADIX && Be(s) == sign * TopBit(|s|) + low
    ensures Be(s[|s| - 1 := (s[|s| - 1] as int + 1) % RADIX]) == sign * TopBit(|s|) + (low + 1) % RADIX
  {
    hide Pow, TopBit;
    var n := |s| - 1;
    NextTopBit(sign, n);
    DivModUnique(Be(s), RADIX, sign * TopBit(n), low);
    DivModUnique(Be(s), RADIX, Be(s[..n]), s[n]);
    var s' := s[n := (s[n] as int + 1) % RADIX];
    assert s'[..n] == s[..n];
  }

  /** `exponent_4` of a number whose mantissa has c bits. */
  function BiasedExponent(fm: Format, c: nat, exponent: int): int
    requires fm.Valid()
  {
    BITS * exponent + c + Pow(2, fm.exponentBits - 1) - 2
  }

  /** The bits left for a number m * RADIX^exponent whose mantissa m has c bits.
      The subnormal branch gives the leading bit back to the reader; when it was
      the last bit of all, the reader ends up on `above`, the littlenum over the
      one it came from. */
  function WordBits(fm: Format, sign: nat, m: nat, c: nat, e: int, above: Littlenum): int
    requires fm.Valid()
  {
    if -62 <= e < 1 then
      sign * TopBit(fm.words) + (if c > 1 then DenormalCode(fm, m, c, e) else DenormalCode(fm, above % 2, 1, e))
    else if e < 0 || e > fm.MaxExponent() then sign * TopBit(fm.words) + Infinity(fm)
    else NormalBits(fm, sign, m, c, e)
  }

  /** The search for the first significant bit would not end on littlenums that
      are all zero. */
  method ToWords(g: Flonum, words: array<Littlenum>, precision: nat, exponentBits: nat, ghost fm: Format)
    returns (hangs: bool, ghost c: nat)
    requires g.Valid() && g.sign in "+-\0PN" && 2 <= g.low.Length
    requires fm.Valid() && fm.words == precision && fm.exponentBits == exponentBits
    requires 6 <= words.Length && words != g.low
    modifies words
    ensures hangs <==> g.leader >= 0 && g.Signed() && g.Mantissa() == 0
    ensures hangs ==> words[..] == old(words[..])
    ensures !hangs ==>
      if g.leader < 0 then
        Be(words[..precision]) == if g.sign == '+' then 0 else TopBit(precision)
      else if g.sign == '\0' then Be(words[..precision]) == TopBit(precision) - 1
      else if g.sign == 'P' then Be(words[..precision]) == Infinity(fm)
      else if g.sign == 'N' then Be(words[..precision]) == TopBit(precision) + Infinity(fm)
      else
        && HasBits(g.Mantissa(), c)
        && Be(words[..precision]) == WordBits(fm, if g.sign == '+' then 0 else 1, g.Mantissa(), c,
                                              BiasedExponent(fm, c, g.exponent), g.low[1])
  {
    hide Be, Pow, HasBits, TopBit, Infinity, WordBits, Val;
    hangs, c := false, 0;
    if g.leader < 0 {
      words[0] := if g.sign == '+' then 0 else SIGN;
      ClearWords(words, precision);
      ZeroWords(words[..precision], if g.sign == '+' then 0 else 1);
    } else if g.sign == '\0' {
      words[0], words[1] := 0x7fff, 0xffff;
      if precision != 2 {
        words[2], words[3] := 0xffff, 0xffff;
      }
      NanWords(words[..precision]);
    } else if g.sign == 'P' || g.sign == 'N' {
      WriteInfinity(words, precision, if g.sign == 'P' then 0 else 1, fm);
    } else if g.Mantissa() == 0 {
      hangs := true;
    } else {
      c := FiniteToWords(g, words, precision, exponentBits, fm);
    }
  }

  /** A finite number other than zero. */
  method FiniteToWords(g: Flonum, words: array<Littlenum>, precision: nat, exponentBits: nat, ghost fm: Format)
    returns (ghost c: nat)
    requires g.Valid() && g.Signed() && g.leader >= 0 && g.Mantissa() > 0 && 2 <= g.low.Length
    requires fm.Valid() && fm.words == precision && fm.exponentBits == exponentBits
    requires 6 <= words.Length && words != g.low
    modifies words
    ensures HasBits(g.Mantissa(), c)
    ensures Be(words[..precision]) == WordBits(fm, if g.sign == '+' then 0 else 1, g.Mantissa(), c,
                                               BiasedExponent(fm, c, g.exponent), g.low[1])
  {
    hide Be, Pow, Top, Below, Reader.Rest, Reader.Unread, Reader.Valid, At, HasBits, Format.MaxExponent,
         TopBit, Infinity, DenormalCode, NormalBits, Val, RestAt, UnreadAt;
    var sign: nat := if g.sign == '+' then 0 else 1;
    ghost var m := g.Mantissa();
    var reader, skippage;
    ghost var found;
    reader, skippage, c, found := SeekFirstBit(g);
    var exponent1 := g.exponent + g.leader + 1;
    var exponent2 := exponent1 * BITS;
    var exponent3 := exponent2 - skippage;
    var exponent4 := exponent3 + (Pow(2, exponentBits - 1) - 2);
    AllOnes(fm);
    if exponent4 < 1 && exponent4 >= -62 {
      GiveBack(reader, g, c, found);
      ghost var ahead, left := if c > 1 then m else g.low[1] as int % 2, if c > 1 then c else 1;
      WriteDenormal(reader, words, precision, exponentBits, exponent4, sign, fm, ahead, left);
    } else if exponent4 < 0 || exponent4 >= Pow(2, exponentBits) {
      WriteInfinity(words, precision, sign, fm);
    } else {
      WriteNormal(reader, words, precision, exponentBits, exponent4, sign, fm, m, c);
    }
  }

  /** Gives back the bit that was taken last. */
  method GiveBack(reader: Reader, ghost g: Flonum, ghost c: nat, ghost found: State)
    requires g.Valid() && reader.low == g.low && 2 <= g.low.Length
    requires HasBits(g.Mantissa(), c) && At(reader, g.Mantissa(), c, 1)
    requires InRange(found, g.low.Length) && found.littlenumsLeft == found.pointer + 1 > 0
    requires UnreadAt(found) == c && RestAt(g.low[..], found) == g.Mantissa()
    requires reader.Current() == AfterNext(found, 1)
    modifies reader
    ensures if c > 1 then At(reader, g.Mantissa(), c, 0) && g.Mantissa() < Pow(2, c)
            else At(reader, g.low[1] % 2, 1, 0) && g.low[1] % 2 < Pow(2, 1)
  {
    hide Pow, Below, RestAt, HasBits, Val, Mask;
    reader.UngetBits(1);
    Ungot(g, c, found, reader);
  }

  lemma AllOnes(fm: Format)
    ensures fm.MaxExponent() == Pow(2, fm.exponentBits) - 1
  {
  }

  /** Seek (and forget) the first significant bit: there is one, so the search
      ends. `found` is where the reader was before it took that bit. */
  method SeekFirstBit(g: Flonum) returns (reader: Reader, skippage: nat, ghost c: nat, ghost found: State)
    requires g.Valid() && g.leader >= 0 && g.Mantissa() > 0
    ensures fresh(reader) && reader.low == g.low
    ensures HasBits(g.Mantissa(), c) && c + skippage == BITS * (g.leader + 1)
    ensures At(reader, g.Mantissa(), c, 1)
    ensures InRange(found, g.low.Length) && found.littlenumsLeft == found.pointer + 1 > 0
    ensures UnreadAt(found) == c && RestAt(g.low[..], found) == g.Mantissa()
    ensures reader.Current() == AfterNext(found, 1)
  {
    hide Pow, Top, Below, Val, HasBits, RestAt;
    ghost var m := g.Mantissa();
    reader := new Reader(g.low, g.leader);
    skippage := 0;
    c := BITS * (g.leader + 1);
    MantissaFits(g.low[..g.leader + 1]);
    FromTheTop(m, c);
    found := reader.Current();
    var bit := ReadAt(reader, 1, m, c, 0);
    SeekStep(m, c, bit);
    while bit == 0
      invariant fresh(reader) && reader.low == g.low && bit <= 1
      invariant m < Pow(2, c) && c + skippage == BITS * (g.leader + 1)
      invariant At(reader, m, c, 1) && c > 0
      invariant if bit == 1 then HasBits(m, c) else m < Pow(2, c - 1)
      invariant InRange(found, g.low.Length) && found.littlenumsLeft == found.pointer + 1 > 0
      invariant UnreadAt(found) == c && RestAt(g.low[..], found) == m
      invariant reader.Current() == AfterNext(found, 1)
      decreases c
    {
      c := c - 1;
      skippage := skippage + 1;
      OneDown(m, c);
      FromTheTop(m, c);
      found := reader.Current();
      bit := ReadAt(reader, 1, m, c, 0);
      SeekStep(m, c, bit);
    }
  }

  lemma MantissaFits(s: Bignum)
    ensures Val(s) < Pow(2, BITS * |s|)
  {
    ValBound(s);
    RadixPower(|s|);
  }

  lemma FromTheTop(m: nat, c: nat)
    ensures m < Pow(2, c) ==> Below(m, c, 0) == m
  {
    PowPositive(2, c);
    if m < Pow(2, c) {
      DivModUnique(m, Pow(2, c), 0, m);
    }
  }

  lemma SeekStep(m: nat, c: nat, bit: nat)
    requires 0 < m < Pow(2, c)
    requires bit < Pow(2, 1) && Top(m, c, 1) == Top(m, c, 0) * Pow(2, 1) + bit
    ensures c > 0 && bit <= 1
    ensures if bit == 1 then HasBits(m, c) else m < Pow(2, c - 1)
  {
    assert Pow(2, 0) == 1 && Pow(2, 1) == 2;
    ReadNothing(m, c);
    PowPositive(2, c - 1);
    FloorBrackets(m, Pow(2, c - 1));
  }

  /** Past a zero bit the rest is the whole mantissa, one bit shorter. */
  lemma OneDown(m: nat, c: nat)
    requires m < Pow(2, c)
    ensures Below(m, c + 1, 1) == m
  {
    FromTheTop(m, c);
  }

  /** The bit given back: all of the mantissa is ahead again, unless it was its
      last bit. */
  lemma Ungot(g: Flonum, c: nat, found: State, reader: Reader)
    requires g.Valid() && reader.low == g.low && 2 <= g.low.Length
    requires HasBits(g.Mantissa(), c)
    requires InRange(found, g.low.Length) && found.littlenumsLeft == found.pointer + 1 > 0
    requires UnreadAt(found) == c && RestAt(g.low[..], found) == g.Mantissa()
    requires reader.Current() == AfterUnget(AfterNext(found, 1), 1) && reader.Valid()
    ensures if c > 1 then At(reader, g.Mantissa(), c, 0) && g.Mantissa() < Pow(2, c)
            else At(reader, g.low[1] % 2, 1, 0) && g.low[1] % 2 < Pow(2, 1)
  {
    hide Pow, Val, RestAt, Below, HasBits;
    UngetRestoresIff(found, 1);
    if c > 1 {
      BitsFit(g.Mantissa(), c);
    } else {
      assert reader.Current() == State(1, 1, 1);
      OneBitAbove(g.low[..]);
    }
  }

  lemma BitsFit(m: nat, c: nat)
    requires HasBits(m, c)
    ensures m < Pow(2, c) && Below(m, c, 0) == m
  {
    FromTheTop(m, c);
  }

  lemma OneBitAbove(low: Bignum)
    requires |low| >= 2
    ensures low[1] % 2 < Pow(2, 1)
    ensures RestAt(low, State(1, 1, 1)) == Below(low[1] % 2, 1, 0)
  {
    assert Pow(2, 1) == 2 && Pow(RADIX, 0) == 1;
    FromTheTop(low[1] % 2, 1);
    ValZero([]);
    assert low[1..1] == [];
  }

  method ClearWords(words: array<Littlenum>, precision: nat)
    requires 1 <= precision <= words.Length
    modifies words
    ensures words[0] == old(words[0]) && forall i :: 1 <= i < precision ==> words[i] == 0
  {
    var i := 1;
    while i < precision
      invariant 1 <= i <= precision && words[0] == old(words[0])
      invariant forall j :: 1 <= j < i ==> words[j] == 0
    {
      words[i] := 0;
      i := i + 1;
    }
  }

  lemma ZeroWords(s: Bignum, sign: nat)
    requires s != [] && s[0] == sign * SIGN && forall i :: 1 <= i < |s| ==> s[i] == 0
    ensures Be(s) == sign * TopBit(|s|)
  {
    hide Be, Pow, TopBit;
    BeHead(s);
    BeZeros(s[1..]);
    TopBitPlace(|s|);
    MulRegroup(sign, SIGN, Pow(RADIX, |s| - 1));
  }

  lemma NanWords(s: Bignum)
    requires s != [] && s[0] == 0x7fff && forall i :: 1 <= i < |s| ==> s[i] == 0xffff
    ensures Be(s) == TopBit(|s|) - 1
  {
    hide Be, Pow, TopBit;
    BeHead(s);
    BeOnes(s[1..]);
    TopBitPlace(|s|);
    SumTimes(SIGN, -1, Pow(RADIX, |s| - 1));
  }

  lemma {:induction false} BeOnes(s: Bignum)
    requires forall i :: 0 <= i < |s| ==> s[i] == 0xffff
    ensures Be(s) == Pow(RADIX, |s|) - 1
  {
    if s != [] {
      BeOnes(s[..|s| - 1]);
    }
  }
}
