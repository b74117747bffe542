/** The array sized from the base-2 logarithm of ten has room for any decimal
    number of that many digits, however long a C int lets it be. */
module DigitRoom {
  import opened Arithmetic
  import opened Littlenum

  const LOG_TO_BASE_2_OF_10: real := 3.3219280948873623478703194294893901758651

  /** `more_than_enough_bits_for_digits`. */
  function EnoughBits(digits: nat): int {
    (digits as real * LOG_TO_BASE_2_OF_10 + 1.0).Floor
  }

  /** `more_than_enough_littlenums_for_digits`. */
  function EnoughLittlenums(digits: nat): int {
    EnoughBits(digits) / BITS + 2
  }

  /** Any number of n decimal digits fits, as long as the bit count is an int. */
  lemma RoomForDigits(n: nat)
    requires EnoughBits(n) < 0x8000_0000
    ensures EnoughLittlenums(n) >= 2
    ensures Pow(10, n) <= Pow(RADIX, EnoughLittlenums(n))
  {
    hide Pow;
    var m := BITS * EnoughLittlenums(n);
    assert n as real * LOG_TO_BASE_2_OF_10 + 1.0 < EnoughBits(n) as real + 1.0;
    assert m >= EnoughBits(n) + 17;
    assert n <= 650_000_000;
    assert n as real * 28738.0 <= m as real * 8651.0;
    assert n * 28738 <= m * 8651;
    TenBelowTwo(n, m);
    PowMul(2, BITS, EnoughLittlenums(n));
    SmallPowers();
  }

  /** 28738 / 8651 is just above the logarithm: 10^8651 <= 2^28738. */
  lemma TenBelowTwo(n: nat, m: nat)
    requires n * 28738 <= m * 8651
    ensures Pow(10, n) <= Pow(2, m)
  {
    hide Pow;
    if Pow(10, n) > Pow(2, m) {
      PowStrict(Pow(2, m), Pow(10, n), 8651);
      PowMul(2, m, 8651);
      PowMul(10, n, 8651);
      PowMul(10, 8651, n);
      LogBound();
      PowBaseMonotone(Pow(10, 8651), Pow(2, 28738), n);
      PowMul(2, 28738, n);
      PowMonotone(2, 28738 * n, m * 8651);
    }
  }

  lemma {:induction false} PowStrict(a: nat, b: nat, n: nat)
    requires a < b && n > 0
    ensures Pow(a, n) < Pow(b, n)
  {
    PowBaseMonotone(a, b, n - 1);
    PowPositive(b, n - 1);
    MulMonotone(a, Pow(a, n - 1), Pow(b, n - 1));
    MulStrict(Pow(b, n - 1), a, b);
  }

  ghost predicate Below(k: nat, m: nat, e: nat) {
    Pow(5, k) <= m * Pow(2, e)
  }

  /** From 5^k to 5^(2k) or 5^(2k+1), rounding the mantissa up by s bits. */
  lemma Square(k: nat, m: nat, e: nat, odd: nat, s: nat, m': nat)
    requires Below(k, m, e) && odd <= 1
    requires (if odd == 1 then 5 * (m * m) else m * m) <= m' * Pow(2, s)
    ensures Below(2 * k + odd, m', 2 * e + s)
  {
    hide Pow;
    SmallPowers();
    PowAdd(5, k, k);
    PowAdd(5, 2 * k, odd);
    PowAdd(2, e, e);
    PowAdd(2, 2 * e, s);
    SquareBound(Pow(5, k), m, Pow(2, e), if odd == 1 then 5 else 1, m', Pow(2, s));
  }

  lemma SquareBound(x: nat, m: nat, p: nat, o: nat, m': nat, w: nat)
    requires x <= m * p && o * (m * m) <= m' * w
    ensures (x * x) * o <= m' * ((p * p) * w)
  {
    SquareMonotone(x, m * p);
    MulSwap(m, p, m, p);
    MulMonotone(o, x * x, (m * m) * (p * p));
    MulRegroup(o, m * m, p * p);
    MulMonotone(p * p, o * (m * m), m' * w);
    MulRegroup(m', w, p * p);
  }

  lemma SquareMonotone(x: nat, y: nat)
    requires x <= y
    ensures x * x <= y * y
  {
    MulMonotone(x, x, y);
    MulMonotone(y, x, y);
  }

  lemma SmallPowers()
    ensures Pow(5, 0) == 1 && Pow(5, 1) == 5
    ensures Pow(2, 0) == 1 && Pow(2, 16) == RADIX
  {
    assert Pow(2, 8) == 0x100;
    PowAdd(2, 8, 8);
  }

  lemma LargePowers()
    ensures Pow(2, 13) == 0x2000
    ensures Pow(2, 63) == 0x8000_0000_0000_0000
    ensures Pow(2, 64) == 0x1_0000_0000_0000_0000
    ensures Pow(2, 65) == 0x2_0000_0000_0000_0000
    ensures Pow(2, 66) == 0x4_0000_0000_0000_0000
    ensures Pow(2, 67) == 0x8_0000_0000_0000_0000
  {
    hide Pow;
    SmallPowers();
    TinyPowers();
    PowAdd(2, 8, 5);
    PowAdd(2, 16, 16);
    PowAdd(2, 32, 16);
    PowAdd(2, 8, 7);
    PowAdd(2, 48, 15);
    PowAdd(2, 63, 1);
    PowAdd(2, 63, 2);
    PowAdd(2, 63, 3);
    PowAdd(2, 63, 4);
  }

  lemma TinyPowers()
    ensures Pow(2, 1) == 2 && Pow(2, 2) == 4 && Pow(2, 3) == 8 && Pow(2, 4) == 16
    ensures Pow(2, 5) == 32 && Pow(2, 7) == 0x80 && Pow(2, 8) == 0x100
  {
  }

  lemma LogBound()
    ensures Pow(10, 8651) <= Pow(2, 28738)
  {
    hide Pow, Below;
    FiveBelow();
    assert Pow(5, 8651) <= Pow(2, 20087) by {
      BelowPower(8651, 18446090328642592708, 20023);
    }
    PowProduct(2, 5, 8651);
    PowAdd(2, 8651, 20087);
    MulMonotone(Pow(2, 8651), Pow(5, 8651), Pow(2, 20087));
  }

  lemma BelowPower(k: nat, m: nat, e: nat)
    requires Below(k, m, e) && m <= 0x1_0000_0000_0000_0000
    ensures Pow(5, k) <= Pow(2, e + 64)
  {
    hide Pow;
    LargePowers();
    PowAdd(2, e, 64);
    MulMonotone(Pow(2, e), m, Pow(2, 64));
  }

  lemma FiveBelow()
    ensures Below(8651, 18446090328642592708, 20023)
  {
    hide Pow, Below;
    SmallPowers();
    LargePowers();
    assert Below(1, 5, 0) by { BelowOne(); }
    Square(1, 5, 0, 0, 0, 25);
    Square(2, 25, 0, 0, 0, 625);
    Square(4, 625, 0, 0, 0, 390625);
    Square(8, 390625, 0, 0, 0, 152587890625);
    Square(16, 152587890625, 0, 1, 13, 14210854715202003718);
    Square(33, 14210854715202003718, 13, 1, 66, 13684555315672041710);
    Square(67, 13684555315672041710, 92, 1, 66, 12689709186578246120);
    Square(135, 12689709186578246120, 250, 0, 63, 17458768723248864474);
    Square(270, 17458768723248864474, 563, 0, 64, 16523707604655743407);
    Square(540, 16523707604655743407, 1190, 1, 67, 9250714919973558995);
    Square(1081, 9250714919973558995, 2447, 0, 63, 9278138861652515191);
    Square(2162, 9278138861652515191, 4957, 1, 65, 11666538603253302952);
    Square(4325, 11666538603253302952, 9979, 1, 65, 18446090328642592708);
  }

  lemma BelowOne()
    ensures Below(1, 5, 0)
  {
  }
}
