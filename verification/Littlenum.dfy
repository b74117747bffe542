/** Bignums as little-endian sequences of 16-bit littlenums. */
module Littlenum {
  import opened Arithmetic

  const BITS: nat := 16
  const RADIX: nat := 0x1_0000

  type Littlenum = n: int | 0 <= n < 0x1_0000

  type Bignum = seq<Littlenum>

  /** The number a bignum stands for. */
  function Val(s: Bignum): nat {
    if s == [] then 0
    else Val(s[..|s| - 1]) + s[|s| - 1] * Pow(RADIX, |s| - 1)
  }

  predicate AllZero(s: Bignum) {
    forall i :: 0 <= i < |s| ==> s[i] == 0
  }

  lemma AllZeroSnoc(s: Bignum, x: Littlenum)
    ensures AllZero(s + [x]) <==> AllZero(s) && x == 0
  {
    assert forall i :: 0 <= i < |s| ==> (s + [x])[i] == s[i];
    assert (s + [x])[|s|] == x;
  }

  lemma ValSnoc(s: Bignum, x: Littlenum)
    ensures Val(s + [x]) == Val(s) + x * Pow(RADIX, |s|)
  {
    assert (s + [x])[..|s|] == s;
  }

  lemma {:induction false} ValBound(s: Bignum)
    ensures Val(s) < Pow(RADIX, |s|)
  {
    if s != [] {
      var n := |s| - 1;
      ValBound(s[..n]);
      var top: int := s[n];
      MulMonotone(Pow(RADIX, n), top + 1, RADIX);
      MulDistributes(Pow(RADIX, n), top, 1);
    }
  }

  lemma {:induction false} ValAppend(s: Bignum, t: Bignum)
    ensures Val(s + t) == Val(s) + Pow(RADIX, |s|) * Val(t)
  {
    if t == [] {
      assert s + t == s;
    } else {
      var n := |t| - 1;
      assert s + t == (s + t[..n]) + [t[n]];
      ValSnoc(s + t[..n], t[n]);
      ValAppend(s, t[..n]);
      PowAdd(RADIX, |s|, n);
      MulRegroup(t[n], Pow(RADIX, |s|), Pow(RADIX, n));
      MulDistributes(Pow(RADIX, |s|), Val(t[..n]), t[n] * Pow(RADIX, n));
    }
  }

  /** Dropping the k low littlenums is floor division by RADIX^k. */
  lemma ValSplit(s: Bignum, k: nat)
    requires k <= |s|
    ensures Pow(RADIX, k) > 0
    ensures Val(s) / Pow(RADIX, k) == Val(s[k..])
    ensures Val(s) % Pow(RADIX, k) == Val(s[..k])
  {
    assert s == s[..k] + s[k..];
    ValAppend(s[..k], s[k..]);
    ValBound(s[..k]);
    PowPositive(RADIX, k);
    DivModUnique(Val(s), Pow(RADIX, k), Val(s[k..]), Val(s[..k]));
  }

  lemma {:induction false} ValZero(s: Bignum)
    ensures Val(s) == 0 <==> AllZero(s)
  {
    if s != [] {
      var n := |s| - 1;
      ValZero(s[..n]);
      PowPositive(RADIX, n);
      if s[n] > 0 {
        MulPositive(s[n], Pow(RADIX, n));
      } else {
        assert AllZero(s) <==> AllZero(s[..n]) by {
          if AllZero(s[..n]) {
            assert forall i :: 0 <= i < n ==> s[i] == s[..n][i];
          }
        }
      }
    }
  }

  /** A nonzero top littlenum puts the value at or above its place value. */
  lemma ValTop(s: Bignum)
    requires s != []
    ensures s[|s| - 1] != 0 <==> Val(s) >= Pow(RADIX, |s| - 1)
  {
    var n := |s| - 1;
    ValBound(s[..n]);
    if s[n] != 0 {
      MulMonotone(Pow(RADIX, n), 1, s[n]);
    }
  }
}
