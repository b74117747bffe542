/** The column sums of schoolbook multiplication and what they add up to. */
module Convolution {
  import opened Arithmetic
  import opened Littlenum

  /** b[k], read as 0 outside b. */
  function At(b: Bignum, k: int): nat {
    if 0 <= k < |b| then b[k] else 0
  }

  /** One entry of the multiplication table. */
  function Term(x: nat, y: nat): (r: nat)
    ensures y == 0 ==> r == 0
  {
    x * y
  }

  /** Column n of the product: the sum of a[i] * b[n - i]. */
  function Col(a: Bignum, b: Bignum, n: nat): nat {
    if a == [] then 0
    else Col(a[..|a| - 1], b, n) + Term(a[|a| - 1], At(b, n - (|a| - 1)))
  }

  /** The first n columns with their place values. */
  function Cols(a: Bignum, b: Bignum, n: nat): nat {
    if n == 0 then 0 else Cols(a, b, n - 1) + Col(a, b, n - 1) * Pow(RADIX, n - 1)
  }

  /** The first n columns of the one-row product of b moved up k places. */
  function Shifted(b: Bignum, k: nat, n: nat): nat {
    if n == 0 then 0 else Shifted(b, k, n - 1) + At(b, n - 1 - k) * Pow(RADIX, n - 1)
  }

  lemma ColStep(a: Bignum, b: Bignum, n: nat, j: nat)
    requires j < |a|
    ensures Col(a[..j + 1], b, n) == Col(a[..j], b, n) + Term(a[j], At(b, n - j))
  {
    assert a[..j + 1][..j] == a[..j];
  }

  /** Rows above the column contribute nothing to it. */
  lemma {:induction false} ColCut(a: Bignum, b: Bignum, n: nat, j: nat)
    requires n < j <= |a|
    ensures Col(a[..j], b, n) == Col(a[..n + 1], b, n)
  {
    if j > n + 1 {
      ColStep(a, b, n, j - 1);
      ColCut(a, b, n, j - 1);
    }
  }

  lemma {:induction false} ColBound(a: Bignum, b: Bignum, n: nat)
    ensures Col(a, b, n) <= |a| * 0xfffe_0001
  {
    if a != [] {
      ColBound(a[..|a| - 1], b, n);
      TermBound(a[|a| - 1], At(b, n - (|a| - 1)));
    }
  }

  lemma TermBound(x: nat, y: nat)
    requires x < RADIX && y < RADIX
    ensures Term(x, y) <= 0xfffe_0001
  {
    MulMonotone(x, y, 0xffff);
  }

  lemma {:induction false} ColsStep(a: Bignum, b: Bignum, n: nat)
    requires a != []
    ensures Cols(a, b, n) == Cols(a[..|a| - 1], b, n) + a[|a| - 1] * Shifted(b, |a| - 1, n)
  {
    if n > 0 {
      ColsStep(a, b, n - 1);
      var x, p := a[|a| - 1], Pow(RADIX, n - 1);
      var c, y := Col(a[..|a| - 1], b, n - 1), At(b, n - 1 - (|a| - 1));
      SumTimes(c, x * y, p);
      MulRegroup(x, y, p);
      MulDistributes(x, Shifted(b, |a| - 1, n - 1), y * p);
    }
  }

  lemma {:induction false} ShiftedValue(b: Bignum, k: nat, n: nat)
    ensures Shifted(b, k, n) == if n <= k then 0 else Pow(RADIX, k) * Val(b[..Min(n - k, |b|)])
  {
    if n > 0 {
      ShiftedValue(b, k, n - 1);
      var j := n - 1 - k;
      if 0 <= j < |b| {
        assert b[..j + 1] == b[..j] + [b[j]];
        ValSnoc(b[..j], b[j]);
        PowAdd(RADIX, k, j);
        MulRegroup(b[j], Pow(RADIX, k), Pow(RADIX, j));
        MulDistributes(Pow(RADIX, k), Val(b[..j]), b[j] * Pow(RADIX, j));
      }
    }
  }

  lemma {:induction false} ColsProduct(a: Bignum, b: Bignum, n: nat)
    requires a == [] || b == [] || |a| + |b| <= n + 1
    ensures Cols(a, b, n) == Val(a) * Val(b)
  {
    if a == [] {
      ColsOfZero(a, b, n);
    } else {
      var m := |a| - 1;
      ColsStep(a, b, n);
      ColsProduct(a[..m], b, n);
      ShiftedValue(b, m, n);
      assert Shifted(b, m, n) == Pow(RADIX, m) * Val(b) by {
        assert b[..|b|] == b;
      }
      MulRegroup(a[m], Pow(RADIX, m), Val(b));
      SumTimes(Val(a[..m]), a[m] * Pow(RADIX, m), Val(b));
    }
  }

  lemma {:induction false} ColsOfZero(a: Bignum, b: Bignum, n: nat)
    requires a == []
    ensures Cols(a, b, n) == 0
  {
    if n > 0 {
      ColsOfZero(a, b, n - 1);
    }
  }
}
