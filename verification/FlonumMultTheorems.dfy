/** What truncation keeps of a product. Throughout, t is the product of two
    mantissas, `columns` the index of its last column plus one, and `capacity`
    the number of littlenums of the destination. */
module FlonumMultTheorems {
  import opened Arithmetic
  import opened Littlenum
  import opened Convolution
  import opened FlonumMult

  lemma Divides(t: nat, j: nat, k: nat)
    requires j <= k && Pow(RADIX, k) > 0 && t % Pow(RADIX, k) == 0
    ensures Pow(RADIX, j) > 0 && t % Pow(RADIX, j) == 0
  {
    PowPositive(RADIX, j);
    PowPositive(RADIX, k - j);
    PowAdd(RADIX, j, k - j);
    DivDiv(t, Pow(RADIX, j), Pow(RADIX, k - j));
    var r := t / Pow(RADIX, j) % Pow(RADIX, k - j);
    assert r * Pow(RADIX, j) >= 0;
  }

  /** When there are more positions than columns nothing is lost. */
  lemma ExactWithRoom(t: nat, columns: nat, capacity: nat)
    requires columns < capacity
    ensures var p := Pow(RADIX, Truncation(t, columns, capacity));
      p > 0 && t / p * p == t
  {
    var p := Pow(RADIX, Truncation(t, columns, capacity));
    assert t % p == 0;
    assert t == p * (t / p) + t % p;
  }

  /** Exactly when the product is kept whole: the columns below the array are
      all zero, and the carry littlenum, if there is one, finds a free place. */
  lemma ExactIff(t: nat, columns: nat, capacity: nat)
    requires t < Pow(RADIX, columns + 1)
    ensures var k := Truncation(t, columns, capacity);
      var dropped := Max(0, columns - capacity);
      && Pow(RADIX, k) > 0 && Pow(RADIX, dropped) > 0
      && (t % Pow(RADIX, k) == 0 <==>
          && t % Pow(RADIX, dropped) == 0
          && (t < Pow(RADIX, columns) || TrailingZeros(t, columns) - dropped > columns - capacity))
  {
    var k := Truncation(t, columns, capacity);
    var dropped := Max(0, columns - capacity);
    var z := TrailingZeros(t, columns);
    PowPositive(RADIX, k);
    PowPositive(RADIX, dropped);
    if t % Pow(RADIX, k) == 0 {
      Divides(t, dropped, k);
    }
    if t % Pow(RADIX, dropped) == 0 {
      if z < dropped {
        Divides(t, z + 1, dropped);
      }
      assert z >= dropped;
      if k == z + 1 && z == columns {
        PowPositive(RADIX, columns);
        DivModUnique(t, Pow(RADIX, columns + 1), 0, t);
      }
    }
  }

  lemma FloorBounds(t: nat, p: nat)
    requires p > 0
    ensures p * (t / p) <= t < p * (t / p) + p
  {
  }

  /** The columns that do not fit cost less than a unit of the low littlenum,
      and when they are not all zero the array is full. */
  lemma FullWhenInexact(t: nat, columns: nat, capacity: nat, k: int, digits: Bignum)
    requires IsTruncated(t, columns, capacity, k, digits)
    ensures Pow(RADIX, k) * Val(digits) <= t < Pow(RADIX, k) * Val(digits) + Pow(RADIX, k)
    ensures var dropped := Max(0, columns - capacity);
      Pow(RADIX, dropped) > 0 && (t % Pow(RADIX, dropped) != 0 ==> |digits| == capacity)
  {
    FloorBounds(t, Pow(RADIX, k));
    NothingSkipped(t, columns, capacity);
  }

  lemma NothingSkipped(t: nat, columns: nat, capacity: nat)
    ensures var dropped := Max(0, columns - capacity);
      && Pow(RADIX, dropped) > 0
      && (t % Pow(RADIX, dropped) != 0 ==>
            && dropped == columns - capacity
            && Truncation(t, columns, capacity) == dropped + (if t < Pow(RADIX, columns) then 0 else 1))
  {
    var dropped := Max(0, columns - capacity);
    PowPositive(RADIX, dropped);
    var z := TrailingZeros(t, columns);
    if z >= dropped {
      Divides(t, dropped, z);
    }
    assert dropped == 0 ==> Pow(RADIX, dropped) == 1;
  }

  /** Factors with nonzero leaders give a product whose leader is nonzero,
      except when every column is zero and the array, at most half as long,
      has no place for the carry. */
  lemma LeaderNonzeroIff(t: nat, columns: nat, capacity: nat, k: int, digits: Bignum)
    requires columns > 0 && Pow(RADIX, columns - 1) <= t < Pow(RADIX, columns + 1)
    requires IsTruncated(t, columns, capacity, k, digits)
    ensures Pow(RADIX, columns) > 0
    ensures (digits != [] && digits[|digits| - 1] != 0) <==>
      capacity > 0 && !(2 * capacity <= columns && t >= Pow(RADIX, columns) && t % Pow(RADIX, columns) == 0)
  {
    hide Val, Pow;
    PowPositive(RADIX, columns);
    TopZeros(t, columns);
    if digits != [] {
      TopOfQuotient(t, k, |digits| - 1);
      ValTop(digits);
    }
  }

  lemma TopZeros(t: nat, columns: nat)
    requires columns > 0 && Pow(RADIX, columns - 1) <= t
    ensures Pow(RADIX, columns) > 0
    ensures TrailingZeros(t, columns) == columns <==> t % Pow(RADIX, columns) == 0
    ensures t < Pow(RADIX, columns) ==> t % Pow(RADIX, columns) != 0
  {
    PowPositive(RADIX, columns);
    PowPositive(RADIX, columns - 1);
    var z := TrailingZeros(t, columns);
    if z < columns && t % Pow(RADIX, columns) == 0 {
      Divides(t, z + 1, columns);
    }
    if t < Pow(RADIX, columns) {
      DivModUnique(t, Pow(RADIX, columns), 0, t);
    }
  }

  lemma TopOfQuotient(t: nat, k: nat, n: nat)
    requires t >= Pow(RADIX, n + k)
    ensures Pow(RADIX, k) > 0 && t / Pow(RADIX, k) >= Pow(RADIX, n)
  {
    PowPositive(RADIX, k);
    PowAdd(RADIX, n, k);
    DivAtLeast(t, Pow(RADIX, k), Pow(RADIX, n));
  }

  /** A product of nonzero factors that comes out as zero: 0x8000 * R^2 times 2
      into a single littlenum. */
  lemma CarryLost()
    ensures var a: Bignum, b: Bignum := [0, 0, 0x8000], [2];
      && Truncation(Val(a) * Val(b), 3, 1) == 4
      && 0 < Val(a) * Val(b) < Pow(RADIX, 4)
  {
    var a: Bignum, b: Bignum := [0, 0, 0x8000], [2];
    var t := 0x1_0000_0000_0000;
    assert Pow(RADIX, 1) == 0x1_0000;
    assert Pow(RADIX, 2) == 0x1_0000_0000;
    assert Pow(RADIX, 3) == t;
    assert Pow(RADIX, 4) == 0x1_0000 * t;
    ValZero(a[..2]);
    assert Val(a) == 0x8000 * 0x1_0000_0000;
    assert Val(b) == 2;
    var z := TrailingZeros(t, 3);
    assert z == 3 by {
      if z < 3 {
        Divides(t, z + 1, 3);
      }
    }
  }

  /** The C product of two littlenums is an int: the inner loop is defined for
      these factors, and then computes what is proved of it. */
  ghost predicate ProductsAreInts(a: Bignum, b: Bignum) {
    forall i, j :: 0 <= i < |a| && 0 <= j < |b| ==> Term(a[i], b[j]) < 0x8000_0000
  }

  function Largest(s: Bignum): Littlenum
    requires s != []
  {
    if |s| == 1 || Largest(s[..|s| - 1]) <= s[|s| - 1] then s[|s| - 1] else Largest(s[..|s| - 1])
  }

  lemma {:induction false} LargestIs(s: Bignum)
    requires s != []
    ensures Largest(s) in s && forall x :: x in s ==> x <= Largest(s)
  {
    if |s| > 1 {
      LargestIs(s[..|s| - 1]);
      assert s == s[..|s| - 1] + [s[|s| - 1]];
    }
  }

  /** That is so if and only if it is for the largest littlenums. */
  lemma ProductsAreIntsIff(a: Bignum, b: Bignum)
    requires a != [] && b != []
    ensures ProductsAreInts(a, b) <==> Term(Largest(a), Largest(b)) < 0x8000_0000
  {
    hide Term, Largest;
    LargestIs(a);
    LargestIs(b);
    forall i, j | 0 <= i < |a| && 0 <= j < |b|
      ensures Term(a[i], b[j]) <= Term(Largest(a), Largest(b))
    {
      assert a[i] in a && b[j] in b;
      TermMonotone(a[i], Largest(a), b[j], Largest(b));
    }
  }

  lemma TermMonotone(x: nat, x': nat, y: nat, y': nat)
    requires x <= x' && y <= y'
    ensures Term(x, y) <= Term(x', y')
  {
    MulMonotone(x, y, y');
    MulMonotone(y', x, x');
  }
}
