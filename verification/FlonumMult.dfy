/** Multiplication of flonums into a fixed number of littlenums. */
module FlonumMult {
  import opened Arithmetic
  import opened Littlenum
  import opened Convolution
  import opened Flonums

  /** The C `unsigned long int` of an LP64 host. */
  type ULong = n: int | 0 <= n < 0x1_0000_0000_0000_0000

  /** How many littlenums at the low end of t, n at most, are zero. */
  function TrailingZeros(t: nat, n: nat): (r: nat)
    ensures r <= n
    ensures Pow(RADIX, r) > 0 && t % Pow(RADIX, r) == 0
    ensures r < n ==> Pow(RADIX, r + 1) > 0 && t % Pow(RADIX, r + 1) != 0
  {
    if n == 0 || t % RADIX != 0 then
      assert Pow(RADIX, 1) == RADIX;
      0
    else
      var r := TrailingZeros(t / RADIX, n - 1);
      PowPositive(RADIX, r + 1);
      DivDiv(t, RADIX, Pow(RADIX, r));
      PowPositive(RADIX, r + 2);
      DivDiv(t, RADIX, Pow(RADIX, r + 1));
      r + 1
  }

  /** How many low littlenums a product t of the given number of columns loses
      in an array of `capacity` littlenums: those below the columns that fit,
      then the zero littlenums met next, and one more when the carry out of the
      last column finds the array full. */
  function Truncation(t: nat, columns: nat, capacity: nat): nat {
    var dropped := Max(0, columns - capacity);
    var skipped := Max(dropped, TrailingZeros(t, columns)) - dropped;
    if t < Pow(RADIX, columns) || skipped > columns - capacity then dropped + skipped
    else dropped + skipped + 1
  }

  /** `digits` is the floor of t / RADIX^k, k the truncation, with the leader
      on the highest littlenum of t. */
  ghost predicate IsTruncated(t: nat, columns: nat, capacity: nat, k: int, digits: Bignum) {
    && k == Truncation(t, columns, capacity)
    && Pow(RADIX, k) > 0 && Val(digits) == t / Pow(RADIX, k)
    && |digits| == columns + 1 - k - (if t < Pow(RADIX, columns) then 1 else 0)
  }

  function Columns(a: Flonum, b: Flonum): nat
    reads a, b
  {
    Max(0, a.leader + b.leader + 1)
  }

  method FlonumMultip(a: Flonum, b: Flonum, product: Flonum)
    requires a.Valid() && b.Valid()
    requires product != a && product != b && product.low != a.low && product.low != b.low
    requires a.leader + b.leader < 0x7fff_ffff
    modifies product, product.low
    ensures !(a.Signed() && b.Signed()) ==>
      product.sign == '\0' && product.leader == old(product.leader)
      && product.exponent == old(product.exponent) && product.low[..] == old(product.low[..])
    ensures a.Signed() && b.Signed() ==>
      && product.Valid()
      && product.sign == (if a.sign == b.sign then '+' else '-')
      && IsTruncated(a.Mantissa() * b.Mantissa(), Columns(a, b), product.low.Length,
                     product.exponent - a.exponent - b.exponent, product.Digits())
  {
    if (a.sign != '-' && a.sign != '+') || (b.sign != '-' && b.sign != '+') {
      product.sign := '\0';
      return;
    }
    product.sign := if a.sign == b.sign then '+' else '-';
    MultiplyMagnitudes(a, b, product);
  }

  /** `FlonumMultip` past the signs. */
  method MultiplyMagnitudes(a: Flonum, b: Flonum, product: Flonum)
    requires a.Valid() && b.Valid()
    requires product != a && product != b && product.low != a.low && product.low != b.low
    requires a.leader + b.leader < 0x7fff_ffff
    modifies product, product.low
    ensures product.Valid() && product.sign == old(product.sign)
    ensures IsTruncated(a.Mantissa() * b.Mantissa(), Columns(a, b), product.low.Length,
                        product.exponent - a.exponent - b.exponent, product.Digits())
  {
    hide Val, Pow, Truncation, IsTruncated, Emitted, Skipping;
    var sizeOfA := a.leader;
    var sizeOfB := b.leader;
    var exponent := a.exponent + b.exponent;
    var sizeOfProduct := product.low.Length - 1;
    var sizeOfSum := sizeOfA + sizeOfB;
    var extraProductPositions := sizeOfProduct - sizeOfSum;
    var p;
    if extraProductPositions < 0 {
      p := extraProductPositions;
      exponent := exponent - extraProductPositions;
    } else {
      p := 0;
    }
    var carry;
    ghost var digits;
    ghost var t := a.Mantissa() * b.Mantissa();
    p, exponent, extraProductPositions, carry, digits :=
      EmitColumns(a, b, product, sizeOfSum, p, exponent, extraProductPositions);
    LastCarry(digits, carry, a.Digits(), b.Digits());
    PlaceCarry(product, p, exponent, extraProductPositions, carry);
    Assembled(digits, carry, t, product.low.Length, extraProductPositions - (sizeOfProduct - sizeOfSum),
              product.exponent - exponent, product.Digits());
  }

  /** The columns so far are the littlenums `digits` and a carry. */
  ghost predicate Emitted(digits: Bignum, carry: nat, a: Bignum, b: Bignum) {
    Val(digits) + carry * Pow(RADIX, |digits|) == Cols(a, b, |digits|)
  }

  /** Of the columns so far the low `dropped` have no place in the array, and
      the next `skipped` are left out because they and all below are zero; the
      first one stored is not. */
  ghost predicate Skipping(digits: Bignum, dropped: nat, skipped: nat) {
    && (skipped > 0 ==> dropped + skipped <= |digits| && AllZero(digits[..dropped + skipped]))
    && (dropped + skipped < |digits| ==> !AllZero(digits[..dropped + skipped + 1]))
  }

  lemma StartsSkipping(dropped: nat)
    ensures Skipping([], dropped, 0) && AllZero([])
  {
  }

  lemma Keeps(digits: Bignum, work: Littlenum, dropped: nat, skipped: nat)
    requires Skipping(digits, dropped, skipped)
    requires !AllZero(digits + [work]) || |digits| < dropped + skipped
    ensures Skipping(digits + [work], dropped, skipped)
  {
    var k := dropped + skipped;
    var next := digits + [work];
    assert forall m :: 0 <= m <= |digits| ==> next[..m] == digits[..m];
    assert next[..|next|] == next;
  }

  lemma Skips(digits: Bignum, work: Littlenum, dropped: nat, skipped: nat)
    requires Skipping(digits, dropped, skipped)
    requires AllZero(digits + [work]) && |digits| >= dropped + skipped
    ensures |digits| == dropped + skipped && Skipping(digits + [work], dropped, skipped + 1)
  {
    var next := digits + [work];
    assert next[..|next|] == next;
    assert forall i :: 0 <= i < |digits| ==> digits[i] == next[i];
  }

  /** The scan over the columns, low-order to high. */
  method EmitColumns(a: Flonum, b: Flonum, product: Flonum, sizeOfSum: int, p0: int, exponent0: int, extra0: int)
    returns (p: int, exponent: int, extra: int, carry: ULong, ghost digits: Bignum)
    requires a.Valid() && b.Valid()
    requires product.low != a.low && product.low != b.low
    requires sizeOfSum == a.leader + b.leader < 0x7fff_ffff
    requires extra0 == product.low.Length - 1 - sizeOfSum && p0 == Min(0, extra0)
    modifies product.low
    ensures |digits| == Columns(a, b) && Emitted(digits, carry, a.Digits(), b.Digits())
    ensures a.leader < 0 || b.leader < 0 ==> carry == 0
    ensures var dropped := Max(0, Columns(a, b) - product.low.Length);
      var skipped := extra - extra0;
      && skipped >= 0 && dropped + skipped <= |digits| && Skipping(digits, dropped, skipped)
      && exponent == exponent0 + skipped
      && 0 <= p == |digits| - dropped - skipped <= product.low.Length
      && product.low[..p] == digits[dropped + skipped..]
  {
    hide Emitted, Val, Pow, Col, Term, AllZero, Skipping;
    p, exponent, extra := p0, exponent0, extra0;
    ghost var da, db := a.Digits(), b.Digits();
    ghost var columns := Columns(a, b);
    ghost var dropped := Max(0, columns - product.low.Length);
    ghost var skipped: nat := 0;
    digits := [];
    carry := 0;
    NothingEmitted(da, db);
    StartsSkipping(dropped);
    var significant := false;
    var n := 0;
    while n <= sizeOfSum
      invariant 0 <= n <= columns && |digits| == n
      invariant a.Digits() == da && b.Digits() == db
      invariant carry <= n * RADIX && Emitted(digits, carry, da, db)
      invariant a.leader < 0 || b.leader < 0 ==> carry == 0
      invariant significant <==> !AllZero(digits)
      invariant Skipping(digits, dropped, skipped) && (p < 0 ==> skipped == 0)
      invariant p == n - dropped - skipped && p <= product.low.Length
      invariant forall i :: 0 <= i < p ==> product.low[i] == digits[dropped + skipped + i]
      invariant extra == extra0 + skipped && exponent == exponent0 + skipped
    {
      var work: ULong;
      ghost var carryIn := carry;
      work, carry := Column(a, b, n, carry);
      NextDigit(digits, work, carryIn, carry, da, db);
      AllZeroSnoc(digits, work);
      significant := significant || work != 0;
      if significant || p < 0 {
        Keeps(digits, work, dropped, skipped);
        if p >= 0 {
          product.low[p] := work;
        }
        p := p + 1;
      } else {
        Skips(digits, work, dropped, skipped);
        extra := extra + 1;
        exponent := exponent + 1;
        skipped := skipped + 1;
      }
      digits := digits + [work];
      n := n + 1;
    }
  }

  /** One column: the littlenum it leaves and the carry into the next. */
  method Column(a: Flonum, b: Flonum, n: nat, carryIn: ULong) returns (work: ULong, carry: ULong)
    requires a.Valid() && b.Valid()
    requires n <= a.leader + b.leader < 0x7fff_ffff
    requires carryIn <= n * RADIX
    requires a.leader < 0 || b.leader < 0 ==> carryIn == 0
    ensures work < RADIX && carry <= (n + 1) * RADIX
    ensures a.leader < 0 || b.leader < 0 ==> carry == 0
    ensures carry * RADIX + work == carryIn + Col(a.Digits(), b.Digits(), n)
  {
    hide Col, Pow, Val, Term;
    ghost var da, db := a.Digits(), b.Digits();
    ghost var sum: nat := 0;
    ColOfEmpty(db, n);
    work, carry := carryIn, 0;
    var i := 0;
    while i <= n
      invariant 0 <= i <= n + 1
      invariant sum == Col(da[..Min(i, |da|)], db, n) && sum <= i * 0xfffe_0001
      invariant carry * RADIX + work == carryIn + sum
      invariant a.leader < 0 || b.leader < 0 ==> carry == work == 0
      invariant work < RADIX || work <= carryIn
      invariant work < RADIX || Min(i - 1, a.leader) < Max(0, n - b.leader)
    {
      var j := n - i;
      ghost var term := if i <= a.leader then NextTerm(da, db, n, i) else 0;
      if i <= a.leader && j <= b.leader && j >= 0 {
        work, carry := AddProduct(work, carry, a.low[i], b.low[j]);
      }
      sum := sum + term;
      i := i + 1;
    }
    ColDone(da, db, n);
  }

  /** The term row i adds to column n. */
  ghost function NextTerm(a: Bignum, b: Bignum, n: nat, i: nat): (term: nat)
    requires i < |a|
    ensures Col(a[..i + 1], b, n) == Col(a[..i], b, n) + term
    ensures term == (if 0 <= n - i < |b| then Term(a[i], b[n - i]) else 0) <= 0xfffe_0001
  {
    ColStep(a, b, n, i);
    TermBound(a[i], At(b, n - i));
    Term(a[i], At(b, n - i))
  }

  lemma ColDone(a: Bignum, b: Bignum, n: nat)
    ensures Col(a[..Min(n + 1, |a|)], b, n) == Col(a, b, n)
  {
    assert a[..|a|] == a;
    if n < |a| {
      ColCut(a, b, n, |a|);
    }
  }

  /** The body of the inner loop: `work` and `carry` are bounded well inside
      64 bits. */
  method AddProduct(work: ULong, carry: ULong, x: Littlenum, y: Littlenum) returns (w: ULong, c: ULong)
    requires work <= 0x1_0000_0000_0000 && carry <= 0x1_0000_0000_0000
    ensures w < RADIX
    ensures c * RADIX + w == carry * RADIX + work + Term(x, y)
  {
    TermBound(x, y);
    w := work + x * y;
    c := carry + w / RADIX;
    w := w % RADIX;
  }

  /** The carry out of the last column goes on top; when the array is full the
      littlenums move down one place to make room for it. */
  method PlaceCarry(product: Flonum, p0: int, exponent0: int, extra: int, carry: Littlenum)
    requires 0 <= p0 <= product.low.Length && (extra > 0 && carry != 0 ==> p0 < product.low.Length)
    modifies product, product.low
    ensures product.Valid() && product.sign == old(product.sign)
    ensures var shift := if carry != 0 && extra <= 0 then 1 else 0;
      && product.exponent == exponent0 + shift
      && product.Digits() + (if carry == 0 then [0] else []) == (old(product.low[..p0]) + [carry])[shift..]
  {
    var p, exponent := p0, exponent0;
    if carry != 0 {
      if extra > 0 {
        product.low[p] := carry;
      } else {
        exponent := exponent + 1;
        p := p - 1;
        ShiftRight(product.low, p, carry);
      }
    } else {
      p := p - 1;
    }
    product.leader := p;
    product.exponent := exponent;
  }

  /** Moves low[1..p] down one place and puts `carry` on top. */
  method ShiftRight(low: array<Littlenum>, p: int, carry: Littlenum)
    requires -1 <= p < low.Length
    modifies low
    ensures low[..p + 1] == (old(low[..p + 1]) + [carry])[1..]
  {
    var carry := carry;
    ghost var was := low[..p + 1] + [carry];
    var q := p;
    while q >= 0
      invariant -1 <= q <= p
      invariant carry == was[q + 1]
      invariant forall i :: 0 <= i <= q ==> low[i] == was[i]
      invariant forall i :: q < i <= p ==> low[i] == was[i + 1]
    {
      var work := low[q];
      low[q] := carry;
      carry := work;
      q := q - 1;
    }
  }

  lemma NothingEmitted(a: Bignum, b: Bignum)
    ensures Emitted([], 0, a, b)
  {
  }

  lemma NextDigit(digits: Bignum, work: Littlenum, carryIn: nat, carry: nat, a: Bignum, b: Bignum)
    requires Emitted(digits, carryIn, a, b)
    requires carry * RADIX + work == carryIn + Col(a, b, |digits|)
    ensures Emitted(digits + [work], carry, a, b)
  {
    var n := |digits|;
    var p := Pow(RADIX, n);
    ValSnoc(digits, work);
    MulRegroup(carry, RADIX, p);
    SumTimes(carry * RADIX, work, p);
    SumTimes(carryIn, Col(a, b, n), p);
  }

  lemma ColOfEmpty(b: Bignum, n: nat)
    ensures Col([], b, n) == 0
  {
  }

  /** The carry out of the last column fits one littlenum. */
  lemma LastCarry(digits: Bignum, carry: nat, a: Bignum, b: Bignum)
    requires |digits| == Max(0, |a| + |b| - 1)
    requires Emitted(digits, carry, a, b) && (a == [] || b == [] ==> carry == 0)
    ensures carry < RADIX
    ensures Val(digits + [carry]) == Val(a) * Val(b)
  {
    var n := |digits|;
    ColsProduct(a, b, n);
    if a != [] && b != [] {
      ProductBelow(a, b);
      CarryBelow(carry, Pow(RADIX, n));
    }
    ValSnoc(digits, carry);
  }

  lemma CarryBelow(carry: nat, p: nat)
    requires carry * p < RADIX * p
    ensures carry < RADIX
  {
    if carry >= RADIX {
      MulMonotone(p, RADIX, carry);
    }
  }

  lemma ProductBelow(a: Bignum, b: Bignum)
    ensures Val(a) * Val(b) < Pow(RADIX, |a| + |b|)
  {
    ValBound(a);
    ValBound(b);
    PowAdd(RADIX, |a|, |b|);
    MulMonotone(Val(a), Val(b), Pow(RADIX, |b|));
    PowPositive(RADIX, |b|);
    MulStrict(Pow(RADIX, |b|), Val(a), Pow(RADIX, |a|));
  }

  lemma TrailingZerosOfDigits(digits: Bignum, carry: Littlenum)
    ensures var z := TrailingZeros(Val(digits + [carry]), |digits|);
      AllZero(digits[..z]) && (z < |digits| ==> digits[z] != 0)
  {
    hide Val, Pow, TrailingZeros;
    var full := digits + [carry];
    var z := TrailingZeros(Val(full), |digits|);
    ValSplit(full, z);
    ValZero(full[..z]);
    assert full[..z] == digits[..z];
    if z < |digits| {
      ValSplit(full, z + 1);
      ValZero(full[..z + 1]);
      assert full[..z + 1] == digits[..z] + [digits[z]];
    }
  }

  /** What the loop drops and skips is what `Truncation` says. */
  lemma TruncationOfDigits(digits: Bignum, carry: Littlenum, dropped: nat, skipped: nat, capacity: nat)
    requires dropped == Max(0, |digits| - capacity)
    requires dropped + skipped <= |digits| && Skipping(digits, dropped, skipped)
    ensures var t := Val(digits + [carry]);
      && (carry == 0 <==> t < Pow(RADIX, |digits|))
      && Truncation(t, |digits|, capacity)
         == dropped + skipped + (if carry == 0 || skipped > |digits| - capacity then 0 else 1)
  {
    hide Val, Pow, TrailingZeros, AllZero, Skipping;
    ValTop(digits + [carry]);
    TrailingZerosOfDigits(digits, carry);
    SkipCount(digits, dropped, skipped, TrailingZeros(Val(digits + [carry]), |digits|));
  }

  lemma SkipCount(digits: Bignum, dropped: nat, skipped: nat, z: nat)
    requires z <= |digits| && AllZero(digits[..z]) && (z < |digits| ==> digits[z] != 0)
    requires dropped + skipped <= |digits| && Skipping(digits, dropped, skipped)
    ensures Max(dropped, z) == dropped + skipped
  {
    var k := dropped + skipped;
    if k < |digits| {
      var j :| 0 <= j <= k && digits[j] != 0;
      assert forall i :: 0 <= i < z ==> digits[..z][i] == digits[i];
      assert z <= j;
    }
    assert skipped > 0 ==> forall i :: 0 <= i < k ==> digits[..k][i] == digits[i];
  }

  /** The littlenums kept are the floor of the product. */
  lemma Assembled(digits: Bignum, carry: Littlenum, t: nat, capacity: nat, skipped: nat, shift: nat, result: Bignum)
    requires t == Val(digits + [carry])
    requires shift == if carry == 0 || skipped > |digits| - capacity then 0 else 1
    requires var low := Max(0, |digits| - capacity) + skipped;
      && low <= |digits| && Skipping(digits, low - skipped, skipped)
      && result + (if carry == 0 then [0] else []) == (digits[low..] + [carry])[shift..]
    ensures IsTruncated(t, |digits|, capacity, Max(0, |digits| - capacity) + skipped + shift, result)
  {
    hide Val, Pow, Truncation, Skipping;
    var low := Max(0, |digits| - capacity) + skipped;
    TruncationOfDigits(digits, carry, low - skipped, skipped, capacity);
    assert (digits[low..] + [carry])[shift..] == (digits + [carry])[low + shift..];
    KeptDigits(digits, carry, low + shift, result);
  }

  lemma KeptDigits(digits: Bignum, carry: Littlenum, k: nat, result: Bignum)
    requires k <= |digits| + 1
    requires result + (if carry == 0 then [0] else []) == (digits + [carry])[k..]
    ensures Pow(RADIX, k) > 0 && Val(result) == Val(digits + [carry]) / Pow(RADIX, k)
    ensures |result| == |digits| + 1 - k - (if carry == 0 then 1 else 0)
  {
    hide Val, Pow;
    ValSplit(digits + [carry], k);
    if carry == 0 {
      ValSnoc(result, 0);
    } else {
      assert result + [] == result;
    }
  }
}
