/** The mantissa of a flonum read as a stream of bits, from the top. */
module BitStream {
  import opened Arithmetic
  import opened Littlenum

  /** The first n of c bits that make up v, zeros after the last. */
  function Top(v: nat, c: nat, n: nat): nat {
    if n <= c then
      PowPositive(2, c - n);
      v / Pow(2, c - n)
    else v * Pow(2, n - c)
  }

  /** What is left of v after its first n bits. */
  function Below(v: nat, c: nat, n: nat): (r: nat)
    ensures n <= c ==> r < Pow(2, c - n)
  {
    if n <= c then
      PowPositive(2, c - n);
      v % Pow(2, c - n)
    else 0
  }

  /** `mask[n] & x`. */
  function Mask(x: nat, n: nat): (r: nat)
    ensures r < Pow(2, n)
  {
    PowPositive(2, n);
    x % Pow(2, n)
  }

  /** `x >> n`. */
  function ShiftRight(x: nat, n: nat): nat {
    PowPositive(2, n);
    x / Pow(2, n)
  }

  /** `x << n`. */
  function ShiftLeft(x: nat, n: nat): nat {
    x * Pow(2, n)
  }

  /** The number in the low b bits of x and the littlenums below. */
  function BitsBelow(rest: Bignum, x: Littlenum, b: nat): nat {
    Val(rest) + Mask(x, b) * Pow(RADIX, |rest|)
  }

  /** The reader's static variables. */
  datatype State = State(bitsLeft: int, littlenumsLeft: int, pointer: int)

  function AfterNext(s: State, n: int): State {
    if s.littlenumsLeft == 0 then s
    else if n < s.bitsLeft then s.(bitsLeft := s.bitsLeft - n)
    else if s.littlenumsLeft == 1 then s.(littlenumsLeft := 0)
    else State(BITS - (n - s.bitsLeft), s.littlenumsLeft - 1, s.pointer - 1)
  }

  function AfterUnget(s: State, n: int): State {
    if s.littlenumsLeft == 0 then State(n, 1, s.pointer + 1)
    else if s.bitsLeft + n > BITS then State(n - (BITS - s.bitsLeft), s.littlenumsLeft + 1, s.pointer + 1)
    else s.(bitsLeft := s.bitsLeft + n)
  }

  /** The state makes sense for an array of so many littlenums. */
  predicate InRange(s: State, length: nat) {
    && 0 <= s.littlenumsLeft
    && (s.littlenumsLeft > 0 ==>
          0 <= s.pointer < length && s.littlenumsLeft <= s.pointer + 1 && 1 <= s.bitsLeft <= BITS)
  }

  /** How many bits are still to come before the zeros. */
  function UnreadAt(s: State): int {
    if s.littlenumsLeft == 0 then 0 else BITS * (s.littlenumsLeft - 1) + s.bitsLeft
  }

  /** The number those bits spell. */
  function RestAt(low: Bignum, s: State): nat
    requires InRange(s, |low|)
  {
    if s.littlenumsLeft == 0 then 0
    else BitsBelow(low[s.pointer + 1 - s.littlenumsLeft..s.pointer], low[s.pointer], s.bitsLeft)
  }

  /** What `next_bits` puts together from one littlenum or two. */
  function NextValue(low: Bignum, s: State, n: nat): nat
    requires InRange(s, |low|) && n <= BITS
  {
    if s.littlenumsLeft == 0 then 0
    else if n < s.bitsLeft then Mask(ShiftRight(low[s.pointer], s.bitsLeft - n), n)
    else
      ShiftLeft(Mask(low[s.pointer], s.bitsLeft), n - s.bitsLeft)
      + (if s.littlenumsLeft > 1 then ShiftRight(low[s.pointer - 1], BITS - (n - s.bitsLeft)) else 0)
  }

  class Reader {
    const low: array<Littlenum>
    var bitsLeftInLittlenum: int
    var littlenumsLeft: int
    var littlenumPointer: int

    constructor (low: array<Littlenum>, leader: int)
      requires 0 <= leader < low.Length
      ensures Valid() && this.low == low
      ensures Current() == State(BITS, leader + 1, leader)
      ensures Unread() == BITS * (leader + 1) && Rest() == Val(low[..leader + 1])
    {
      this.low := low;
      bitsLeftInLittlenum := BITS;
      littlenumPointer := leader;
      littlenumsLeft := 1 + leader;
      new;
      hide Val, Pow;
      WholeLittlenums(low[..leader], low[leader]);
      assert low[..leader + 1] == low[..leader] + [low[leader]];
    }

    function Current(): State
      reads this
    {
      State(bitsLeftInLittlenum, littlenumsLeft, littlenumPointer)
    }

    predicate Valid()
      reads this
    {
      InRange(Current(), low.Length)
    }

    function Unread(): nat
      requires Valid()
      reads this
    {
      UnreadAt(Current())
    }

    function Rest(): nat
      requires Valid()
      reads this, low
    {
      RestAt(low[..], Current())
    }

    method NextBits(numberOfBits: int) returns (value: int)
      requires Valid() && 0 <= numberOfBits <= BITS
      modifies this
      ensures Valid() && Current() == AfterNext(old(Current()), numberOfBits)
      ensures value == Top(old(Rest()), old(Unread()), numberOfBits)
      ensures Unread() == Max(0, old(Unread()) - numberOfBits)
      ensures Rest() == Below(old(Rest()), old(Unread()), numberOfBits)
    {
      hide Mask, ShiftLeft, ShiftRight, Pow, Top, Below, RestAt, UnreadAt;
      ghost var s := Current();
      NextIsTop(low[..], s, numberOfBits);
      var n := numberOfBits;
      if littlenumsLeft == 0 {
        return 0;
      }
      if n >= bitsLeftInLittlenum {
        value := Mask(low[littlenumPointer], bitsLeftInLittlenum);
        n := n - bitsLeftInLittlenum;
        value := ShiftLeft(value, n);
        littlenumsLeft := littlenumsLeft - 1;
        if littlenumsLeft != 0 {
          bitsLeftInLittlenum := BITS - n;
          littlenumPointer := littlenumPointer - 1;
          value := value + ShiftRight(low[littlenumPointer], bitsLeftInLittlenum);
        }
      } else {
        bitsLeftInLittlenum := bitsLeftInLittlenum - n;
        value := Mask(ShiftRight(low[littlenumPointer], bitsLeftInLittlenum), n);
      }
    }

    /** While littlenums are left, num more bits are to come, and then what was
        to come before; after the last, the low bits of the littlenum above the
        pointer are. */
    method UngetBits(num: int)
      requires Valid() && 0 < num <= BITS
      requires -1 <= littlenumPointer && AfterUnget(Current(), num).pointer < low.Length
      modifies this
      ensures Valid() && Unread() == old(Unread()) + num
      ensures old(littlenumsLeft) > 0 ==>
        Below(Rest(), Unread(), num) == old(Rest()) && AfterNext(Current(), num) == old(Current())
      ensures old(littlenumsLeft) == 0 ==>
        Rest() == Mask(low[old(littlenumPointer) + 1], num) && Current() == State(num, 1, old(littlenumPointer) + 1)
      ensures Current() == AfterUnget(old(Current()), num)
    {
      hide Mask, Below, RestAt;
      UngetIsAhead(low[..], Current(), num);
      if littlenumsLeft == 0 {
        littlenumPointer := littlenumPointer + 1;
        littlenumsLeft := littlenumsLeft + 1;
        bitsLeftInLittlenum := num;
      } else if bitsLeftInLittlenum + num > BITS {
        bitsLeftInLittlenum := num - (BITS - bitsLeftInLittlenum);
        littlenumPointer := littlenumPointer + 1;
        littlenumsLeft := littlenumsLeft + 1;
      } else {
        bitsLeftInLittlenum := bitsLeftInLittlenum + num;
      }
    }
  }

  /** One read takes the top bits of what is left. */
  lemma NextIsTop(low: Bignum, s: State, n: nat)
    requires InRange(s, |low|) && n <= BITS
    ensures UnreadAt(s) >= 0 && InRange(AfterNext(s, n), |low|)
    ensures NextValue(low, s, n) == Top(RestAt(low, s), UnreadAt(s), n)
    ensures UnreadAt(AfterNext(s, n)) == Max(0, UnreadAt(s) - n)
    ensures RestAt(low, AfterNext(s, n)) == Below(RestAt(low, s), UnreadAt(s), n)
  {
    hide BitsBelow, Mask, ShiftLeft, ShiftRight, Pow, Top, Below;
    var p, l, b := s.pointer, s.littlenumsLeft, s.bitsLeft;
    if l == 0 {
      NothingToRead(n);
    } else if n < b {
      ReadWithin(low[p + 1 - l..p], low[p], b, n);
    } else if l == 1 {
      ReadLast(low[p + 1 - l..p], low[p], b, n);
    } else {
      var rest := low[p + 1 - l..p - 1];
      assert low[p + 1 - l..p] == rest + [low[p - 1]];
      ReadAcross(rest, low[p - 1], low[p], b, n);
    }
  }

  /** What is to come after bits are given back. */
  lemma UngetIsAhead(low: Bignum, s: State, n: nat)
    requires InRange(s, |low|) && 0 < n <= BITS && -1 <= s.pointer
    requires AfterUnget(s, n).pointer < |low|
    ensures var t := AfterUnget(s, n);
      && InRange(t, |low|) && UnreadAt(t) == UnreadAt(s) + n
      && (s.littlenumsLeft > 0 ==> AfterNext(t, n) == s && Below(RestAt(low, t), UnreadAt(t), n) == RestAt(low, s))
      && (s.littlenumsLeft == 0 ==> RestAt(low, t) == Mask(low[s.pointer + 1], n))
  {
    hide Below, RestAt, Mask;
    var t := AfterUnget(s, n);
    if s.littlenumsLeft > 0 {
      NextIsTop(low, t, n);
    } else {
      LastLittlenum(low, s.pointer + 1, n);
    }
  }

  lemma LastLittlenum(low: Bignum, p: nat, n: nat)
    requires p < |low| && 1 <= n <= BITS
    ensures RestAt(low, State(n, 1, p)) == Mask(low[p], n)
  {
    assert low[p..p] == [];
    ValZero([]);
    assert Pow(RADIX, 0) == 1;
  }

  lemma TwoToBits()
    ensures Pow(2, BITS) == RADIX
  {
    assert Pow(2, 8) == 0x100;
    PowAdd(2, 8, 8);
  }

  lemma RadixPower(n: nat)
    ensures Pow(RADIX, n) == Pow(2, BITS * n)
  {
    TwoToBits();
    PowMul(2, BITS, n);
  }

  lemma WholeLittlenums(rest: Bignum, x: Littlenum)
    ensures Val(rest + [x]) == BitsBelow(rest, x, BITS)
  {
    hide Val, Pow;
    ValSnoc(rest, x);
    TwoToBits();
    DivModUnique(x, RADIX, 0, x);
  }

  lemma NothingToRead(n: nat)
    ensures Top(0, 0, n) == 0 && Below(0, 0, n) == 0
  {
  }

  /** a stands above b littlenum-sized bits l: the cut falls in a. */
  lemma CutAbove(a: nat, l: nat, k: nat, t: nat)
    requires l < Pow(2, k)
    ensures Pow(2, k + t) > 0 && Pow(2, t) > 0
    ensures (a * Pow(2, k) + l) / Pow(2, k + t) == a / Pow(2, t)
    ensures (a * Pow(2, k) + l) % Pow(2, k + t) == a % Pow(2, t) * Pow(2, k) + l
  {
    hide Pow;
    PowPositive(2, k);
    PowPositive(2, t);
    PowAdd(2, k, t);
    var v := a * Pow(2, k) + l;
    DivModUnique(v, Pow(2, k), a, l);
    DivDiv(v, Pow(2, k), Pow(2, t));
  }

  lemma ReadWithin(rest: Bignum, x: Littlenum, b: nat, n: nat)
    requires n < b <= BITS
    ensures var v, c := BitsBelow(rest, x, b), BITS * |rest| + b;
      && Top(v, c, n) == Mask(ShiftRight(x, b - n), n)
      && Below(v, c, n) == BitsBelow(rest, x, b - n)
  {
    hide Val, Pow;
    PowPositive(2, b - n);
    PowPositive(2, n);
    RadixPower(|rest|);
    ValBound(rest);
    CutAbove(Mask(x, b), Val(rest), BITS * |rest|, b - n);
    PowAdd(2, b - n, n);
    DivDiv(x, Pow(2, b - n), Pow(2, n));
    DivModUnique(Mask(x, b), Pow(2, b - n), Mask(ShiftRight(x, b - n), n), Mask(x, b - n));
  }

  lemma ReadAcross(rest: Bignum, y: Littlenum, x: Littlenum, b: nat, n: nat)
    requires 0 < b <= n <= BITS
    ensures var v, c := BitsBelow(rest + [y], x, b), BITS * (|rest| + 1) + b;
      var t := BITS - (n - b);
      && Top(v, c, n) == ShiftLeft(Mask(x, b), n - b) + ShiftRight(y, t)
      && Below(v, c, n) == BitsBelow(rest, y, t)
  {
    hide Val, Pow, Mask;
    var k := BITS * |rest|;
    var t := BITS - (n - b);
    var a := Mask(x, b);
    PowPositive(2, t);
    RadixPower(|rest|);
    TwoToBits();
    PowStep(RADIX, |rest|);
    ValSnoc(rest, y);
    ValBound(rest);
    PowAdd(2, n - b, t);
    MulRegroup(a, RADIX, Pow(2, k));
    SumTimes(a * RADIX, y, Pow(2, k));
    CutAbove(a * RADIX + y, Val(rest), k, t);
    CutWithin(a, y, Pow(2, n - b), Pow(2, t));
    MaskIs(y, t);
  }

  lemma MaskIs(x: nat, n: nat)
    ensures Pow(2, n) > 0 && Mask(x, n) == x % Pow(2, n)
  {
    PowPositive(2, n);
  }

  lemma CutWithin(a: nat, y: nat, p: nat, q: nat)
    requires q > 0
    ensures (a * (p * q) + y) / q == a * p + y / q
    ensures (a * (p * q) + y) % q == y % q
  {
    MulRegroup(a, p, q);
    SumTimes(a * p, y / q, q);
    DivModUnique(a * (p * q) + y, q, a * p + y / q, y % q);
  }

  lemma ReadLast(rest: Bignum, x: Littlenum, b: nat, n: nat)
    requires rest == [] && b <= n
    ensures Top(BitsBelow(rest, x, b), b, n) == ShiftLeft(Mask(x, b), n - b)
    ensures Below(BitsBelow(rest, x, b), b, n) == 0
  {
    ValZero(rest);
    assert Pow(2, 0) == 1;
  }
}
