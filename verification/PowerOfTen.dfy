/** A power of ten as the product of the table entries its exponent's bits
    select, each product truncated to the size of the result. */
module PowerOfTen {
  import opened Arithmetic
  import opened Littlenum
  import opened Flonums
  import opened FlonumMult
  import opened FlonumCopy

  const TABLE_SIZE: nat := 11
  const ERROR_EXPONENT_OVERFLOW: int := 2

  /** A flonum as a number: its mantissa, how many littlenums that occupies,
      and its exponent to the base RADIX. */
  datatype Num = Num(mantissa: nat, size: nat, exponent: int)

  function NumOf(f: Flonum): Num
    requires f.Valid()
    reads f, f.low
  {
    Num(f.Mantissa(), f.leader + 1, f.exponent)
  }

  /** t without its k low littlenums. */
  function Shifted(t: nat, k: nat): nat {
    PowPositive(RADIX, k);
    t / Pow(RADIX, k)
  }

  /** The product as `FlonumMultip` leaves it. */
  function Times(a: Num, b: Num, capacity: nat): Num {
    var columns := Max(0, a.size + b.size - 1);
    var t := a.mantissa * b.mantissa;
    var k := Truncation(t, columns, capacity);
    var size := columns + 1 - k - (if t < Pow(RADIX, columns) then 1 else 0);
    Num(Shifted(t, k), Max(0, size), a.exponent + b.exponent + k)
  }

  /** The product copied back; copying 0.0 leaves the old exponent. */
  function Step(entry: Num, power: Num, capacity: nat): Num {
    var product := Times(entry, power, capacity);
    if product.size == 0 then Num(0, 0, power.exponent) else product
  }

  /** The table entries selected by the bits of `exponent` from `place` on,
      multiplied into `power` in turn. */
  function Chain(table: seq<Num>, exponent: nat, place: nat, power: Num, capacity: nat): Num
    requires |table| == TABLE_SIZE + 1
  {
    if exponent == 0 then power
    else if exponent % 2 == 0 then Chain(table, exponent / 2, place + 1, power, capacity)
    else if place > TABLE_SIZE then power
    else Chain(table, exponent / 2, place + 1, Step(table[place], power, capacity), capacity)
  }

  /** The table's flonums are the numbers `nums`, all positive. */
  ghost predicate IsTable(table: seq<Flonum>, nums: seq<Num>)
    reads table, set i | 0 <= i < |table| :: table[i].low
  {
    && |table| == |nums| == TABLE_SIZE + 1
    && forall i :: 0 <= i < |table| ==>
         table[i].Valid() && table[i].sign == '+' && table[i].leader < 0x1000_0000 && NumOf(table[i]) == nums[i]
  }

  /** Whether the loop meets a bit of the exponent beyond the table. */
  predicate Overflows(exponent: nat, place: nat) {
    exponent != 0 && ((exponent % 2 == 1 && place > TABLE_SIZE) || Overflows(exponent / 2, place + 1))
  }

  /** What is left to do leads to the result; an overflow ends the loop. */
  ghost predicate Running(nums: seq<Num>, decimalExponent: nat, e: nat, place: nat, power: Num, precision: nat,
                          code: int)
    requires |nums| == TABLE_SIZE + 1
  {
    && Chain(nums, decimalExponent, 1, Num(1, 1, 0), precision) == Chain(nums, e, place, power, precision)
    && if code == 0 then Overflows(decimalExponent, 1) <==> Overflows(e, place)
       else e == 0 && code == ERROR_EXPONENT_OVERFLOW && Overflows(decimalExponent, 1)
  }

  lemma Runs(nums: seq<Num>, dec: nat, e: nat, place: nat, power: Num, precision: nat)
    requires |nums| == TABLE_SIZE + 1 && e != 0
    requires Running(nums, dec, e, place, power, precision, 0)
    ensures if e % 2 == 0 then Running(nums, dec, e / 2, place + 1, power, precision, 0)
            else if place > TABLE_SIZE then Running(nums, dec, 0, place + 1, power, precision, ERROR_EXPONENT_OVERFLOW)
            else Running(nums, dec, e / 2, place + 1, Step(nums[place], power, precision), precision, 0)
  {
    hide Step;
  }

  lemma Stops(nums: seq<Num>, dec: nat, place: nat, power: Num, precision: nat, code: int)
    requires |nums| == TABLE_SIZE + 1 && Running(nums, dec, 0, place, power, precision, code)
    ensures power == Chain(nums, dec, 1, Num(1, 1, 0), precision)
    ensures code == if dec < 0x800 then 0 else ERROR_EXPONENT_OVERFLOW
  {
    OverflowsIff(dec, 1);
    TwoToEleven();
  }

  method ComputePower(table: seq<Flonum>, ghost nums: seq<Num>, decimalExponent: nat, precision: nat)
    returns (power: Flonum, code: int)
    requires IsTable(table, nums) && 0 < precision < 0x1000_0000
    ensures fresh(power) && fresh(power.low) && power.low.Length == precision
    ensures power.Valid() && power.sign == '+'
    ensures NumOf(power) == Chain(nums, decimalExponent, 1, Num(1, 1, 0), precision)
    ensures code == if decimalExponent < 0x800 then 0 else ERROR_EXPONENT_OVERFLOW
  {
    hide Val, Pow, Step, Chain, Overflows;
    var temporary;
    power, temporary := One(precision);
    code := 0;
    var e, place := decimalExponent, 1;
    while e != 0
      invariant fresh(power) && fresh(power.low) && power.low.Length == precision
      invariant fresh(temporary) && fresh(temporary.low) && temporary.low.Length == precision
      invariant power != temporary && power.low != temporary.low
      invariant power.Valid() && power.sign == '+' && place >= 1
      invariant IsTable(table, nums)
      invariant Running(nums, decimalExponent, e, place, NumOf(power), precision, code)
      decreases e
    {
      Runs(nums, decimalExponent, e, place, NumOf(power), precision);
      if e % 2 == 1 {
        if place > TABLE_SIZE {
          code := ERROR_EXPONENT_OVERFLOW;
          e := 0;
        } else {
          MultiplyInto(table[place], power, temporary);
        }
      }
      e := e / 2;
      place := place + 1;
    }
    Stops(nums, decimalExponent, place, NumOf(power), precision, code);
  }

  /** Room for the power, which starts as 1, and for a product. */
  method One(precision: nat) returns (power: Flonum, temporary: Flonum)
    requires precision > 0
    ensures fresh(power) && fresh(power.low) && power.low.Length == precision
    ensures fresh(temporary) && fresh(temporary.low) && temporary.low.Length == precision
    ensures power != temporary && power.low != temporary.low
    ensures power.Valid() && power.sign == '+' && NumOf(power) == Num(1, 1, 0)
  {
    var low := new Littlenum[precision](_ => 0);
    var temporaryLow := new Littlenum[precision](_ => 0);
    low[0] := 1;
    power := new Flonum(low);
    power.leader := 0;
    power.sign := '+';
    temporary := new Flonum(temporaryLow);
    UnitMantissa(power.Digits());
  }

  /** One factor: the product goes to the temporary and is copied back. */
  method MultiplyInto(entry: Flonum, power: Flonum, temporary: Flonum)
    requires entry.Valid() && entry.sign == '+' && entry.leader < 0x1000_0000
    requires power.Valid() && power.sign == '+' && power.low.Length < 0x1000_0000
    requires power != entry && power.low != entry.low && temporary != entry && temporary.low != entry.low
    requires power != temporary && power.low != temporary.low && temporary.low.Length == power.low.Length
    modifies power, power.low, temporary, temporary.low
    ensures power.Valid() && power.sign == '+'
    ensures NumOf(power) == Step(NumOf(entry), old(NumOf(power)), power.low.Length)
  {
    hide Val, Pow, Times, IsTruncated;
    ghost var a, b := NumOf(entry), NumOf(power);
    FlonumMultip(entry, power, temporary);
    TruncatedIsTimes(a, b, power.low.Length, temporary.exponent - a.exponent - b.exponent, temporary.Digits());
    Copy(temporary, power);
    ValZero([]);
    assert temporary.Digits()[0..] == temporary.Digits();
  }

  lemma TruncatedIsTimes(a: Num, b: Num, capacity: nat, k: int, digits: Bignum)
    requires IsTruncated(a.mantissa * b.mantissa, Max(0, a.size + b.size - 1), capacity, k, digits)
    ensures Times(a, b, capacity) == Num(Val(digits), |digits|, a.exponent + b.exponent + k)
  {
    hide Val, Pow, Truncation;
  }

  lemma UnitMantissa(low: Bignum)
    requires low == [1]
    ensures Val(low) == 1
  {
  }

  lemma TwoToEleven()
    ensures Pow(2, 11) == 0x800
  {
  }

  lemma {:induction false} OverflowsIff(exponent: nat, place: nat)
    ensures Overflows(exponent, place) <==> exponent >= Pow(2, Max(0, TABLE_SIZE + 1 - place))
  {
    if exponent != 0 {
      OverflowsIff(exponent / 2, place + 1);
    }
    PowPositive(2, Max(0, TABLE_SIZE + 1 - place));
  }
}
