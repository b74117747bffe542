/** Variable precision floating point numbers: littlenums with an exponent. */
module Flonums {
  import opened Littlenum

  /** `low` holds the littlenums from low to high; `leader` is the index of the
      highest one in use, -1 for 0.0. */
  class Flonum {
    const low: array<Littlenum>
    var leader: int
    var exponent: int
    var sign: char

    constructor (low: array<Littlenum>)
      ensures this.low == low && leader == -1 && exponent == 0 && sign == '\0'
    {
      this.low := low;
      leader, exponent, sign := -1, 0, '\0';
    }

    predicate Valid()
      reads this
    {
      -1 <= leader < low.Length
    }

    function Digits(): Bignum
      requires Valid()
      reads this, low
    {
      low[..leader + 1]
    }

    function Mantissa(): nat
      requires Valid()
      reads this, low
    {
      Val(Digits())
    }

    predicate Signed()
      reads this
    {
      sign == '+' || sign == '-'
    }
  }
}
