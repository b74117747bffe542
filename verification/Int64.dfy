/** The signed 64-bit arithmetic in which expressions are evaluated. */
module Int64 {
  import opened Arithmetic

  const WIDTH: nat := 64
  const MODULUS: int := 0x1_0000_0000_0000_0000
  const LIMIT: int := 0x8000_0000_0000_0000

  predicate InRange(x: int) {
    -LIMIT <= x < LIMIT
  }

  ghost predicate Congruent(x: int, y: int) {
    (x - y) % MODULUS == 0
  }

  /** The 64-bit number that differs from x by a multiple of 2^64. */
  function Wrap(x: int): (r: int)
    ensures InRange(r) && Congruent(r, x)
    ensures InRange(x) ==> r == x
  {
    (x + LIMIT) % MODULUS - LIMIT
  }

  lemma CongruentSum(a: int, b: int, x: int, y: int)
    requires Congruent(a, x) && Congruent(b, y)
    ensures Congruent(a + b, x + y) && Congruent(a - b, x - y)
  {
  }

  lemma CongruentTrans(a: int, b: int, c: int)
    requires Congruent(a, b) && Congruent(b, c)
    ensures Congruent(a, c)
  {
  }

  /** The bit of weight 2^i, in two's complement. */
  predicate Bit(x: int, i: nat) {
    PowPositive(2, i);
    x / Pow(2, i) % 2 == 1
  }

  /** The number with these bits below n. */
  function WithBits(bits: nat -> bool, n: nat): nat {
    if n == 0 then 0 else WithBits(bits, n - 1) + if bits(n - 1) then Pow(2, n - 1) else 0
  }

  function FromBits(bits: nat -> bool): int {
    Wrap(WithBits(bits, WIDTH))
  }

  function Truth(b: bool): int {
    if b then 1 else 0
  }

  function Complement(x: int): int {
    -x - 1
  }

  /** C division drops the fraction. */
  function Quotient(x: int, y: int): int
    requires y != 0
  {
    var q := (if x < 0 then -x else x) / (if y < 0 then -y else y);
    Wrap(if (x < 0) == (y < 0) then q else -q)
  }

  function Remainder(x: int, y: int): int
    requires y != 0
  {
    var r := (if x < 0 then -x else x) % (if y < 0 then -y else y);
    if x < 0 then -r else r
  }

  /** The low six bits of a shift count are used. */
  function ShiftLeft(x: int, n: int): int {
    Wrap(x * Pow(2, n % WIDTH))
  }

  /** Copies of the sign come in. */
  function ShiftRight(x: int, n: int): int {
    PowPositive(2, n % WIDTH);
    x / Pow(2, n % WIDTH)
  }
}
