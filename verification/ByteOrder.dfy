/** Numbers in little-endian bytes. */
module ByteOrder {
  import opened Arithmetic
  import opened Int64

  type Byte = b: nat | b < 256

  /** 2^(8 * size), for the sizes of numbers that are emitted. */
  function Span(size: nat): (m: int)
    ensures m > 0
  {
    if size == 0 then 1 else 256 * Span(size - 1)
  }

  /** The low bytes of a number, the lowest first. */
  function LittleEndian(v: int, size: nat): (s: seq<Byte>)
    ensures |s| == size
    decreases size
  {
    if size == 0 then [] else [v % 256] + LittleEndian(v / 256, size - 1)
  }

  function Unsigned(s: seq<Byte>): nat {
    if s == [] then 0 else s[0] + 256 * Unsigned(s[1..])
  }

  /** A number in two's complement. */
  function SignExtended(s: seq<Byte>): int {
    var v := Unsigned(s);
    if 2 * v < Span(|s|) then v else v - Span(|s|)
  }

  ghost predicate CongruentIn(x: int, y: int, size: nat) {
    exists k: int :: x - y == k * Span(size)
  }

  lemma {:induction false} LittleEndianMod(v: int, size: nat)
    ensures exists k: int :: v == Unsigned(LittleEndian(v, size)) + k * Span(size)
    ensures Unsigned(LittleEndian(v, size)) < Span(size)
    decreases size
  {
    if size == 0 {
      assert v == 0 + v * Span(0);
    } else {
      LittleEndianMod(v / 256, size - 1);
      var k: int :| v / 256 == Unsigned(LittleEndian(v / 256, size - 1)) + k * Span(size - 1);
      assert LittleEndian(v, size)[1..] == LittleEndian(v / 256, size - 1);
      assert v == Unsigned(LittleEndian(v, size)) + k * Span(size) by {
        Regroup(k, Span(size - 1));
      }
    }
  }

  lemma Regroup(k: int, m: int)
    ensures k * (256 * m) == 256 * (k * m)
  {
  }

  /** A number read back from its low bytes is congruent to it. */
  lemma SignExtendedCongruent(v: int, size: nat)
    ensures CongruentIn(SignExtended(LittleEndian(v, size)), v, size)
  {
    hide LittleEndian, Unsigned, Span;
    LittleEndianMod(v, size);
    var u := Unsigned(LittleEndian(v, size));
    var k: int :| v == u + k * Span(size);
    if 2 * u < Span(size) {
      assert u - v == (-k) * Span(size) by { Times(-k, k, Span(size)); }
    } else {
      assert u - Span(size) - v == (-k - 1) * Span(size) by { Times(-k - 1, k, Span(size)); }
    }
  }

  lemma Times(a: int, k: int, m: int)
    requires a == -k || a == -k - 1
    ensures a * m == if a == -k then -(k * m) else -(k * m) - m
  {
  }

  /** It is the number itself if and only if that is in range. */
  lemma SignExtendedIff(v: int, size: nat)
    requires size > 0
    ensures SignExtended(LittleEndian(v, size)) == v <==> -Span(size) <= 2 * v < Span(size)
    ensures -Span(size) <= 2 * SignExtended(LittleEndian(v, size)) < Span(size)
  {
    hide LittleEndian, Unsigned, Span;
    LittleEndianMod(v, size);
    SignExtendedCongruent(v, size);
    var w := SignExtended(LittleEndian(v, size));
    if -Span(size) <= 2 * v < Span(size) {
      var k: int :| w - v == k * Span(size);
      SmallMultiple(k, Span(size));
    }
  }

  /** Congruence for a larger size is congruence for a smaller one. */
  lemma CongruentSmaller(x: int, y: int, size: nat, smaller: nat)
    requires smaller <= size && CongruentIn(x, y, size)
    ensures CongruentIn(x, y, smaller)
    decreases size
  {
    hide Span;
    if smaller < size {
      var k: int :| x - y == k * Span(size);
      assert x - y == (256 * k) * Span(size - 1) by {
        SpanStep(size);
        Regroup(k, Span(size - 1));
        Regroup2(k, Span(size - 1));
      }
      CongruentSmaller(x, y, size - 1, smaller);
    }
  }

  lemma SpanStep(size: nat)
    requires size > 0
    ensures Span(size) == 256 * Span(size - 1)
  {
  }

  lemma Regroup2(k: int, m: int)
    ensures 256 * (k * m) == (256 * k) * m
  {
  }

  lemma Spans()
    ensures Span(1) == 0x100 && Span(2) == 0x1_0000 && Span(4) == 0x1_0000_0000 && Span(8) == MODULUS
  {
    assert Span(3) == 0x100_0000 && Span(5) == 0x100_0000_0000 && Span(6) == 0x1_0000_0000_0000;
    assert Span(7) == 0x100_0000_0000_0000;
  }

  /** Congruent numbers have the same low bytes. */
  lemma {:induction false} SameLowBytes(x: int, y: int, size: nat)
    requires CongruentIn(x, y, size)
    ensures LittleEndian(x, size) == LittleEndian(y, size)
    decreases size
  {
    hide Span;
    if size > 0 {
      var k: int :| x - y == k * Span(size);
      SpanStep(size);
      Regroup(k, Span(size - 1));
      LowByte(x, y, k * Span(size - 1));
      assert x / 256 - y / 256 == k * Span(size - 1);
      SameLowBytes(x / 256, y / 256, size - 1);
    }
  }

  lemma LowByte(x: int, y: int, q: int)
    requires x - y == 256 * q
    ensures x % 256 == y % 256 && x / 256 - y / 256 == q
  {
  }

  lemma CongruentFacts(x: int, y: int, size: nat)
    ensures CongruentIn(x, x, size)
    ensures CongruentIn(x, y, size) ==> CongruentIn(y, x, size)
  {
    hide Span;
    assert x - x == 0 * Span(size);
    if CongruentIn(x, y, size) {
      var k: int :| x - y == k * Span(size);
      assert y - x == (-k) * Span(size) by { Times(-k, k, Span(size)); }
    }
  }

  lemma CongruentTransIn(x: int, y: int, z: int, size: nat)
    requires CongruentIn(x, y, size) && CongruentIn(y, z, size)
    ensures CongruentIn(x, z, size)
  {
    hide Span;
    var j: int :| x - y == j * Span(size);
    var k: int :| y - z == k * Span(size);
    SumTimes(j, k, Span(size));
    assert x - z == (j + k) * Span(size);
  }
}
