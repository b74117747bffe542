/** Constant immediates of arithmetic instructions: from the number written to
    the bytes emitted. */
module I386Immediate {
  import opened Int64
  import opened ByteOrder
  import opened I386Insn

  datatype ImmType = Imm8 | Imm8S | Imm16 | Imm32 | Imm32S | Imm64

  const ENC_IMM: set<ImmType> := {Imm8, Imm16, Imm32, Imm32S}

  function FitsInUnsignedByte(v: int): bool {
    0 <= v < 0x100
  }

  function FitsInWord(v: int): bool {
    -0x8000 <= v < 0x1_0000
  }

  /** Imm1, which no arithmetic template takes, is left out. */
  function SmallestImmType(v: int): set<ImmType> {
    if FitsInSignedByte(v) then {Imm8S, Imm8, Imm16, Imm32, Imm32S, Imm64}
    else if FitsInUnsignedByte(v) then {Imm8, Imm16, Imm32, Imm32S, Imm64}
    else if FitsInWord(v) then {Imm16, Imm32, Imm32S, Imm64}
    else if FitsInSignedLong(v) then {Imm32, Imm32S, Imm64}
    else if FitsInUnsignedLong(v) then {Imm32, Imm64}
    else {Imm64}
  }

  /** The types left when the operand size, in bytes, is known. */
  function SuffixTypes(size: nat): set<ImmType> {
    if size == 1 then {Imm8, Imm8S}
    else if size == 2 then {Imm16}
    else if size == 8 then {Imm64, Imm32S}
    else {Imm32}
  }

  function ImmSize(types: set<ImmType>): nat {
    if Imm8 in types || Imm8S in types then 1
    else if Imm64 in types then 8
    else if Imm16 in types then 2
    else 4
  }

  class Immediate {
    const rela: bool
    const size: nat
    ghost const written: int
    var value: int
    var types: set<ImmType>

    ghost predicate SizeKnown() {
      size in {1, 2, 4, 8} && InRange(written) && (size == 8 ==> rela)
    }

    /** A constant outside the 64-bit mode gets a sign in 32 bits. */
    constructor (written: int, size: nat, rela: bool)
      requires size in {1, 2, 4, 8} && InRange(written) && (size == 8 ==> rela)
      ensures SizeKnown() && this.written == written && this.size == size && this.rela == rela
      ensures types == {Imm64} && value == if rela then written else Folded32(written)
    {
      this.written, this.size, this.rela := written, size, rela;
      types := {Imm64};
      value := if rela then written else Folded32(written);
    }

    /** The value stands for the number written, and a type that sign extends a
        byte is there only if that gives the value; for 64-bit operands only a
        32-bit number with a sign has any encoding. */
    ghost predicate Optimized()
      reads this
    {
      && CongruentIn(value, written, size)
      && (size > 1 ==> (Imm8S in types <==> FitsInSignedByte(value)))
      && (size == 1 ==> Imm8 in types) && (size == 2 ==> Imm16 in types) && (size == 4 ==> Imm32 in types)
      && (size == 8 ==> value == written && Imm32 !in types && (Imm32S in types <==> FitsInSignedLong(value)))
      && (size == 8 && !FitsInSignedLong(value) ==> types == {Imm64})
    }

    method OptimizeImm()
      requires SizeKnown() && types == {Imm64} && value == if rela then written else Folded32(written)
      modifies this
      ensures Optimized()
      ensures size == 2 && -0x8000 <= written < 0x1_0000 ==> value == Folded16(written)
      ensures size == 4 && -0x8000_0000 <= written < 0x1_0000_0000 ==> value == Folded32(written)
    {
      hide CongruentIn, Span;
      if size == 4 {
        types := types + {Imm32, Imm64};
      } else if size == 2 {
        types := types + {Imm16, Imm32S, Imm32, Imm64};
      } else if size == 1 {
        types := types + {Imm16, Imm8, Imm8S, Imm32S, Imm32, Imm64};
      }
      ghost var parsed := value;
      if Imm16 in types && 0 <= value < 0x1_0000 {
        value := Folded16(value);
      }
      if Imm32 in types && 0 <= value < 0x1_0000_0000 {
        value := Folded32(value);
      }
      FoldsCongruent(written, parsed, value, size, rela);
      types := types + SmallestImmType(value);
      if size == 8 {
        types := types - {Imm32};
      }
    }

    /** The first template that fits: a sign extended byte, except for byte
        operands, or else any encodable immediate. */
    method MatchTemplate() returns (ok: bool)
      requires SizeKnown() && Optimized()
      modifies `types
      ensures ok <==> size != 8 || FitsInSignedLong(written)
      ensures ok ==> types == if size != 1 && FitsInSignedByte(value) then {Imm8S} else old(types) * ENC_IMM
    {
      hide CongruentIn;
      if size != 1 && Imm8S in types {
        types := {Imm8S};
        return true;
      }
      ok := types * ENC_IMM != {};
      assert size != 8 ==> ok by {
        assert Imm8 in types * ENC_IMM || Imm16 in types * ENC_IMM || Imm32 in types * ENC_IMM || size == 8;
      }
      assert size == 8 && Imm32S in types ==> Imm32S in types * ENC_IMM;
      types := types * ENC_IMM;
    }

    /** One type is chosen by the operand size, unless only one is left. */
    method FinalizeImm() returns (ok: bool)
      requires types * {Imm8, Imm8S, Imm16, Imm32, Imm32S, Imm64} != {}
      modifies `types
      ensures types == if |old(types)| == 1 then old(types) else old(types) * SuffixTypes(size)
      ensures ok <==> |types| == 1
    {
      ok := true;
      if |types| != 1 {
        types := types * SuffixTypes(size);
        ok := |types| == 1;
      }
    }

    method OutputImm() returns (bytes: seq<Byte>)
      requires ImmSize(types) in {1, 2, 4}
      ensures bytes == LittleEndian(value, ImmSize(types))
    {
      var n := ImmSize(types);
      LowBytesInRange(value, n, rela);
      bytes := LittleEndian(OffsetInRange(value, n, rela), n);
    }

    /** The bytes, extended with their sign to the operand size, are congruent
        to the constant written, modulo the operand size. Only a 64-bit operand
        can refuse a constant, and refuses just those that do not fit in 32
        bits with a sign. A constant that fits the operand takes one byte
        exactly when a sign extended byte is enough. */
    method Assemble() returns (ok: bool, bytes: seq<Byte>)
      requires SizeKnown() && types == {Imm64} && value == if rela then written else Folded32(written)
      modifies this
      ensures ok <==> size != 8 || FitsInSignedLong(written)
      ensures ok ==> |bytes| in {1, 2, 4} && |bytes| <= size && CongruentIn(SignExtended(bytes), written, size)
      ensures ok && size == 2 && -0x8000 <= written < 0x1_0000
              ==> (|bytes| == 1 <==> FitsInSignedByte(Folded16(written)))
      ensures ok && size == 4 && -0x8000_0000 <= written < 0x1_0000_0000
              ==> (|bytes| == 1 <==> FitsInSignedByte(Folded32(written)))
      ensures ok && size == 8 ==> (|bytes| == 1 <==> FitsInSignedByte(written))
      ensures ok && size == 1 ==> |bytes| == 1
      ensures ok && size > 1 ==> (|bytes| == 1 <==> FitsInSignedByte(value))
    {
      hide LittleEndian, SignExtended, Span, CongruentIn;
      OptimizeImm();
      ghost var optimized := types;
      bytes := [];
      ok := MatchTemplate();
      if !ok {
        return;
      }
      OneType(optimized, types, size, FitsInSignedByte(value));
      ok := FinalizeImm();
      bytes := OutputImm();
      Spans();
      ImmediateStands(value, written, |bytes|, size);
    }
  }

  lemma FoldsCongruent(written: int, parsed: int, value: int, size: nat, rela: bool)
    requires size in {1, 2, 4, 8} && parsed == if rela then written else Folded32(written)
    requires size == 8 ==> rela && value == parsed
    requires size == 4 ==> value == Folded32(parsed)
    requires size <= 2 ==> value == Folded32(if 0 <= parsed < 0x1_0000 then Folded16(parsed) else parsed)
    ensures CongruentIn(value, written, size)
  {
    hide Span, CongruentIn;
    Spans();
    if size == 8 {
      CongruentFacts(value, written, 8);
    } else {
      Folded32Congruent(written, size);
      Folded32Congruent(parsed, size);
      CongruentFacts(parsed, written, size);
      if size <= 2 && 0 <= parsed < 0x1_0000 {
        Folded16Congruent(parsed, size);
        assert Folded32(Folded16(parsed)) == Folded16(parsed);
      }
      CongruentTransIn(value, parsed, written, size);
    }
  }

  lemma Folded32Congruent(v: int, size: nat)
    requires size <= 4
    ensures CongruentIn(Folded32(v), v, size)
  {
    hide Span;
    Spans();
    var k := if Folded32(v) == v then 0 else -1;
    assert Folded32(v) - v == k * Span(4);
    CongruentSmaller(Folded32(v), v, 4, size);
  }

  lemma Folded16Congruent(v: int, size: nat)
    requires size <= 2
    ensures CongruentIn(Folded16(v), v, size)
  {
    hide Span;
    Spans();
    var k := if Folded16(v) == v then 0 else -1;
    assert Folded16(v) - v == k * Span(2);
    CongruentSmaller(Folded16(v), v, 2, size);
  }

  /** After the match a single type is left, or will be. */
  lemma OneType(optimized: set<ImmType>, matched: set<ImmType>, size: nat, fitsByte: bool)
    requires size in {1, 2, 4, 8}
    requires matched == if size != 1 && fitsByte then {Imm8S} else optimized * ENC_IMM
    requires size == 1 ==> Imm8 in optimized
    requires size == 2 ==> Imm16 in optimized
    requires size == 4 ==> Imm32 in optimized
    requires size == 8 ==> Imm32S in optimized && Imm32 !in optimized
    requires size != 1 && !fitsByte ==> Imm8S !in optimized
    ensures matched * {Imm8, Imm8S, Imm16, Imm32, Imm32S, Imm64} != {}
    ensures var final := if |matched| == 1 then matched else matched * SuffixTypes(size);
      |final| == 1 && ImmSize(final) == if size == 1 || fitsByte then 1 else if size == 2 then 2 else 4
  {
    var one := if size != 1 && fitsByte then Imm8S else if size == 1 then Imm8 else if size == 2 then Imm16
               else if size == 4 then Imm32 else Imm32S;
    assert one in matched;
    if |matched| == 1 {
      Singleton(matched, one);
    } else {
      assert matched * SuffixTypes(size) == {one};
    }
  }

  lemma Singleton(s: set<ImmType>, x: ImmType)
    requires |s| == 1 && x in s
    ensures s == {x}
  {
    assert |s - {x}| == 0;
    assert s == (s - {x}) + {x};
  }

  lemma ImmediateStands(value: int, written: int, n: nat, size: nat)
    requires CongruentIn(value, written, size) && n in {1, 2, 4} && n <= size && size in {1, 2, 4, 8}
    requires n < size ==> -Span(n) <= 2 * value < Span(n)
    ensures CongruentIn(SignExtended(LittleEndian(value, n)), written, size)
  {
    hide LittleEndian, SignExtended, Span, CongruentIn;
    if n == size {
      SignExtendedCongruent(value, n);
      CongruentTransIn(SignExtended(LittleEndian(value, n)), value, written, size);
    } else {
      SignExtendedIff(value, n);
    }
  }
}
