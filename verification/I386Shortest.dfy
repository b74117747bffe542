/** No encoding of a memory operand has a shorter displacement. */
module I386Shortest {
  import opened ByteOrder
  import opened I386Decode
  import opened I386Operand
  import opened I386Encodable
  import opened I386Insn

  /** The number has no more bits than the addresses, or than 32. */
  predicate InAddress(v: int, size: nat) {
    if size == 2 then -0x8000 <= v < 0x1_0000 else -0x8000_0000 <= v < 0x1_0000_0000
  }

  /** A displacement of n bytes, extended with its sign, can be w. */
  predicate FitsBytes(w: int, n: nat) {
    -Span(n) <= 2 * w < Span(n)
  }

  /** Whatever fields decode to the operand, their displacement has at least as
      many bytes as are emitted, if it stands for the one written. */
  lemma ShortestDisp(mode: Mode, o: Operand, size: nat, f: Fields, rex: Rex, w: int)
    requires Parseable(mode, o) && SizeFits(mode, size) && EncodedBy(o, size, mode == Code64, f, rex)
    requires InAddress(DispOf(o), size)
    requires FitsBytes(w, DispSizeOf(f, size != 2)) && CongruentIn(w, DispOf(o), if size == 2 then 2 else 4)
    ensures DispNeeded(o, size) <= DispSizeOf(f, size != 2)
  {
    hide EncodedBy, CongruentIn, Span, AddressOf;
    Spans();
    SmallSpans();
    FormNeeds(mode, o, size, f, rex);
    if DispSizeOf(f, size != 2) <= 1 {
      SmallDisp(w, DispOf(o), size);
    }
  }

  lemma SmallSpans()
    ensures Span(0) == 1 && Span(1) == 256
  {
  }

  /** What the form of the operand asks for, whatever the displacement is. */
  lemma FormNeeds(mode: Mode, o: Operand, size: nat, f: Fields, rex: Rex)
    requires Parseable(mode, o) && SizeFits(mode, size) && EncodedBy(o, size, mode == Code64, f, rex)
    ensures DispSizeOf(f, size != 2) in {0, 1, if size == 2 then 2 else 4}
    ensures o.base.NoRegister? || o.base.r.kind == IP ==> DispSizeOf(f, size != 2) == if size == 2 then 2 else 4
    ensures o.base.Reg? && NeedsDisp(o, size) ==> DispSizeOf(f, size != 2) > 0
  {
  }

  /** A byte that stands for the number is the number folded. */
  lemma SmallDisp(w: int, v: int, size: nat)
    requires -128 <= w < 128 && InAddress(v, size) && size in {2, 4, 8}
    requires CongruentIn(w, v, if size == 2 then 2 else 4)
    ensures Folded(v, size) == w
  {
    hide Span;
    Spans();
    var k: int :| w - v == k * Span(if size == 2 then 2 else 4);
  }
}
