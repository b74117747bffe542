/** Which memory operands have an encoding at all, told by the decoder. */
module I386Encodable {
  import opened I386Decode
  import opened I386Operand

  /** The registers are of the size of the addresses, or the instruction
      pointer as base. */
  predicate RegistersOf(o: Operand, size: nat) {
    && (o.base.Reg? ==> o.base.r.kind == IP || o.base.r.kind == KindFor(size))
    && (o.index.Reg? ==> o.index.r.kind == KindFor(size))
  }

  /** Some ModRM and SIB, with a REX prefix in the 64-bit mode only, decode to
      the operand. */
  ghost predicate Encodable(o: Operand, size: nat, long: bool) {
    RegistersOf(o, size) && exists f, rex :: EncodedBy(o, size, long, f, rex)
  }

  ghost predicate EncodedBy(o: Operand, size: nat, long: bool, f: Fields, rex: Rex) {
    && FieldsFit(f) && (!long ==> rex == Rex(false, false))
    && SameForm(o, AddressOf(f, size != 2, long, rex, 0))
  }

  predicate SizeFits(mode: Mode, size: nat) {
    if mode == Code64 then size in {4, 8} else size in {2, 4}
  }

  /** An operand is accepted for an address size if and only if it can be
      encoded. */
  lemma AcceptsIff(mode: Mode, o: Operand, size: nat)
    requires Parseable(mode, o) && SizeFits(mode, size)
    ensures Accepts(o, size, mode == Code64) <==> Encodable(o, size, mode == Code64)
  {
    hide Accepts, EncodedBy;
    if Encodable(o, size, mode == Code64) {
      var f, rex :| EncodedBy(o, size, mode == Code64, f, rex);
      EncodedAccepted(mode, o, size, f, rex);
    }
    if Accepts(o, size, mode == Code64) {
      if size == 2 {
        AcceptedEncoded16(mode, o);
      } else {
        AcceptedEncoded32(mode, o, size);
      }
    }
  }

  lemma EncodedAccepted(mode: Mode, o: Operand, size: nat, f: Fields, rex: Rex)
    requires Parseable(mode, o) && SizeFits(mode, size) && RegistersOf(o, size)
    requires EncodedBy(o, size, mode == Code64, f, rex)
    ensures Accepts(o, size, mode == Code64)
  {
  }

  lemma AcceptedEncoded16(mode: Mode, o: Operand)
    requires Parseable(mode, o) && SizeFits(mode, 2) && Accepts(o, 2, mode == Code64)
    ensures Encodable(o, 2, mode == Code64)
  {
    var rm :=
      if o.base.NoRegister? then 6
      else if o.index.Reg? then
        (if o.base.r.number == BX then 0 else 2) + (if o.index.r.number == SI then 0 else 1)
      else if o.base.r.number == SI then 4
      else if o.base.r.number == DI then 5
      else if o.base.r.number == BP then 6
      else 7;
    var f := Fields(if o.base.Reg? then 1 else 0, rm, 0, 0, 0);
    assert EncodedBy(o, 2, mode == Code64, f, Rex(false, false));
  }

  lemma AcceptedEncoded32(mode: Mode, o: Operand, size: nat)
    requires Parseable(mode, o) && SizeFits(mode, size) && size != 2 && Accepts(o, size, mode == Code64)
    ensures Encodable(o, size, mode == Code64)
  {
    if o.base.Reg? && o.base.r.kind == IP {
      assert EncodedBy(o, size, mode == Code64, Fields(0, 5, 0, 0, 0), Rex(false, false));
    } else {
      var f := Fields(if o.base.Reg? then 1 else 0, 4, if o.base.Reg? then o.base.r.number else 5,
                      if o.index.Reg? then o.index.r.number else 4, o.log2);
      var rex := Rex(o.index.Reg? && o.index.r.extended, o.base.Reg? && o.base.r.extended);
      assert EncodedBy(o, size, mode == Code64, f, rex);
    }
  }
}
