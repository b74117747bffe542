/** The instruction being assembled: its memory operand is checked, its
    displacement shortened, and ModRM, SIB, REX and displacement bytes
    produced. */
module I386Insn {
  import opened Int64
  import opened ByteOrder
  import opened I386Decode
  import opened I386Operand
  import opened I386Encodable

  datatype DispType = Disp8 | Disp16 | Disp32 | Disp32S | Disp64

  const ESCAPE_TO_TWO_BYTE_ADDRESSING: nat := 4
  const NO_INDEX_REGISTER: nat := 4
  const NO_BASE_REGISTER: nat := 5
  const NO_BASE_REGISTER_16: nat := 6

  /** Numbers of so many bits without a sign are given one. */
  function Folded16(v: int): int {
    if 0 <= v < 0x1_0000 && v >= 0x8000 then v - 0x1_0000 else v
  }

  function Folded32(v: int): int {
    if 0 <= v < 0x1_0000_0000 && v >= 0x8000_0000 then v - 0x1_0000_0000 else v
  }

  function FitsInSignedByte(v: int): bool {
    -128 <= v <= 127
  }

  function FitsInSignedLong(v: int): bool {
    -0x8000_0000 <= v < 0x8000_0000
  }

  function FitsInUnsignedLong(v: int): bool {
    0 <= v < 0x1_0000_0000
  }

  /** The low bytes of a value, which first gets a sign if it is a 32-bit
      number without one. */
  function OffsetInRange(v: int, size: nat, rela: bool): int {
    (if rela then v else Folded32(v)) % Span(size)
  }

  function ModeFromDispSize(types: set<DispType>): nat {
    if Disp8 in types then 1 else if Disp16 in types || Disp32 in types || Disp32S in types then 2 else 0
  }

  /** A displacement as the number with a sign that its address size makes of
      it, if it has no more bits than that. */
  function Folded(v: int, size: nat): int {
    if size == 2 then Folded16(v) else Folded32(v)
  }

  /** How many bytes the displacement of an operand takes. */
  function DispNeeded(o: Operand, size: nat): nat {
    var v := Folded(DispOf(o), size);
    if o.base.NoRegister? || o.base.r.kind == IP then if size == 2 then 2 else 4
    else if v == 0 && !NeedsDisp(o, size) then 0
    else if FitsInSignedByte(v) then 1
    else if size == 2 then 2 else 4
  }

  /** Without a displacement the base would mean something else. */
  predicate NeedsDisp(o: Operand, size: nat) {
    o.base.Reg? && o.base.r.number == 5 && (size == 2 ==> o.index.NoRegister?)
  }

  function EmittedSize(types: set<DispType>): nat {
    if Disp8 in types then 1 else if Disp64 in types then 8 else if Disp16 in types then 2 else 4
  }

  /** A byte displacement stands for the value in any larger size up to that
      of the addresses, or 32 bits. */
  ghost predicate ByteStands(v: int, size: nat) {
    CongruentIn(SignExtended(LittleEndian(v, 1)), v, size)
  }

  class Insn {
    const mode: Mode
    ghost const operand: Operand
    var addrPrefix: bool
    var base: MaybeRegister
    var index: MaybeRegister
    var log2: nat
    var baseIndex: bool
    var types: set<DispType>
    var disp: MaybeDisp
    var f: Fields
    var rex: Rex

    function Size(): nat
      reads this
    {
      AddressSize(mode, addrPrefix)
    }

    ghost predicate HasOperand()
      reads this
    {
      && Parseable(mode, operand)
      && base == operand.base && index == operand.index && log2 == operand.log2 && baseIndex == operand.parentheses
      && f == Fields(0, 0, 0, 0, 0) && rex == Rex(false, false)
    }

    /** What the displacement parser leaves. */
    ghost predicate DispParsed()
      reads this
    {
      && disp == operand.disp
      && (disp.NoDisp? ==> types == {})
      && (disp.Disp? ==>
            if mode == Code64 then types == {Disp32S, Disp32} || types == {Disp32S, Disp32, Disp64}
            else types == {if Size() == 2 then Disp16 else Disp32})
    }

    constructor (mode: Mode, addrPrefix: bool, o: Operand)
      requires Parseable(mode, o)
      ensures this.mode == mode && operand == o && this.addrPrefix == addrPrefix
      ensures HasOperand() && DispParsed()
    {
      this.mode, operand, this.addrPrefix := mode, o, addrPrefix;
      base, index, log2, baseIndex, disp := o.base, o.index, o.log2, o.parentheses, o.disp;
      f, rex := Fields(0, 0, 0, 0, 0), Rex(false, false);
      var bigdisp := Disp32;
      if mode == Code64 {
        if !addrPrefix {
          bigdisp := Disp64;
        }
      } else if (mode == Code16) != addrPrefix {
        bigdisp := Disp16;
      }
      types := if o.disp.NoDisp? then {} else if mode == Code64 then {bigdisp, Disp32S, Disp32} else {bigdisp};
    }

    /** The checks of base and index for the current address size. */
    predicate Checks()
      reads this
    {
      if mode == Code64 then
        var regXX := if addrPrefix then R32 else R64;
        && !(base.Reg? && base.r.kind != regXX && (base.r.kind != IP || index.Reg?))
        && !(index.Reg? && !(index.r.kind == regXX && index.r.baseIndex))
      else if (mode == Code16) != addrPrefix then
        && !(base.Reg? && !(base.r.kind == R16 && base.r.baseIndex))
        && !(index.Reg? && (!(index.r.kind == R16 && index.r.baseIndex)
                            || !(base.Reg? && base.r.number < 6 && index.r.number >= 6 && log2 == 0)))
      else
        && !(base.Reg? && base.r.kind != R32)
        && !(index.Reg? && !(index.r.kind == R32 && index.r.baseIndex))
    }

    lemma ChecksIff()
      requires HasOperand()
      ensures Checks() <==> Accepts(operand, Size(), mode == Code64)
    {
    }

    /** An operand of another address size makes for an address size prefix;
        an operand that fits neither is refused. */
    method IndexCheck() returns (ok: bool)
      requires HasOperand() && DispParsed()
      modifies `addrPrefix, `types
      ensures var size := AddressSize(mode, old(addrPrefix));
        && (ok <==> Accepts(operand, size, mode == Code64)
                    || (!old(addrPrefix) && Accepts(operand, AddressSize(mode, true), mode == Code64)))
        && (ok ==> (addrPrefix <==> old(addrPrefix) || !Accepts(operand, size, mode == Code64))
                   && Accepts(operand, Size(), mode == Code64))
      ensures var size := AddressSize(mode, old(addrPrefix));
        && (ok <==> Encodable(operand, size, mode == Code64)
                    || (!old(addrPrefix) && Encodable(operand, AddressSize(mode, true), mode == Code64)))
        && (ok ==> (addrPrefix <==> old(addrPrefix) || !Encodable(operand, size, mode == Code64)))
      ensures HasOperand() && DispParsed()
    {
      hide Accepts, Checks, Encodable, Parseable;
      AcceptsIff(mode, operand, AddressSize(mode, addrPrefix));
      AcceptsIff(mode, operand, AddressSize(mode, true));
      ChecksIff();
      ok := Checks();
      if !ok && !addrPrefix {
        addrPrefix := true;
        if mode != Code64 && (Disp16 in types || Disp32 in types) {
          types := (types - {Disp16, Disp32}) + if Disp16 in types then {Disp32} else {Disp16};
        }
        ChecksIff();
        ok := Checks();
      }
    }

    /** How the displacement stands before it is encoded: dropped when zero,
        and otherwise marked for a byte only if a byte can stand for it. */
    ghost predicate DispReady()
      reads this
    {
      && (disp.NoDisp? ==> types == {} && DispOf(operand) == 0 && baseIndex)
      && (disp.Disp? ==>
            && disp == operand.disp
            && types - {Disp8, Disp64} == (if mode == Code64 then {Disp32S, Disp32}
                                           else if Size() == 2 then {Disp16} else {Disp32})
            && (mode != Code64 ==> Disp64 !in types)
            && (Disp8 in types <==> FitsInSignedByte(Folded(disp.value, Size())))
            && (Disp8 in types ==> ByteStands(disp.value, if Size() == 2 then 2 else 4))
            && (baseIndex ==> disp.value != 0))
    }

    method OptimizeDisp()
      requires HasOperand() && DispParsed()
      modifies `types, `disp
      ensures HasOperand() && DispReady()
    {
      hide Span, LittleEndian, SignExtended, CongruentIn, InTable;
      if disp.NoDisp? {
        return;
      }
      var d := disp.value;
      if Disp16 in types && 0 <= d < 0x1_0000 {
        d := Folded16(d);
        types := types - {Disp64};
      }
      if Disp32 in types && 0 <= d < 0x1_0000_0000 {
        d := Folded32(d);
        types := types - {Disp64};
      }
      if d == 0 && baseIndex {
        types := {};
        disp := NoDisp;
        return;
      }
      if mode == Code64 {
        if FitsInSignedLong(d) {
          types := types + {Disp32S};
        }
        if FitsInUnsignedLong(d) {
          types := types + {Disp32};
        }
      }
      if (Disp32 in types || Disp32S in types || Disp16 in types) && FitsInSignedByte(d) {
        types := types + {Disp8};
        FoldedByte(disp.value, d, if Size() == 2 then 2 else 4);
      }
    }

    /** No template for a memory operand has a 64-bit displacement. */
    method MatchAnyMem()
      requires HasOperand() && DispReady()
      modifies `types
      ensures HasOperand() && DispReady() && Disp64 !in types
    {
      types := types - {Disp64};
    }

    /** What is emitted for the displacement stands for it: a byte in the size
        of the addresses, or in 32 bits where they are longer; otherwise as
        many bytes as the addresses have, up to four. */
    ghost predicate DispFinal(size: nat)
      reads this
    {
      if disp.NoDisp? then size == 0 && DispOf(operand) == 0
      else
        && disp.value == DispOf(operand) && size == EmittedSize(types)
        && (size == 1 ==> ByteStands(disp.value, if Size() == 2 then 2 else 4))
        && (size != 1 ==> size == if Size() == 2 then 2 else 4)
    }

    /** That is as many bytes as the operand needs. */
    ghost predicate DispExact(size: nat)
      reads this
    {
      DispFinal(size) && size == DispNeeded(operand, Size())
    }

    method FakeZeroDisplacement()
      requires disp.NoDisp?
      modifies `disp
      ensures disp == Disp(0)
    {
      disp := Disp(0);
    }

    method BuildModrm()
      requires HasOperand() && DispReady() && Disp64 !in types && Accepts(operand, Size(), mode == Code64)
      modifies `f, `rex, `types, `disp
      ensures DispExact(DispSizeOf(f, Size() != 2))
      ensures Encodes(f, rex, operand, Size(), mode == Code64, DispSizeOf(f, Size() != 2))
    {
      hide ByteStands;
      if base.NoRegister? {
        BuildWithoutBase();
      } else if base.r.kind == IP {
        BuildRelative();
      } else if base.r.kind == R16 {
        Build16();
      } else {
        Build32();
      }
    }

    method BuildWithoutBase()
      requires HasOperand() && DispReady() && Disp64 !in types && Accepts(operand, Size(), mode == Code64)
      requires base.NoRegister?
      modifies `f, `rex, `types, `disp
      ensures DispExact(DispSizeOf(f, Size() != 2))
      ensures Encodes(f, rex, operand, Size(), mode == Code64, DispSizeOf(f, Size() != 2))
    {
      hide ByteStands;
      if disp.NoDisp? {
        FakeZeroDisplacement();
      }
      if index.NoRegister? {
        if mode == Code64 {
          f := f.(rm := ESCAPE_TO_TWO_BYTE_ADDRESSING, base := NO_BASE_REGISTER, index := NO_INDEX_REGISTER);
          types := if !addrPrefix then {Disp32S} else {Disp32};
        } else if (mode == Code16) != addrPrefix {
          f := f.(rm := NO_BASE_REGISTER_16);
          types := {Disp16};
        } else {
          f := f.(rm := NO_BASE_REGISTER);
          types := {Disp32};
        }
      } else {
        f := f.(rm := ESCAPE_TO_TWO_BYTE_ADDRESSING, base := NO_BASE_REGISTER, index := index.r.number, scale := log2);
        types := if mode != Code64 then {Disp32} else {Disp32S};
        if index.r.extended {
          rex := rex.(index := true);
        }
      }
    }

    /** Relative to the instruction pointer. */
    method BuildRelative()
      requires HasOperand() && DispReady() && Disp64 !in types && Accepts(operand, Size(), mode == Code64)
      requires base.Reg? && base.r.kind == IP
      modifies `f, `rex, `types, `disp
      ensures DispExact(DispSizeOf(f, Size() != 2))
      ensures Encodes(f, rex, operand, Size(), mode == Code64, DispSizeOf(f, Size() != 2))
    {
      hide ByteStands;
      f := f.(rm := NO_BASE_REGISTER);
      types := {Disp32S};
      if disp.NoDisp? {
        FakeZeroDisplacement();
      }
    }

    method Build16()
      requires HasOperand() && DispReady() && Disp64 !in types && Accepts(operand, Size(), mode == Code64)
      requires base.Reg? && base.r.kind == R16
      modifies `f, `rex, `types, `disp
      ensures DispExact(DispSizeOf(f, Size() != 2))
      ensures Encodes(f, rex, operand, Size(), mode == Code64, DispSizeOf(f, Size() != 2))
    {
      hide ByteStands;
      if base.r.number == BX {
        f := f.(rm := if index.NoRegister? then 7 else index.r.number - 6);
      } else if base.r.number == BP {
        if index.NoRegister? {
          f := f.(rm := 6);
          if types == {} {
            types := {Disp8};
            FakeZeroDisplacement();
            FoldedByte(0, 0, 2);
          }
        } else {
          f := f.(rm := index.r.number - 6 + 2);
        }
      } else {
        f := f.(rm := base.r.number - 6 + 4);
      }
      f := f.(mod := ModeFromDispSize(types));
    }

    /** The size of a displacement to a 32- or 64-bit base; base 5 needs one. */
    method SettleDisp()
      requires HasOperand() && DispReady() && Disp64 !in types && Accepts(operand, Size(), mode == Code64)
      requires base.Reg? && base.r.kind != IP && base.r.kind != R16
      modifies `types, `disp
      ensures HasOperand() && (base.r.number == 5 ==> disp.Disp?)
      ensures DispExact(if disp.NoDisp? then 0 else EmittedSize(types))
      ensures ModeFromDispSize(types) == if disp.NoDisp? then 0 else if EmittedSize(types) == 1 then 1 else 2
    {
      hide ByteStands;
      assert disp.Disp? ==> Disp32 in types - {Disp8, Disp64} && Disp16 !in types - {Disp8, Disp64};
      if mode == Code64 && types != {} {
        types := (types * {Disp8}) + if !addrPrefix then {Disp32S} else {Disp32};
      }
      if base.r.number == 5 && disp.NoDisp? {
        FakeZeroDisplacement();
        types := types + {Disp8};
        FoldedByte(0, 0, 4);
      }
    }

    method Build32()
      requires HasOperand() && DispReady() && Disp64 !in types && Accepts(operand, Size(), mode == Code64)
      requires base.Reg? && base.r.kind != IP && base.r.kind != R16
      modifies `f, `rex, `types, `disp
      ensures DispExact(DispSizeOf(f, Size() != 2))
      ensures Encodes(f, rex, operand, Size(), mode == Code64, DispSizeOf(f, Size() != 2))
    {
      hide ByteStands, DispReady, EmittedSize, ModeFromDispSize;
      SettleDisp();
      f := f.(rm := base.r.number, base := base.r.number);
      if base.r.extended {
        rex := rex.(base := true);
      }
      f := f.(scale := log2);
      if index.NoRegister? {
        f := f.(index := NO_INDEX_REGISTER);
      } else {
        f := f.(index := index.r.number, rm := ESCAPE_TO_TWO_BYTE_ADDRESSING);
        if index.r.extended {
          rex := rex.(index := true);
        }
      }
      f := f.(mod := ModeFromDispSize(types));
    }

    /** The ModRM byte, the SIB byte where there is one, and the displacement
        where there is one. */
    method Output(reg: nat, rela: bool) returns (bytes: seq<Byte>)
      requires reg < 8 && FieldsFit(f) && DispFinal(DispSizeOf(f, Size() != 2))
      requires base == operand.base && Accepts(operand, Size(), mode == Code64)
      requires Size() == 2 && f.rm == 4 ==> base.Reg?
      ensures AreBytes(HeadBytes(f, reg, Size() != 2))
      ensures bytes == HeadBytes(f, reg, Size() != 2) + LittleEndian(DispOf(operand), DispSizeOf(f, Size() != 2))
    {
      hide LittleEndian, Span, ByteStands;
      FieldBits(f.rm, reg, f.mod);
      FieldBits(f.base, f.index, f.scale);
      bytes := [f.rm + reg * 8 + f.mod * 64];
      if f.rm == ESCAPE_TO_TWO_BYTE_ADDRESSING && f.mod != 3 && !(base.Reg? && base.r.kind == R16) {
        bytes := bytes + [f.base + f.index * 8 + f.scale * 64];
      }
      assert bytes == HeadBytes(f, reg, Size() != 2);
      if disp.Disp? {
        var size := EmittedSize(types);
        LowBytesInRange(disp.value, size, rela);
        bytes := bytes + LittleEndian(OffsetInRange(disp.value, size, rela), size);
      } else {
        assert LittleEndian(DispOf(operand), 0) == [] by { NoBytes(DispOf(operand)); }
      }
    }

    /** Assemble a memory operand: it is refused exactly when it has no encoding
        with either address size; otherwise the bytes decode to the address
        written, with as many bytes of displacement as it needs. That is
        congruent to the one written modulo the size of the addresses, and with
        64-bit addresses modulo 2^32; there it is the one written if and only if
        that fits in 32 bits with a sign. */
    method Assemble(reg: nat, rela: bool) returns (ok: bool, bytes: seq<Byte>)
      requires reg < 8 && HasOperand() && DispParsed()
      modifies this
      ensures var size := AddressSize(mode, old(addrPrefix));
        ok <==> Encodable(operand, size, mode == Code64)
                || (!old(addrPrefix) && Encodable(operand, AddressSize(mode, true), mode == Code64))
      ensures ok ==>
        var d := Decode(Size() != 2, mode == Code64, rex, bytes);
        && d.Decoded? && d.reg == reg && d.length == |bytes|
        && SameForm(operand, d.address)
        && |bytes| == |HeadBytes(f, reg, Size() != 2)| + DispNeeded(operand, Size())
        && CongruentIn(d.address.disp, DispOf(operand), if Size() == 2 then 2 else 4)
        && -0x8000_0000 <= d.address.disp < 0x8000_0000
      ensures ok && Size() == 8 && InRange(DispOf(operand)) ==>
        var d := Decode(true, mode == Code64, rex, bytes);
        d.Decoded? && (CongruentIn(d.address.disp, DispOf(operand), 8) <==> FitsInSignedLong(DispOf(operand)))
      ensures ok ==>
        && (addrPrefix <==> old(addrPrefix) || !Encodable(operand, AddressSize(mode, old(addrPrefix)), mode == Code64))
        && (mode != Code64 ==> rex == Rex(false, false))
    {
      hide Encodable, DispNeeded, ByteStands, LittleEndian, Span, Decode, SignExtended, CongruentIn, Accepts, InTable;
      bytes := [];
      ok := IndexCheck();
      if !ok {
        return;
      }
      OptimizeDisp();
      MatchAnyMem();
      BuildModrm();
      var size := DispSizeOf(f, Size() != 2);
      EscapeNeedsBase();
      bytes := Output(reg, rela);
      FieldsDecode(f, reg, Size() != 2, mode == Code64, rex, LittleEndian(DispOf(operand), size));
      DispApart(f, Size() != 2, mode == Code64, rex, SignExtended(LittleEndian(DispOf(operand), size)));
      EmittedStands(DispOf(operand), size, if Size() == 2 then 2 else 4);
      if Size() == 8 && InRange(DispOf(operand)) {
        LongDisplacementIff(SignExtended(LittleEndian(DispOf(operand), size)), DispOf(operand));
      }
    }

    lemma EscapeNeedsBase()
      requires base == operand.base && Accepts(operand, Size(), mode == Code64)
      requires Encodes(f, rex, operand, Size(), mode == Code64, DispSizeOf(f, Size() != 2))
      ensures Size() == 2 && f.rm == 4 ==> base.Reg?
    {
    }
  }

  /** The fields stand for the operand, whatever the displacement, and leave
      room for just the displacement that is emitted. */
  ghost predicate Encodes(f: Fields, rex: Rex, o: Operand, size: nat, long: bool, dispSize: nat) {
    && FieldsFit(f) && DispSizeOf(f, size != 2) == dispSize
    && SameForm(o, AddressOf(f, size != 2, long, rex, 0))
    && (!long ==> rex == Rex(false, false))
  }

  lemma NoBytes(v: int)
    ensures LittleEndian(v, 0) == []
  {
  }

  lemma LowBytesInRange(v: int, size: nat, rela: bool)
    requires size in {1, 2, 4}
    ensures LittleEndian(OffsetInRange(v, size, rela), size) == LittleEndian(v, size)
  {
    hide LittleEndian, Span;
    var w := if rela then v else Folded32(v);
    Spans();
    var k := if w == v then 0 else -1;
    assert w - v == k * Span(4);
    CongruentSmaller(w, v, 4, size);
    ModCongruent(w, size);
    CongruentTransIn(w % Span(size), w, v, size);
    SameLowBytes(w % Span(size), v, size);
  }

  lemma ModCongruent(w: int, size: nat)
    ensures CongruentIn(w % Span(size), w, size)
  {
    hide Span;
    var k := -(w / Span(size));
    assert w % Span(size) - w == k * Span(size);
  }

  /** The bytes emitted stand for the displacement in the size of addresses,
      or in 32 bits. */
  lemma EmittedStands(v: int, emitted: nat, size: nat)
    requires size in {2, 4} && emitted in {0, 1, size} && (emitted == 0 ==> v == 0)
    requires emitted == 1 ==> ByteStands(v, size)
    ensures var w := SignExtended(LittleEndian(v, emitted));
      CongruentIn(w, v, size) && -0x8000_0000 <= w < 0x8000_0000
  {
    hide LittleEndian, Span, SignExtended;
    if emitted == 0 {
      NothingEmitted();
      CongruentFacts(0, 0, size);
    } else {
      SignExtendedCongruent(v, emitted);
      SignExtendedIff(v, emitted);
      Spans();
    }
  }

  lemma NothingEmitted()
    ensures SignExtended(LittleEndian(0, 0)) == 0
  {
  }

  /** With 64-bit addresses the displacement decoded is the one written, modulo
      2^64, if and only if that fits in 32 bits with a sign. */
  lemma LongDisplacementIff(decoded: int, written: int)
    requires InRange(written) && CongruentIn(decoded, written, 4) && -0x8000_0000 <= decoded < 0x8000_0000
    ensures CongruentIn(decoded, written, 8) <==> FitsInSignedLong(written)
  {
    hide Span;
    Spans();
    if FitsInSignedLong(written) {
      var k: int :| decoded - written == k * Span(4);
      CongruentFacts(written, written, 8);
    }
    if CongruentIn(decoded, written, 8) {
      var k: int :| decoded - written == k * Span(8);
      assert decoded == written;
    }
  }

  /** 0x80000000(%rbx) with 64-bit addresses, as it is emitted: the low four
      bytes of the displacement decode to another number. */
  lemma DisplacementSignLost()
    ensures LittleEndian(0x8000_0000, 4) == [0, 0, 0, 0x80]
    ensures Decode(true, true, Rex(false, false), [0x83, 0, 0, 0, 0x80])
         == Decoded(0, Address(Gpr(3), Absent, 0, -0x8000_0000), 5)
    ensures !CongruentIn(-0x8000_0000, 0x8000_0000, 8)
  {
    var v: int := 0x8000_0000;
    assert v / 0x100 / 0x100 / 0x100 == 0x80;
    assert [0x83, 0, 0, 0, 0x80][1..][..4] == [0, 0, 0, 0x80];
    Spans();
    assert -0x8000_0000 - v == -1 * Span(4);
    LongDisplacementIff(-0x8000_0000, v);
  }

  lemma FoldedByte(v: int, d: int, size: nat)
    requires size in {2, 4} && -128 <= d <= 127
    requires d == v || (size == 2 && d == v - 0x1_0000) || (size == 4 && d == v - 0x1_0000_0000)
    ensures ByteStands(v, size)
  {
    hide LittleEndian, SignExtended, Span;
    Spans();
    var k := if d == v then 0 else -1;
    assert d - v == k * Span(size);
    CongruentSmaller(d, v, size, 1);
    SameLowBytes(d, v, 1);
    SignExtendedIff(d, 1);
  }
}
