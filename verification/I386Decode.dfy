/** The addressing forms of an instruction, decoded from its ModRM byte on:
    sections 2.1.5 and 2.2.1 of the Intel 64 and IA-32 Software Developer's
    Manual, Volume 2. */
module I386Decode {
  import opened ByteOrder

  /** What supplies part of an address. */
  datatype Source = Absent | Gpr(number: nat) | Rip

  /** base + index * 2^scale + displacement */
  datatype Address = Address(base: Source, index: Source, scale: nat, disp: int)

  datatype Decoded =
    | Malformed
    | Decoded(reg: nat, address: Address, length: nat)

  /** The two bits of a REX prefix that extend base and index. */
  datatype Rex = Rex(index: bool, base: bool)

  const BX: nat := 3
  const BP: nat := 5
  const SI: nat := 6
  const DI: nat := 7

  function DispSize16(mod: nat, rm: nat): nat {
    if mod == 1 then 1 else if mod == 2 || rm == 6 then 2 else 0
  }

  /** Table 2-1. */
  function Address16(mod: nat, rm: nat, disp: int): Address {
    match rm
    case 0 => Address(Gpr(BX), Gpr(SI), 0, disp)
    case 1 => Address(Gpr(BX), Gpr(DI), 0, disp)
    case 2 => Address(Gpr(BP), Gpr(SI), 0, disp)
    case 3 => Address(Gpr(BP), Gpr(DI), 0, disp)
    case 4 => Address(Gpr(SI), Absent, 0, disp)
    case 5 => Address(Gpr(DI), Absent, 0, disp)
    case 6 => if mod == 0 then Address(Absent, Absent, 0, disp) else Address(Gpr(BP), Absent, 0, disp)
    case _ => Address(Gpr(BX), Absent, 0, disp)
  }

  function DispSize32(mod: nat, base: nat): nat {
    if mod == 1 then 1 else if mod == 2 || base == 5 then 4 else 0
  }

  function Extended(number: nat, extension: bool): Source {
    Gpr(number + if extension then 8 else 0)
  }

  /** Table 2-3, with the extensions of table 2-4. */
  function AddressSib(mod: nat, base: nat, index: nat, scale: nat, rex: Rex, disp: int): Address {
    var b := if base == 5 && mod == 0 then Absent else Extended(base, rex.base);
    if index == 4 && !rex.index then Address(b, Absent, 0, disp)
    else Address(b, Extended(index, rex.index), scale, disp)
  }

  /** Table 2-2; without a base register the 64-bit mode is relative to the
      instruction pointer. */
  function AddressPlain(mod: nat, rm: nat, rex: Rex, long: bool, disp: int): Address {
    if rm == 5 && mod == 0 then Address(if long then Rip else Absent, Absent, 0, disp)
    else Address(Extended(rm, rex.base), Absent, 0, disp)
  }

  function WithDisp(reg: nat, s: seq<Byte>, size: nat, length: nat, at: int -> Address): Decoded {
    if |s| < size then Malformed
    else Decoded(reg, at(SignExtended(s[..size])), length + size)
  }

  /** Memory operands only. `wide` says that addresses have 32 or 64 bits and
      not 16, `long` that the mode is the 64-bit one. */
  function Decode(wide: bool, long: bool, rex: Rex, s: seq<Byte>): Decoded {
    if s == [] then Malformed
    else
      var mod, reg, rm := s[0] / 64, s[0] / 8 % 8, s[0] % 8;
      if mod == 3 then Malformed
      else if !wide then WithDisp(reg, s[1..], DispSize16(mod, rm), 1, d => Address16(mod, rm, d))
      else if rm != 4 then WithDisp(reg, s[1..], DispSize32(mod, rm), 1, d => AddressPlain(mod, rm, rex, long, d))
      else if |s| == 1 then Malformed
      else
        var scale, index, base := s[1] / 64, s[1] / 8 % 8, s[1] % 8;
        WithDisp(reg, s[2..], DispSize32(mod, base), 2, d => AddressSib(mod, base, index, scale, rex, d))
  }

  /** The fields of ModRM and SIB, as they are put together. */
  datatype Fields = Fields(mod: nat, rm: nat, base: nat, index: nat, scale: nat)

  ghost predicate FieldsFit(f: Fields) {
    f.mod < 3 && f.rm < 8 && f.base < 8 && f.index < 8 && f.scale < 4
  }

  function HeadBytes(f: Fields, reg: nat, wide: bool): seq<nat> {
    var modrm := f.rm + reg * 8 + f.mod * 64;
    if wide && f.rm == 4 then [modrm, f.base + f.index * 8 + f.scale * 64] else [modrm]
  }

  function DispSizeOf(f: Fields, wide: bool): nat {
    if !wide then DispSize16(f.mod, f.rm) else if f.rm == 4 then DispSize32(f.mod, f.base) else DispSize32(f.mod, f.rm)
  }

  function AddressOf(f: Fields, wide: bool, long: bool, rex: Rex, disp: int): Address {
    if !wide then Address16(f.mod, f.rm, disp)
    else if f.rm == 4 then AddressSib(f.mod, f.base, f.index, f.scale, rex, disp)
    else AddressPlain(f.mod, f.rm, rex, long, disp)
  }

  ghost predicate AreBytes(s: seq<nat>) {
    forall b :: b in s ==> b < 256
  }

  /** The bytes of fields and a displacement of the right size decode to the
      address that the fields stand for; all of them are used. */
  lemma FieldsDecode(f: Fields, reg: nat, wide: bool, long: bool, rex: Rex, disp: seq<Byte>)
    requires FieldsFit(f) && reg < 8 && |disp| == DispSizeOf(f, wide)
    ensures AreBytes(HeadBytes(f, reg, wide))
    ensures var s: seq<Byte> := HeadBytes(f, reg, wide) + disp;
      Decode(wide, long, rex, s) == Decoded(reg, AddressOf(f, wide, long, rex, SignExtended(disp)), |s|)
  {
    hide Address16, AddressSib, AddressPlain, SignExtended;
    var s: seq<Byte> := HeadBytes(f, reg, wide) + disp;
    FieldBits(f.rm, reg, f.mod);
    FieldBits(f.base, f.index, f.scale);
    assert disp[..|disp|] == disp;
    if wide && f.rm == 4 {
      assert s[2..] == disp;
    } else {
      assert s[1..] == disp;
    }
  }

  lemma FieldBits(low: nat, middle: nat, high: nat)
    requires low < 8 && middle < 8 && high < 4
    ensures var b := low + middle * 8 + high * 64;
      b < 256 && b / 64 == high && b / 8 % 8 == middle && b % 8 == low
  {
  }

  /** 8(%eax,%ebx,8) with register 1, and 5(%bx,%si) with register 2. */
  lemma DecodeExamples()
    ensures Decode(true, false, Rex(false, false), [0x4c, 0xd8, 0x08]) == Decoded(1, Address(Gpr(0), Gpr(3), 3, 8), 3)
    ensures Decode(false, false, Rex(false, false), [0x50, 0x05]) == Decoded(2, Address(Gpr(3), Gpr(6), 0, 5), 2)
  {
    assert [0x4c, 0xd8, 0x08][2..][..1] == [0x08];
    assert [0x50, 0x05][1..][..1] == [0x05];
    assert [0x08][1..] == [] && [0x05][1..] == [];
  }

  /** The displacement is the only part of the address it affects. */
  lemma DispApart(f: Fields, wide: bool, long: bool, rex: Rex, disp: int)
    ensures AddressOf(f, wide, long, rex, disp) == AddressOf(f, wide, long, rex, 0).(disp := disp)
  {
  }
}
