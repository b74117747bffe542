/** Memory operands, as they are written and as they are checked. */
module I386Operand {
  import opened I386Decode

  datatype Mode = Code16 | Code32 | Code64

  datatype RegisterKind = R16 | R32 | R64 | IP

  /** An entry of the register table that can be part of an address; `extended`
      needs a REX bit, `baseIndex` is what makes it a possible index. */
  datatype Register = Register(kind: RegisterKind, number: nat, extended: bool, baseIndex: bool)

  predicate InTable(r: Register) {
    match r.kind
    case IP => r.number == 0 && !r.extended && r.baseIndex
    case R16 => r.number < 8 && (r.baseIndex <==> !r.extended && r.number in {BX, BP, SI, DI})
    case _ => r.number < 8 && (r.baseIndex <==> r.extended || r.number != 4)
  }

  /** Outside the 64-bit mode the parser does not know the 64-bit and the
      extended registers. */
  predicate Known(mode: Mode, r: Register) {
    InTable(r) && (mode != Code64 ==> !r.extended && r.kind != R64)
  }

  datatype MaybeRegister = NoRegister | Reg(r: Register)

  datatype MaybeDisp = NoDisp | Disp(value: int)

  /** disp(base,index,2^log2), or a displacement alone. */
  datatype Operand =
    Operand(base: MaybeRegister, index: MaybeRegister, log2: nat, disp: MaybeDisp, parentheses: bool)

  predicate Parseable(mode: Mode, o: Operand) {
    && (o.base.Reg? ==> Known(mode, o.base.r)) && (o.index.Reg? ==> Known(mode, o.index.r))
    && o.log2 < 4 && (o.base.Reg? || o.index.Reg? || o.disp.NoDisp? ==> o.parentheses)
    && (o.index.NoRegister? ==> o.log2 == 0)
  }

  /** In bytes. */
  function AddressSize(mode: Mode, prefix: bool): (size: nat)
    ensures size in {2, 4, 8}
  {
    match mode
    case Code64 => if prefix then 4 else 8
    case Code32 => if prefix then 2 else 4
    case Code16 => if prefix then 4 else 2
  }

  function KindFor(size: nat): RegisterKind {
    if size == 2 then R16 else if size == 4 then R32 else R64
  }

  /** The operands that an address size allows. */
  predicate Accepts(o: Operand, size: nat, long: bool) {
    if size == 2 then
      && (o.base.Reg? ==> o.base.r.kind == R16 && o.base.r.baseIndex)
      && (o.index.Reg? ==>
            && o.index.r.kind == R16 && o.index.r.number in {SI, DI} && o.index.r.baseIndex && o.log2 == 0
            && o.base.Reg? && o.base.r.number in {BX, BP})
    else
      && (o.base.Reg? ==> o.base.r.kind == KindFor(size) || (long && o.base.r.kind == IP && o.index.NoRegister?))
      && (o.index.Reg? ==> o.index.r.kind == KindFor(size) && o.index.r.baseIndex)
  }

  function SourceOf(r: MaybeRegister): Source {
    if r.NoRegister? then Absent else if r.r.kind == IP then Rip else Extended(r.r.number, r.r.extended)
  }

  function DispOf(o: Operand): int {
    if o.disp.Disp? then o.disp.value else 0
  }

  /** The address is the one written, in registers and scale, with that
      displacement. */
  predicate SameForm(o: Operand, a: Address) {
    a.base == SourceOf(o.base) && a.index == SourceOf(o.index) && a.scale == o.log2
  }
}
