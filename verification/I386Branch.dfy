/** Relaxed branches: the bytes that replace a short jump go where it went. */
module I386Branch {
  import opened ByteOrder

  datatype Jump = Uncond | Cond | Cond86

  datatype Reach = Small | Small16 | Big | Big16

  const SHORT_JUMP: Byte := 0xeb
  const NEAR_JUMP: Byte := 0xe9
  const SHORT_CONDITION: Byte := 0x70
  const TWO_BYTE_OPCODE_ESCAPE: Byte := 0x0f

  function DispSize(r: Reach): (size: nat)
    ensures size in {1, 2, 4}
  {
    match r
    case Big => 4
    case Big16 => 2
    case _ => 1
  }

  /** Whether a condition holds: its lowest bit negates it. */
  predicate Holds(condition: nat, flags: nat -> bool) {
    flags(condition / 2) == (condition % 2 == 0)
  }

  function Displaced(s: seq<Byte>, at: nat, size: nat, ip: int): int
    requires at + size <= |s|
  {
    ip + at + size + SignExtended(s[at..at + size])
  }

  /** Where a processor that executes the bytes, from address ip on, goes when
      it leaves them; near displacements have so many bytes. The opcodes are
      those of JMP and Jcc in the Software Developer's Manual, Volume 2. */
  function Execute(s: seq<Byte>, ip: int, near: nat, flags: nat -> bool): int {
    if |s| >= 2 && s[0] == 0xeb then Displaced(s, 1, 1, ip)
    else if |s| >= 1 + near && s[0] == 0xe9 then Displaced(s, 1, near, ip)
    else if |s| >= 2 && 0x70 <= s[0] <= 0x7f then
      if Holds(s[0] - 0x70, flags) then Displaced(s, 1, 1, ip)
      else Execute(s[2..], ip + 2, near, flags)
    else if |s| >= 2 + near && s[0] == 0x0f && 0x80 <= s[1] <= 0x8f then
      if Holds(s[1] - 0x80, flags) then Displaced(s, 2, near, ip)
      else Execute(s[2 + near..], ip + 2 + near, near, flags)
    else ip
  }

  /** The branch as it was written: a short jump opcode. */
  ghost predicate IsBranch(jump: Jump, opcode: Byte) {
    if jump == Uncond then opcode == SHORT_JUMP else SHORT_CONDITION <= opcode < SHORT_CONDITION + 16
  }

  predicate Taken(jump: Jump, opcode: Byte, flags: nat -> bool) {
    jump == Uncond || (opcode >= SHORT_CONDITION && Holds(opcode - SHORT_CONDITION, flags))
  }

  /** How many bytes follow the first. */
  function Extension(jump: Jump, reach: Reach): nat {
    match reach
    case Big => if jump == Uncond then 4 else 5
    case Big16 => if jump == Uncond then 2 else if jump == Cond then 3 else 4
    case _ => 1
  }

  /** A branch whose first byte is at `at` in the fragment; the fixed part of
      the fragment ends after that byte. */
  class Frag {
    const literal: array<Byte>
    const jump: Jump
    const reach: Reach
    const address: int
    var fix: nat

    constructor (literal: array<Byte>, jump: Jump, reach: Reach, address: int, fix: nat)
      ensures this.literal == literal && this.jump == jump && this.reach == reach
      ensures this.address == address && this.fix == fix
    {
      this.literal, this.jump, this.reach, this.address, this.fix := literal, jump, reach, address, fix;
    }

    ghost predicate Valid()
      reads this, literal
    {
      0 < fix && fix + Extension(jump, reach) <= literal.Length && IsBranch(jump, literal[fix - 1])
    }

    method PutDisplacement(at: nat, v: int, size: nat)
      requires at + size <= literal.Length
      modifies literal
      ensures literal[..] == old(literal[..at]) + LittleEndian(v, size) + old(literal[at + size..])
    {
      hide LittleEndian;
      var bytes := LittleEndian(v, size);
      var i := 0;
      while i < size
        invariant 0 <= i <= size
        invariant forall j :: 0 <= j < literal.Length ==>
          literal[j] == if at <= j < at + i then bytes[j - at] else old(literal[j])
      {
        literal[at + i] := bytes[i];
        i := i + 1;
      }
    }

    /** Rewrite the opcode for the reach found, and put the displacement after
        it. */
    method Convert(target: int)
      requires Valid()
      modifies this`fix, literal
      ensures fix == old(fix) + Extension(jump, reach)
      ensures Rewritten(jump, reach, old(literal[fix - 1]), literal[old(fix) - 1..fix], target - (address + fix))
      ensures forall i :: 0 <= i < literal.Length && !(old(fix) - 1 <= i < fix) ==> literal[i] == old(literal[i])
    {
      hide LittleEndian, SignExtended, Head;
      var opcode := fix - 1;
      var opcodeAddress := address + fix;
      var fromOpcodeStart := target - opcodeAddress;
      var extension, where := RewriteOpcode(opcode);
      ghost var head := literal[opcode..where];
      PutDisplacement(where, fromOpcodeStart - extension, DispSize(reach));
      fix := fix + extension;
      assert literal[opcode..fix] == head + LittleEndian(fromOpcodeStart - extension, DispSize(reach));
    }

    /** Also tells how many bytes follow the first, and where the displacement
        goes. */
    method RewriteOpcode(opcode: nat) returns (extension: nat, where: nat)
      requires Valid() && opcode == fix - 1
      modifies literal
      ensures extension == Extension(jump, reach) && where + DispSize(reach) == opcode + 1 + extension
      ensures literal[opcode..where] == Head(jump, reach, old(literal[opcode]))
      ensures forall i :: 0 <= i < literal.Length && !(opcode <= i < where) ==> literal[i] == old(literal[i])
    {
      var first := literal[opcode];
      extension, where := 1, opcode + 1;
      if reach == Big || reach == Big16 {
        if jump == Uncond {
          extension := if reach == Big then 4 else 2;
          literal[opcode] := NEAR_JUMP;
        } else if reach == Big || jump == Cond {
          extension := if reach == Big then 5 else 3;
          literal[opcode + 1] := first + 0x10;
          literal[opcode] := TWO_BYTE_OPCODE_ESCAPE;
          where := opcode + 2;
        } else {
          extension := 4;
          literal[opcode] := Inverted(first);
          literal[opcode + 1] := 3;
          literal[opcode + 2] := NEAR_JUMP;
          where := opcode + 3;
        }
      }
    }
  }

  /** With the lowest bit flipped. */
  function Inverted(opcode: Byte): Byte {
    if opcode % 2 == 0 then opcode + 1 else opcode - 1
  }

  /** What precedes the displacement of a converted branch. */
  function Head(jump: Jump, reach: Reach, first: Byte): seq<Byte> {
    if reach == Small || reach == Small16 then [first]
    else if jump == Uncond then [NEAR_JUMP]
    else if reach == Big || jump == Cond then [TWO_BYTE_OPCODE_ESCAPE, (first + 0x10) % 0x100]
    else [Inverted(first), 3, NEAR_JUMP]
  }

  /** The bytes of a converted branch. */
  ghost predicate Rewritten(jump: Jump, reach: Reach, first: Byte, s: seq<Byte>, v: int) {
    s == Head(jump, reach, first) + LittleEndian(v, DispSize(reach))
  }

  /** Executing the converted branch goes on after it when the condition of the
      short jump fails, and otherwise to an address congruent to the target
      modulo the size of the displacement, which is the target itself exactly
      when the distance fits. */
  lemma BranchReaches(jump: Jump, reach: Reach, first: Byte, s: seq<Byte>, start: int, target: int, flags: nat -> bool)
    requires IsBranch(jump, first)
    requires Rewritten(jump, reach, first, s, target - (start + |s|))
    ensures var d := DispSize(reach);
      var v := target - (start + |s|);
      var to := Execute(s, start, if d == 1 then 4 else d, flags);
      if Taken(jump, first, flags) then
        CongruentIn(to, target, d) && (to == target <==> -Span(d) <= 2 * v < Span(d))
      else to == start + |s|
  {
    hide LittleEndian, SignExtended, Span, CongruentIn;
    var d := DispSize(reach);
    var v := target - (start + |s|);
    var e := LittleEndian(v, d);
    SignExtendedIff(v, d);
    DisplacedCongruent(start + |s|, v, d);
    if reach == Small || reach == Small16 {
      assert s[1..2] == e;
    } else if jump == Uncond {
      assert s[1..1 + d] == e;
    } else if reach == Big || jump == Cond {
      assert s[2..2 + d] == e;
    } else {
      InvertedJump(first, e, start, flags);
    }
  }

  /** A near jump that the inverted condition jumps over. */
  lemma InvertedJump(first: Byte, e: seq<Byte>, start: int, flags: nat -> bool)
    requires IsBranch(Cond86, first) && |e| == 2
    ensures Execute([Inverted(first), 3, NEAR_JUMP] + e, start, 2, flags)
         == start + 5 + if Taken(Cond86, first, flags) then SignExtended(e) else 0
  {
    hide SignExtended;
    var s := [Inverted(first), 3, NEAR_JUMP] + e;
    var c := first - SHORT_CONDITION;
    assert Inverted(first) - SHORT_CONDITION == if c % 2 == 0 then c + 1 else c - 1;
    assert s[1..2] == [3];
    ThreeForward();
    assert s[2..] == [NEAR_JUMP] + e && ([NEAR_JUMP] + e)[1..3] == e;
  }

  lemma DisplacedCongruent(end: int, v: int, d: nat)
    ensures CongruentIn(end + SignExtended(LittleEndian(v, d)), end + v, d)
  {
    hide LittleEndian, SignExtended, Span;
    SignExtendedCongruent(v, d);
    var k: int :| SignExtended(LittleEndian(v, d)) - v == k * Span(d);
    assert end + SignExtended(LittleEndian(v, d)) - (end + v) == k * Span(d);
  }

  lemma ThreeForward()
    ensures SignExtended([3]) == 3
  {
  }
}
