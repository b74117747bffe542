/** Copying a flonum, dropping low littlenums when the destination is shorter. */
module FlonumCopy {
  import opened Arithmetic
  import opened Littlenum
  import opened Flonums

  method Copy(input: Flonum, out: Flonum)
    requires input.Valid() && input != out && input.low != out.low
    modifies out, out.low
    ensures out.Valid() && out.sign == input.sign
    ensures input.leader < 0 ==>
      out.leader == -1 && out.exponent == old(out.exponent) && out.low[..] == old(out.low[..])
    ensures input.leader >= 0 ==>
      var shorten := Max(0, input.leader + 1 - out.low.Length);
      && out.Digits() == input.Digits()[shorten..]
      && out.exponent == input.exponent + shorten
      && Pow(RADIX, shorten) > 0 && out.Mantissa() == input.Mantissa() / Pow(RADIX, shorten)
  {
    hide Val, Pow;
    out.sign := input.sign;
    var inLength := input.leader;
    if inLength < 0 {
      out.leader := -1;
    } else {
      var outLength := out.low.Length - 1;
      var shorten := Max(0, inLength - outLength);
      if inLength <= outLength {
        if inLength < outLength {
          ZeroBytes(out.low, inLength + 1, outLength - inLength);
        }
        CopyLittlenums(out.low, input.low, 0, inLength + 1);
        out.exponent := input.exponent;
        out.leader := inLength;
      } else {
        CopyLittlenums(out.low, input.low, shorten, outLength + 1);
        out.leader := out.low.Length - 1;
        out.exponent := input.exponent + shorten;
      }
      assert out.Digits() == input.Digits()[shorten..];
      ValSplit(input.Digits(), shorten);
    }
  }

  /** memset over `count` bytes from littlenum `from`: half of them whole
      littlenums, and the low byte of the next when the count is odd. */
  method ZeroBytes(low: array<Littlenum>, from: nat, count: nat)
    requires from + count <= low.Length
    modifies low
    ensures low[..from] == old(low[..from])
  {
    var i := 0;
    while i < count / 2
      invariant i <= count / 2
      invariant low[..from] == old(low[..from])
    {
      low[from + i] := 0;
      i := i + 1;
    }
    if count % 2 == 1 {
      low[from + i] := low[from + i] / 0x100 * 0x100;
    }
  }

  /** memcpy of `count` littlenums. */
  method CopyLittlenums(to: array<Littlenum>, from: array<Littlenum>, start: nat, count: nat)
    requires to != from && start + count <= from.Length && count <= to.Length
    modifies to
    ensures to[..count] == from[start..start + count]
  {
    var i := 0;
    while i < count
      invariant i <= count
      invariant to[..i] == from[start..start + i]
    {
      to[i] := from[start + i];
      i := i + 1;
    }
  }
}
