/** Reading in pieces is reading once; giving back is undoing. */
module BitStreamTheorems {
  import opened Arithmetic
  import opened Littlenum
  import opened BitStream

  /** Reading m bits and then n is reading m + n. */
  lemma TopAppend(v: nat, c: nat, m: nat, n: nat)
    ensures Top(v, c, m + n) == Top(v, c, m) * Pow(2, n) + Top(Below(v, c, m), Max(0, c - m), n)
    ensures Below(Below(v, c, m), Max(0, c - m), n) == Below(v, c, m + n)
  {
    if m > c {
      TopPastEnd(v, c, m, n);
    } else if m + n > c {
      TopAcrossEnd(v, c, m, n);
    } else {
      TopWithin(v, c, m, n);
    }
  }

  lemma TopPastEnd(v: nat, c: nat, m: nat, n: nat)
    requires m > c
    ensures Top(v, c, m + n) == Top(v, c, m) * Pow(2, n) + Top(Below(v, c, m), 0, n)
    ensures Below(Below(v, c, m), 0, n) == Below(v, c, m + n)
  {
    hide Pow;
    PowAdd(2, m - c, n);
    PowPositive(2, 0);
    MulRegroup(v, Pow(2, m - c), Pow(2, n));
    NothingToRead(n);
  }

  lemma TopAcrossEnd(v: nat, c: nat, m: nat, n: nat)
    requires m <= c < m + n
    ensures Top(v, c, m + n) == Top(v, c, m) * Pow(2, n) + Top(Below(v, c, m), c - m, n)
    ensures Below(Below(v, c, m), c - m, n) == Below(v, c, m + n)
  {
    hide Pow;
    var p, s := Pow(2, c - m), Pow(2, m + n - c);
    PowPositive(2, c - m);
    PowAdd(2, c - m, m + n - c);
    var q, r := v / p, v % p;
    assert v == q * p + r;
    SumTimes(q * p, r, s);
    MulRegroup(q, p, s);
  }

  lemma TopWithin(v: nat, c: nat, m: nat, n: nat)
    requires m + n <= c
    ensures Top(v, c, m + n) == Top(v, c, m) * Pow(2, n) + Top(Below(v, c, m), c - m, n)
    ensures Below(Below(v, c, m), c - m, n) == Below(v, c, m + n)
  {
    hide Pow;
    var p, t := Pow(2, c - m), Pow(2, c - m - n);
    PowPositive(2, c - m);
    PowPositive(2, c - m - n);
    PowAdd(2, n, c - m - n);
    assert v == v / p * p + v % p;
    CutWithin(v / p, v % p, Pow(2, n), t);
  }

  /** What one read after another returns. */
  function ReadAll(v: nat, c: nat, widths: seq<nat>): seq<nat> {
    if widths == [] then []
    else [Top(v, c, widths[0])] + ReadAll(Below(v, c, widths[0]), Max(0, c - widths[0]), widths[1..])
  }

  function Sum(widths: seq<nat>): nat {
    if widths == [] then 0 else widths[0] + Sum(widths[1..])
  }

  /** The bits read, written one after another. */
  function Joined(values: seq<nat>, widths: seq<nat>): nat
    requires |values| == |widths|
  {
    if values == [] then 0
    else values[0] * Pow(2, Sum(widths[1..])) + Joined(values[1..], widths[1..])
  }

  /** However the reads are cut up, they return the bits of the mantissa from
      the top and then zeros for ever. */
  lemma {:induction false} ReadsConsecutiveBits(v: nat, c: nat, widths: seq<nat>)
    requires v < Pow(2, c)
    ensures |ReadAll(v, c, widths)| == |widths|
    ensures Joined(ReadAll(v, c, widths), widths) == Top(v, c, Sum(widths))
    ensures forall i :: 0 <= i < |widths| ==> ReadAll(v, c, widths)[i] < Pow(2, widths[i])
    decreases |widths|
  {
    hide Pow, Top, Below;
    if widths == [] {
      ReadNothing(v, c);
    } else {
      var w, rest := widths[0], widths[1..];
      var v', c' := Below(v, c, w), Max(0, c - w);
      BelowFits(v, c, w);
      TopFits(v, c, w);
      ReadsConsecutiveBits(v', c', rest);
      var values := ReadAll(v, c, widths);
      assert values[1..] == ReadAll(v', c', rest);
      TopAppend(v, c, w, Sum(rest));
      forall i | 0 <= i < |widths| ensures values[i] < Pow(2, widths[i]) {
        if i > 0 {
          assert values[i] == values[1..][i - 1] && widths[i] == rest[i - 1];
        }
      }
    }
  }

  lemma ReadNothing(v: nat, c: nat)
    requires v < Pow(2, c)
    ensures Top(v, c, 0) == 0
  {
    PowPositive(2, c);
    DivModUnique(v, Pow(2, c), 0, v);
  }

  lemma BelowFits(v: nat, c: nat, n: nat)
    ensures Below(v, c, n) < Pow(2, Max(0, c - n))
  {
    PowPositive(2, Max(0, c - n));
  }

  lemma TopFits(v: nat, c: nat, n: nat)
    requires v < Pow(2, c)
    ensures Top(v, c, n) < Pow(2, n)
  {
    if n <= c {
      TopFitsWithin(v, c, n);
    } else {
      TopFitsBeyond(v, c, n);
    }
  }

  lemma TopFitsWithin(v: nat, c: nat, n: nat)
    requires v < Pow(2, c) && n <= c
    ensures Top(v, c, n) < Pow(2, n)
  {
    hide Pow;
    PowAdd(2, n, c - n);
    PowPositive(2, c - n);
    DivBelow(v, Pow(2, c - n), Pow(2, n));
  }

  lemma TopFitsBeyond(v: nat, c: nat, n: nat)
    requires v < Pow(2, c) && c < n
    ensures Top(v, c, n) < Pow(2, n)
  {
    hide Pow;
    PowAdd(2, n - c, c);
    PowPositive(2, n - c);
    MulStrict(Pow(2, n - c), v, Pow(2, c));
  }

  /** `unget_bits` right after `next_bits` of as many bits restores the stream
      exactly when the read left littlenums unread. */
  lemma UngetRestoresIff(s: State, n: int)
    requires 0 < n <= BITS && s.littlenumsLeft >= 0
    requires s.littlenumsLeft > 0 ==> 1 <= s.bitsLeft <= BITS
    ensures AfterUnget(AfterNext(s, n), n) == s <==> AfterNext(s, n).littlenumsLeft > 0
  {
  }
}
