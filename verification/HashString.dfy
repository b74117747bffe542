/** Hashing and comparing the keys of the assembler's hash tables. */
module HashString {
  /** The characters of a string, without the NUL that ends it. */
  type Chars = seq<bv8>

  predicate NulFree(s: Chars) {
    0 !in s
  }

  /** A `char` is signed, so the upper half is sign extended to 32 bits. */
  function Extended(c: bv8): bv32 {
    if c < 0x80 then c as bv32 else 0xffffff00 | c as bv32
  }

  function Mixed(hash: bv64): bv64 {
    hash ^ (hash >> 2)
  }

  /** One character: its sum is computed in 32 bits. */
  function Absorb(hash: bv64, c: bv8): bv64 {
    Mixed(hash + (Extended(c) + (Extended(c) << 17)) as bv64)
  }

  /** At the end the length: its sum is computed in 64 bits. */
  function AbsorbLength(hash: bv64, len: nat): bv64 {
    var n := (len % 0x1_0000_0000_0000_0000) as bv64;
    Mixed(hash + (n + (n << 17)))
  }

  function HashFrom(key: Chars, n: nat): bv64
    requires n <= |key|
  {
    if n == 0 then 0 else Absorb(HashFrom(key, n - 1), key[n - 1])
  }

  function Hash(key: Chars): bv64 {
    AbsorbLength(HashFrom(key, |key|), |key|)
  }

  method ComputeHash(key: Chars, len: nat) returns (hash: bv64)
    requires len <= |key|
    ensures hash == Hash(key[..len])
  {
    hide Absorb, AbsorbLength;
    hash := 0;
    for n := 0 to len
      invariant hash == HashFrom(key, n)
    {
      hash := Absorb(hash, key[n]);
    }
    HashOfPrefix(key, len, len);
    hash := AbsorbLength(hash, len);
  }

  lemma {:induction false} HashOfPrefix(key: Chars, len: nat, n: nat)
    requires n <= len <= |key|
    ensures HashFrom(key[..len], n) == HashFrom(key, n)
  {
    hide Absorb;
    if n > 0 {
      HashOfPrefix(key, len, n - 1);
    }
  }

  /** The string with the NUL that ends it. */
  function CharAt(s: Chars, i: nat): bv8 {
    if i < |s| then s[i] else 0
  }

  /** Whether the comparison of two strings from i on, up to len, finds no
      difference; it stops at the end of either. */
  predicate SameFrom(s: Chars, key: Chars, i: nat, len: nat)
    requires i <= len
    decreases len - i
  {
    || i == len
    || (CharAt(s, i) == CharAt(key, i) && (CharAt(s, i) == 0 || SameFrom(s, key, i + 1, len)))
  }

  predicate Matches(s: Chars, key: Chars, len: nat) {
    SameFrom(s, key, 0, len) && CharAt(s, len) == 0
  }

  /** The test that a lookup makes picks exactly the entry for the first len
      characters of the key. */
  lemma MatchesIff(s: Chars, key: Chars, len: nat)
    requires NulFree(s) && len <= |key| && NulFree(key[..len])
    ensures Matches(s, key, len) <==> s == key[..len]
  {
    PrefixSame(s, key, 0, len);
    if Matches(s, key, len) {
      assert |s| == len;
    }
  }

  lemma {:induction false} PrefixSame(s: Chars, key: Chars, i: nat, len: nat)
    requires NulFree(s) && len <= |key| && NulFree(key[..len]) && i <= len && i <= |s|
    ensures SameFrom(s, key, i, len) <==> len <= |s| && forall j :: i <= j < len ==> s[j] == key[j]
    decreases len - i
  {
    if i < len {
      assert key[..len][i] == key[i];
      if i < |s| {
        PrefixSame(s, key, i + 1, len);
      }
    }
  }
}
