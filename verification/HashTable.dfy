/** The chained hash table: every hit moves its entry to the head of the chain. */
module HashTable {
  import opened HashString

  const DEFAULT_SIZE: nat := 4051

  /** What a table stores: an untyped pointer. */
  datatype Pointer = Null | Address(location: int)

  datatype Binding = Binding(key: Chars, data: Pointer)

  datatype Message = NoError | Exists

  class Entry {
    var next: Entry?
    const key: Chars
    const hash: bv64
    var data: Pointer

    constructor (key: Chars, hash: bv64, data: Pointer, next: Entry?)
      ensures this.key == key && this.hash == hash && this.data == data && this.next == next
    {
      this.key, this.hash, this.data, this.next := key, hash, data, next;
    }
  }

  function Bucket(hash: bv64, size: nat): (index: nat)
    requires size > 0
    ensures index < size
  {
    var h := hash as int;
    h % size
  }

  function EntryAt(c: seq<Entry>, j: nat): Entry? {
    if j < |c| then c[j] else null
  }

  /** The entries of c, in order, linked from head. */
  ghost predicate Linked(head: Entry?, c: seq<Entry>)
    reads c`next
  {
    && head == EntryAt(c, 0)
    && forall j :: 0 <= j < |c| ==> c[j].next == EntryAt(c, j + 1)
  }

  ghost predicate Listed(seen: seq<Binding>, c: seq<Entry>)
    reads c`data
  {
    |seen| == |c| && forall j :: 0 <= j < |c| ==> seen[j] == Binding(c[j].key, c[j].data)
  }

  /** The entries of c belong in bucket i, under different keys. */
  ghost predicate Sorted(c: seq<Entry>, i: nat, size: nat)
    requires size > 0
  {
    && (forall e :: e in c ==> NulFree(e.key) && e.hash == Hash(e.key) && Bucket(e.hash, size) == i)
    && forall j, k :: 0 <= j < k < |c| ==> c[j].key != c[k].key
  }

  ghost predicate Bound(c: seq<Entry>, contents: map<Chars, Pointer>)
    reads c`data
  {
    forall e :: e in c ==> e.key in contents && contents[e.key] == e.data
  }

  /** An entry brought from position k to the head. */
  function ToFront<T>(c: seq<T>, k: nat): seq<T>
    requires k < |c|
  {
    [c[k]] + c[..k] + c[k + 1..]
  }

  ghost predicate HasKey(c: seq<Entry>, key: Chars) {
    exists e :: e in c && e.key == key
  }

  ghost predicate MovedToFront(before: seq<seq<Entry>>, after: seq<seq<Entry>>, i: nat)
    requires i < |before|
  {
    exists k :: 0 <= k < |before[i]| && after == before[i := ToFront(before[i], k)]
  }

  lemma ToFrontHead<T>(c: seq<T>, k: nat)
    requires k < |c|
    ensures ToFront(c, k) != [] && ToFront(c, k)[0] == c[k]
    ensures k == 0 ==> ToFront(c, k) == c
  {
  }

  lemma ToFrontSame<T>(c: seq<T>, k: nat, e: T)
    requires k < |c|
    ensures e in ToFront(c, k) <==> e in c
  {
    var d := ToFront(c, k);
    if e in c {
      var j :| 0 <= j < |c| && c[j] == e;
      assert d[if j < k then j + 1 else if j == k then 0 else j] == e;
    }
  }

  lemma SortedToFront(c: seq<Entry>, k: nat, i: nat, size: nat)
    requires size > 0 && k < |c| && Sorted(c, i, size)
    ensures Sorted(ToFront(c, k), i, size)
  {
    hide Hash, Bucket;
    var d := ToFront(c, k);
    forall e | e in d ensures e in c {
      ToFrontSame(c, k, e);
    }
  }

  lemma BoundToFront(c: seq<Entry>, k: nat, contents: map<Chars, Pointer>)
    requires k < |c| && Bound(c, contents)
    ensures Bound(ToFront(c, k), contents)
    ensures forall e :: e in ToFront(c, k) ==> e in c
  {
    forall e ensures e in ToFront(c, k) <==> e in c {
      ToFrontSame(c, k, e);
    }
  }

  lemma KeyToFront(c: seq<Entry>, k: nat, key: Chars)
    requires k < |c|
    ensures HasKey(c, key) ==> HasKey(ToFront(c, k), key)
  {
    forall e ensures e in ToFront(c, k) <==> e in c {
      ToFrontSame(c, k, e);
    }
  }

  lemma Prepended(p: Entry, c: seq<Entry>, i: nat, size: nat, contents: map<Chars, Pointer>)
    requires size > 0 && Linked(p.next, c) && Sorted(c, i, size) && Bound(c, contents)
    requires NulFree(p.key) && p.hash == Hash(p.key) && Bucket(p.hash, size) == i
    requires p.key !in contents
    ensures Linked(p, [p] + c) && Sorted([p] + c, i, size) && Bound([p] + c, contents[p.key := p.data])
  {
    hide Hash, Bucket;
    assert forall e :: e in c ==> e.key in contents;
  }

  lemma BoundGrows(c: seq<Entry>, contents: map<Chars, Pointer>, key: Chars, value: Pointer)
    requires Bound(c, contents) && key !in contents
    ensures Bound(c, contents[key := value])
  {
  }

  lemma KeyAfterPrepend(p: Entry, c: seq<Entry>, key: Chars)
    ensures HasKey([p] + c, key) <==> HasKey(c, key) || p.key == key
  {
    if HasKey(c, key) {
      var e :| e in c && e.key == key;
      assert e in [p] + c;
    } else if p.key == key {
      assert p in [p] + c;
    }
  }

  lemma Tail(head: Entry?, c: seq<Entry>, i: nat, size: nat)
    requires size > 0 && c != [] && Linked(head, c) && Sorted(c, i, size)
    ensures Linked(c[0].next, c[1..]) && Sorted(c[1..], i, size)
    ensures c[0] !in c[1..] && forall e :: e in c[1..] ==> e in c
  {
    hide Hash, Bucket;
    assert forall j :: 0 <= j < |c| - 1 ==> c[1..][j] == c[j + 1] && c[j + 1].next == EntryAt(c, j + 2);
  }

  lemma KeyInTail(c: seq<Entry>, key: Chars)
    requires c != [] && HasKey(c, key) && c[0].key != key
    ensures HasKey(c[1..], key)
  {
    var e :| e in c && e.key == key;
    assert e in c[1..];
  }

  lemma EntryAtMostOnce(c: seq<Entry>, i: nat, size: nat)
    requires size > 0 && Sorted(c, i, size)
    ensures forall j, k :: 0 <= j < k < |c| ==> c[j] != c[k]
  {
  }

  lemma OtherBucket(c: seq<Entry>, d: seq<Entry>, i: nat, k: nat, size: nat)
    requires size > 0 && i != k && Sorted(c, i, size) && Sorted(d, k, size)
    ensures forall e :: e in c ==> e !in d
  {
  }

  /** The relinking itself: p, after prev, becomes the first. */
  method Splice(head: Entry?, ghost c: seq<Entry>, ghost k: nat, prev: Entry, p: Entry)
    requires Linked(head, c) && 0 < k < |c| && prev == c[k - 1] && p == c[k]
    requires forall i, j :: 0 <= i < j < |c| ==> c[i] != c[j]
    modifies prev`next, p`next
    ensures Linked(p, ToFront(c, k))
  {
    prev.next := p.next;
    p.next := head;
  }

  class HashControl {
    const table: array<Entry?>
    ghost var chains: seq<seq<Entry>>
    ghost var Repr: set<Entry>
    ghost var contents: map<Chars, Pointer>

    ghost predicate ValidChain(i: nat)
      reads this, table, Repr
      requires table.Length > 0 && i < table.Length && i < |chains|
    {
      var c := chains[i];
      && (forall e :: e in c ==> e in Repr)
      && Linked(table[i], c)
      && Sorted(c, i, table.Length)
      && Bound(c, contents)
    }

    /** The chain of bucket i is as it should be, without these entries. */
    ghost predicate Apart(i: nat, prev: Entry, p: Entry)
      reads this, table, Repr
      requires table.Length > 0 && i < table.Length && i < |chains|
    {
      ValidChain(i) && prev !in chains[i] && p !in chains[i]
    }

    ghost predicate Valid()
      reads this, table, Repr
      ensures Valid() ==> 0 < table.Length == |chains|
    {
      && 0 < table.Length == |chains|
      && (forall i :: 0 <= i < table.Length ==> ValidChain(i))
      && forall key :: key in contents ==> NulFree(key) && HasKey(chains[Bucket(Hash(key), table.Length)], key)
    }

    constructor (size: nat := DEFAULT_SIZE)
      requires size > 0
      ensures Valid() && contents == map[] && Repr == {}
      ensures fresh(table) && table.Length == size
    {
      hide Hash, Bucket;
      table := new Entry?[size](_ => null);
      chains := seq(size, _ => []);
      Repr := {};
      contents := map[];
    }

    lemma EntryFacts(i: nat, k: nat)
      requires Valid() && i < table.Length && k < |chains[i]|
      ensures var e := chains[i][k];
        && e in Repr && NulFree(e.key) && e.hash == Hash(e.key)
        && e.key in contents && contents[e.key] == e.data && e.next == EntryAt(chains[i], k + 1)
    {
      hide Hash, Bucket;
      assert ValidChain(i);
      assert chains[i][k] in chains[i];
    }

    lemma FirstEntry(i: nat)
      requires Valid() && i < table.Length
      ensures table[i] == EntryAt(chains[i], 0)
    {
      hide Hash, Bucket;
      assert ValidChain(i);
    }

    lemma Absent(key: Chars)
      requires Valid() && var c := chains[Bucket(Hash(key), table.Length)]; forall j :: 0 <= j < |c| ==> c[j].key != key
      ensures key !in contents
    {
      hide Hash, Bucket;
    }

    /** The entry for the first len characters of key, now at the head of its
        chain, or null. */
    method Lookup(key: Chars, len: nat) returns (p: Entry?, index: nat, hash: bv64)
      requires Valid() && len <= |key| && NulFree(key[..len])
      modifies this`chains, table, Repr`next
      ensures Valid()
      ensures hash == Hash(key[..len]) && index == Bucket(hash, table.Length)
      ensures p == null <==> key[..len] !in contents
      ensures p == null ==> chains == old(chains)
      ensures p != null ==> p in Repr && p == table[index] && p.key == key[..len] && p.data == contents[p.key]
      ensures p != null ==> chains[index] != [] && p == chains[index][0]
      ensures p != null ==> MovedToFront(old(chains), chains, index)
    {
      hide Hash, Bucket, Matches, Valid, ToFront;
      hash := ComputeHash(key, len);
      index := Bucket(hash, table.Length);
      ghost var c := chains[index];
      var prev: Entry? := null;
      ghost var k := 0;
      FirstEntry(index);
      p := table[index];
      while p != null
        invariant k <= |c| && p == EntryAt(c, k) && prev == if k > 0 then c[k - 1] else null
        invariant forall j :: 0 <= j < k ==> c[j].key != key[..len]
        invariant Valid() && unchanged(this) && unchanged(table) && unchanged(old(Repr))
        decreases |c| - k
      {
        EntryFacts(index, k);
        if p.hash == hash {
          MatchesIff(p.key, key, len);
          if Matches(p.key, key, len) {
            ToFrontHead(c, k);
            if prev != null {
              Relink(index, k, prev, p);
            }
            return;
          }
        }
        prev := p;
        p := p.next;
        k := k + 1;
      }
      Absent(key[..len]);
    }

    /** Unlink the entry after prev and put it at the head. */
    method Relink(index: nat, ghost k: nat, prev: Entry, p: Entry)
      requires Valid() && index < table.Length && 0 < k < |chains[index]|
      requires prev == chains[index][k - 1] && p == chains[index][k]
      modifies this`chains, table, Repr`next
      ensures Valid() && table[index] == p
      ensures chains == old(chains)[index := ToFront(old(chains)[index], k)]
    {
      hide Hash, Bucket, Linked, Sorted, Bound, HasKey, ToFront;
      ghost var c := chains[index];
      assert ValidChain(index);
      EntryAtMostOnce(c, index, table.Length);
      forall i | 0 <= i < table.Length && i != index ensures Apart(i, prev, p) {
        assert ValidChain(i);
        OtherBucket(chains[i], c, i, index, table.Length);
      }
      Splice(table[index], c, k, prev, p);
      table[index] := p;
      chains := chains[index := ToFront(c, k)];
      SortedToFront(c, k, index, table.Length);
      BoundToFront(c, k, contents);
      forall i | 0 <= i < table.Length && i != index ensures ValidChain(i) {
        assert old(Apart(i, prev, p));
      }
      forall key | key in contents ensures HasKey(chains[Bucket(Hash(key), table.Length)], key) {
        KeyToFront(c, k, key);
      }
    }

    /** Entries in the table are told apart by their keys. */
    lemma OneEntryPerKey(i: nat, k: nat, d: Entry, e: Entry)
      requires Valid() && i < table.Length && k < table.Length && d in chains[i] && e in chains[k] && d.key == e.key
      ensures i == k && d == e
    {
      hide Hash, Bucket;
      assert ValidChain(i) && ValidChain(k);
    }

    /** A new entry at the head of its chain. */
    method Prepend(key: Chars, value: Pointer, index: nat, hash: bv64)
      requires Valid() && NulFree(key) && key !in contents
      requires hash == Hash(key) && index == Bucket(hash, table.Length)
      modifies this, table
      ensures Valid() && fresh(Repr - old(Repr)) && old(Repr) <= Repr
      ensures contents == old(contents)[key := value]
    {
      hide Hash, Bucket, Linked, Sorted, Bound, HasKey;
      ghost var c := chains[index];
      FirstEntry(index);
      assert ValidChain(index);
      var p := new Entry(key, hash, value, table[index]);
      table[index] := p;
      Repr := Repr + {p};
      chains := chains[index := [p] + c];
      contents := contents[key := value];
      Prepended(p, c, index, table.Length, old(contents));
      forall i | 0 <= i < table.Length && i != index ensures ValidChain(i) {
        assert old(ValidChain(i));
        BoundGrows(chains[i], old(contents), key, value);
      }
      forall k | k in contents ensures NulFree(k) && HasKey(chains[Bucket(Hash(k), table.Length)], k) {
        KeyAfterPrepend(p, c, k);
      }
    }

    /** A new value for the entry p. */
    method SetData(p: Entry, value: Pointer, ghost index: nat)
      requires Valid() && index < table.Length && p in chains[index]
      modifies p`data, this`contents
      ensures Valid() && contents == old(contents)[p.key := value]
    {
      hide Hash, Bucket, Linked, Sorted, HasKey;
      assert ValidChain(index);
      forall i, e | 0 <= i < table.Length && e in chains[i] && e.key == p.key ensures e == p {
        OneEntryPerKey(i, index, e, p);
      }
      p.data := value;
      contents := contents[p.key := value];
      forall i | 0 <= i < table.Length ensures ValidChain(i) {
        assert old(ValidChain(i));
      }
    }

    /** Take the first entry of a chain out of the table. */
    method Unlink(p: Entry, index: nat)
      requires Valid() && index < table.Length && chains[index] != [] && p == chains[index][0]
      modifies this, table
      ensures Valid() && contents == old(contents) - {p.key} && Repr == old(Repr)
    {
      hide Hash, Bucket, Linked, Sorted, HasKey;
      ghost var c := chains[index];
      assert ValidChain(index);
      forall i, e | 0 <= i < table.Length && e in chains[i] && e.key == p.key ensures e == p {
        OneEntryPerKey(i, index, e, p);
      }
      Tail(table[index], c, index, table.Length);
      table[index] := p.next;
      chains := chains[index := c[1..]];
      contents := contents - {p.key};
      forall i | 0 <= i < table.Length ensures ValidChain(i) {
        assert old(ValidChain(i));
        if i != index {
          OtherBucket(chains[i], c, i, index, table.Length);
        }
      }
      forall key | key in contents ensures NulFree(key) && HasKey(chains[Bucket(Hash(key), table.Length)], key) {
        if Bucket(Hash(key), table.Length) == index {
          KeyInTail(c, key);
        }
      }
    }

    /** A key can only be inserted once. */
    method Insert(key: Chars, value: Pointer) returns (error: Message)
      requires Valid() && NulFree(key)
      modifies this, table, Repr
      ensures Valid() && fresh(Repr - old(Repr))
      ensures error == if key in old(contents) then Exists else NoError
      ensures contents == if key in old(contents) then old(contents) else old(contents)[key := value]
    {
      hide Hash, Bucket, Valid;
      assert key[..|key|] == key;
      var p, index, hash := Lookup(key, |key|);
      if p != null {
        return Exists;
      }
      Prepend(key, value, index, hash);
      return NoError;
    }

    method Jam(key: Chars, value: Pointer) returns (error: Message)
      requires Valid() && NulFree(key)
      modifies this, table, Repr
      ensures Valid() && fresh(Repr - old(Repr))
      ensures error == NoError && contents == old(contents)[key := value]
    {
      hide Hash, Bucket, Valid;
      assert key[..|key|] == key;
      var p, index, hash := Lookup(key, |key|);
      if p != null {
        SetData(p, value, index);
      } else {
        Prepend(key, value, index, hash);
      }
      return NoError;
    }

    method Replace(key: Chars, value: Pointer) returns (was: Pointer)
      requires Valid() && NulFree(key)
      modifies this, table, Repr
      ensures Valid() && Repr == old(Repr)
      ensures was == if key in old(contents) then old(contents)[key] else Null
      ensures contents == if key in old(contents) then old(contents)[key := value] else old(contents)
    {
      hide Hash, Bucket, Valid;
      assert key[..|key|] == key;
      var p, index, hash := Lookup(key, |key|);
      if p == null {
        return Null;
      }
      was := p.data;
      SetData(p, value, index);
    }

    method Find(key: Chars) returns (data: Pointer)
      requires Valid() && NulFree(key)
      modifies this, table, Repr
      ensures Valid() && Repr == old(Repr) && contents == old(contents)
      ensures data == if key in contents then contents[key] else Null
    {
      hide Hash, Bucket, Valid;
      assert key[..|key|] == key;
      var p, index, hash := Lookup(key, |key|);
      return if p == null then Null else p.data;
    }

    /** As Find; the key is the first len characters, and no NUL ends it. */
    method FindN(key: Chars, len: nat) returns (data: Pointer)
      requires Valid() && len <= |key| && NulFree(key[..len])
      modifies this, table, Repr
      ensures Valid() && Repr == old(Repr) && contents == old(contents)
      ensures data == if key[..len] in contents then contents[key[..len]] else Null
    {
      hide Hash, Bucket, Valid;
      var p, index, hash := Lookup(key, len);
      return if p == null then Null else p.data;
    }

    /** The lookup has made the entry the first of its chain. */
    method Delete(key: Chars) returns (was: Pointer)
      requires Valid() && NulFree(key)
      modifies this, table, Repr
      ensures Valid() && Repr == old(Repr)
      ensures was == if key in old(contents) then old(contents)[key] else Null
      ensures contents == old(contents) - {key}
    {
      hide Hash, Bucket, Valid;
      assert key[..|key|] == key;
      var p, index, hash := Lookup(key, |key|);
      if p == null {
        return Null;
      }
      if p != table[index] {
        assert false;
      }
      Unlink(p, index);
      return p.data;
    }

    /** Every entry, bucket by bucket, chain by chain. */
    ghost function Flattened(i: nat): seq<Entry>
      reads this
      requires i <= |chains|
    {
      if i == 0 then [] else Flattened(i - 1) + chains[i - 1]
    }

    lemma {:induction false} FlattenedHolds(i: nat, e: Entry)
      requires i <= |chains|
      ensures e in Flattened(i) <==> exists k :: 0 <= k < i && e in chains[k]
    {
      if i > 0 {
        FlattenedHolds(i - 1, e);
      }
    }

    lemma {:induction false} FlattenedApart(i: nat)
      requires Valid() && i <= |chains|
      ensures forall j, k :: 0 <= j < k < |Flattened(i)| ==> Flattened(i)[j].key != Flattened(i)[k].key
    {
      hide Hash, Bucket, Valid;
      if i > 0 {
        FlattenedApart(i - 1);
        var d, c := Flattened(i - 1), chains[i - 1];
        ChainApart(i - 1);
        forall j, k | 0 <= j < |d| && 0 <= k < |c| ensures d[j].key != c[k].key {
          FlattenedHolds(i - 1, d[j]);
          var m :| 0 <= m < i - 1 && d[j] in chains[m];
          if d[j].key == c[k].key {
            OneEntryPerKey(m, i - 1, d[j], c[k]);
          }
        }
      }
    }

    lemma ChainApart(i: nat)
      requires Valid() && i < |chains|
      ensures forall j, k :: 0 <= j < k < |chains[i]| ==> chains[i][j].key != chains[i][k].key
    {
      hide Hash, Bucket;
      assert ValidChain(i);
    }

    /** What is called for every entry sees each binding exactly once. */
    method Traverse() returns (seen: seq<Binding>)
      requires Valid()
      ensures forall j, k :: 0 <= j < k < |seen| ==> seen[j].key != seen[k].key
      ensures forall b :: b in seen <==> b.key in contents && contents[b.key] == b.data
    {
      hide Hash, Bucket, Valid;
      seen := [];
      for i := 0 to table.Length
        invariant Listed(seen, Flattened(i))
      {
        var p := table[i];
        ghost var k := 0;
        FirstEntry(i);
        while p != null
          invariant k <= |chains[i]| && p == EntryAt(chains[i], k)
          invariant Listed(seen, Flattened(i) + chains[i][..k])
          decreases |chains[i]| - k
        {
          EntryFacts(i, k);
          seen := seen + [Binding(p.key, p.data)];
          p := p.next;
          k := k + 1;
        }
        assert chains[i][..k] == chains[i];
      }
      FlattenedApart(table.Length);
      AllListed(seen);
    }

    lemma AllListed(seen: seq<Binding>)
      requires Valid() && Listed(seen, Flattened(table.Length))
      ensures forall b :: b in seen <==> b.key in contents && contents[b.key] == b.data
    {
      hide Hash, Bucket, Valid, HasKey, Flattened;
      var all := Flattened(table.Length);
      forall b | b in seen ensures b.key in contents && contents[b.key] == b.data {
        var j :| 0 <= j < |seen| && seen[j] == b;
        FlattenedHolds(table.Length, all[j]);
        var i :| 0 <= i < table.Length && all[j] in chains[i];
        var k :| 0 <= k < |chains[i]| && chains[i][k] == all[j];
        EntryFacts(i, k);
      }
      forall key | key in contents ensures Binding(key, contents[key]) in seen {
        var i, e := Present(key);
        FlattenedHolds(table.Length, e);
        var j :| 0 <= j < |all| && all[j] == e;
        assert seen[j] == Binding(key, contents[key]);
      }
    }

    lemma Present(key: Chars) returns (i: nat, e: Entry)
      requires Valid() && key in contents
      ensures i < table.Length && e in chains[i] && e.key == key && e.data == contents[key]
    {
      hide Hash, Bucket;
      i := Bucket(Hash(key), table.Length);
      assert ValidChain(i);
      e :| e in chains[i] && e.key == key;
    }
  }
}
