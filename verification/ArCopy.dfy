/** Copying members between files. */
module ArCopy {
  import opened ArFile

  const BUFFER_SIZE: nat := 8 * 1024

  /** What a copy writes, and where it leaves the cursor of what is read. */
  datatype Copied =
    | Truncated
    | Copied(bytes: Bytes, next: nat)

  /** Which files are archives, whose members are padded to even lengths. */
  datatype Padding = Padding(read: bool, write: bool)

  function Odd(n: int): bool {
    n % 2 == 1
  }

  /** A copy of size bytes at pos. The length of the object includes the long
      name read, or written, before it; no byte at all is padding when the
      size is 0. A negative size reads on to the end of the file, and fails. */
  function CopyAt(data: Bytes, pos: nat, size: int, padding: Padding, lname: nat, written: nat): Copied {
    if size == 0 then Copied("", pos)
    else if size < 0 || |ReadAt(data, pos, size)| < size then Truncated
    else
      var skip := padding.read && Odd(size + lname);
      if skip && ReadAt(data, pos + size, 1) == "" then Truncated
      else
        Copied(ReadAt(data, pos, size) + if padding.write && Odd(size + written) then "\n" else "",
               pos + size + if skip then 1 else 0)
  }

  lemma WrittenTwice(data: Bytes, pos: nat, s: Bytes, t: Bytes)
    requires pos <= |data|
    ensures WrittenAt(WrittenAt(data, pos, s), pos + |s|, t) == WrittenAt(data, pos, s + t)
  {
  }

  lemma ReadMore(data: Bytes, pos: nat, done: nat, n: nat)
    requires |ReadAt(data, pos, done)| == done
    ensures ReadAt(data, pos, done) + ReadAt(data, pos + done, n) == ReadAt(data, pos, done + n)
  {
  }

  method CopyAr(from: File, to: File, size: int, padding: Padding, lname: nat, written: nat) returns (ok: bool)
    requires from != to && to.pos <= |to.data|
    modifies from`pos, to
    ensures to.pos <= |to.data|
    ensures var c := CopyAt(from.data, old(from.pos), size, padding, lname, written);
      && ok == c.Copied?
      && (ok ==> from.pos == c.next && to.data == WrittenAt(old(to.data), old(to.pos), c.bytes)
                 && to.pos == old(to.pos) + |c.bytes|)
  {
    hide ReadAt, WrittenAt;
    WrittenNothing(to.data, to.pos);
    if size == 0 {
      return true;
    }
    ok := CopyBytes(from, to, size);
    if !ok {
      return;
    }
    ghost var body := ReadAt(from.data, old(from.pos), size);
    assert body + "" == body;
    if padding.read && Odd(size + lname) {
      var pad := from.Read(1);
      if pad == "" {
        return false;
      }
    }
    if padding.write && Odd(size + written) {
      to.Write("\n");
      WrittenTwice(old(to.data), old(to.pos), body, "\n");
      WrittenLength(old(to.data), old(to.pos), body + "\n");
    }
  }

  lemma WrittenNothing(data: Bytes, pos: nat)
    requires pos <= |data|
    ensures WrittenAt(data, pos, "") == data
  {
  }

  lemma WrittenLength(data: Bytes, pos: nat, s: Bytes)
    requires pos <= |data|
    ensures pos + |s| <= |WrittenAt(data, pos, s)|
  {
  }

  function Unread(data: Bytes, pos: nat): nat {
    if pos < |data| then |data| - pos else 0
  }

  /** The copying loop, a bufferful at a time. What is left is compared with
      the size of the buffer as an unsigned number. */
  method CopyBytes(from: File, to: File, size: int) returns (ok: bool)
    requires from != to && to.pos <= |to.data|
    modifies from`pos, to
    ensures to.pos <= |to.data|
    ensures ok == (size >= 0 && |ReadAt(from.data, old(from.pos), size)| == size)
    ensures ok ==> from.pos == old(from.pos) + size && to.pos == old(to.pos) + size
                   && to.data == WrittenAt(old(to.data), old(to.pos), ReadAt(from.data, old(from.pos), size))
  {
    hide ReadAt, WrittenAt;
    ghost var start, before, at := from.pos, to.data, to.pos;
    var left := size;
    ReadNothing(from.data, start);
    WrittenNothing(to.data, to.pos);
    while left != 0
      invariant left <= size && (size >= 0 ==> 0 <= left) && to.pos <= |to.data|
      invariant from.pos == start + (size - left) && to.pos == at + (size - left)
      invariant |ReadAt(from.data, start, size - left)| == size - left
      invariant to.data == WrittenAt(before, at, ReadAt(from.data, start, size - left))
      decreases size >= 0, if size >= 0 then left else Unread(from.data, from.pos)
    {
      ghost var done := size - left;
      var n := if 0 <= left < BUFFER_SIZE then left else BUFFER_SIZE;
      var chunk := from.Read(n);
      ReadMore(from.data, start, done, n);
      if chunk == "" {
        if size >= 0 {
          NothingLeft(from.data, start, done, n, size);
        }
        return false;
      }
      ReadShrinks(from.data, start + done, n);
      ShorterRead(from.data, start, done, n);
      WrittenTwice(before, at, ReadAt(from.data, start, done), chunk);
      WrittenLength(before, at, ReadAt(from.data, start, done) + chunk);
      to.Write(chunk);
      left := left - |chunk|;
    }
    return true;
  }

  lemma ReadShrinks(data: Bytes, pos: nat, n: nat)
    requires ReadAt(data, pos, n) != ""
    ensures pos + |ReadAt(data, pos, n)| <= |data|
  {
  }

  lemma ReadNothing(data: Bytes, pos: nat)
    ensures ReadAt(data, pos, 0) == ""
  {
  }

  lemma NothingLeft(data: Bytes, pos: nat, done: nat, n: nat, size: nat)
    requires done < size && n > 0 && |ReadAt(data, pos, done)| == done && ReadAt(data, pos + done, n) == ""
    ensures |ReadAt(data, pos, size)| < size
  {
  }

  lemma ShorterRead(data: Bytes, pos: nat, done: nat, n: nat)
    requires |ReadAt(data, pos, done)| == done
    ensures var k := |ReadAt(data, pos + done, n)|;
      k <= n && ReadAt(data, pos, done + k) == ReadAt(data, pos, done) + ReadAt(data, pos + done, n)
  {
    hide ReadAt;
    var k := |ReadAt(data, pos + done, n)|;
    ReadItsLength(data, pos + done, n);
    ReadMore(data, pos, done, k);
  }

  lemma ReadItsLength(data: Bytes, pos: nat, n: nat)
    ensures var k := |ReadAt(data, pos, n)|; ReadAt(data, pos, k) == ReadAt(data, pos, n)
  {
  }
}
