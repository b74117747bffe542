/** Files as bytes with a cursor. Reads and writes are never short of what the
    file holds. */
module ArFile {
  /** A byte is a character below 256. */
  type Bytes = string

  /** What a read of n bytes at pos returns. */
  function ReadAt(data: Bytes, pos: nat, n: nat): (chunk: Bytes)
    ensures |chunk| <= n && (pos + n <= |data| ==> |chunk| == n)
  {
    if pos + n <= |data| then data[pos..pos + n]
    else if pos <= |data| then data[pos..]
    else ""
  }

  function WrittenAt(data: Bytes, pos: nat, s: Bytes): (after: Bytes)
    requires pos <= |data|
    ensures pos == |data| ==> after == data + s
  {
    data[..pos] + s + if pos + |s| <= |data| then data[pos + |s|..] else ""
  }

  class File {
    var data: Bytes
    var pos: nat

    constructor (data: Bytes)
      ensures this.data == data && pos == 0
    {
      this.data, pos := data, 0;
    }

    predicate AtEnd()
      reads this
    {
      pos == |data|
    }

    method Read(n: nat) returns (chunk: Bytes)
      modifies `pos
      ensures chunk == ReadAt(data, old(pos), n) && pos == old(pos) + |chunk|
    {
      chunk := ReadAt(data, pos, n);
      pos := pos + |chunk|;
    }

    method Write(s: Bytes)
      requires pos <= |data|
      modifies this
      ensures data == WrittenAt(old(data), old(pos), s) && pos == old(pos) + |s|
    {
      data := WrittenAt(data, pos, s);
      pos := pos + |s|;
    }

    /** Only a position before the start cannot be reached. */
    method Seek(to: int) returns (ok: bool)
      modifies `pos
      ensures ok == (to >= 0) && pos == if ok then to else old(pos)
    {
      ok := to >= 0;
      if ok {
        pos := to;
      }
    }

    method Truncate(size: nat)
      requires size <= |data|
      modifies `data
      ensures data == old(data)[..size]
    {
      data := data[..size];
    }
  }
}
