/** Reading, copying, adding and skipping one member. */
module ArMembers {
  import opened ArFile
  import opened ArHeader
  import opened ArCopy

  /** A file on disk: what `stat` says of it, and its bytes. */
  datatype DiskFile = DiskFile(mtime: int, uid: nat, gid: nat, mode: nat, contents: Bytes)

  function StatOf(f: DiskFile): Stat {
    Stat(f.mtime, f.uid, f.gid, f.mode, |f.contents|)
  }

  function Zeros(n: nat): Bytes {
    seq(n, _ => '\0')
  }

  /** A long name is padded to a multiple of four bytes. */
  function PaddedName(name: Bytes): Bytes {
    name + if |name| % 4 != 0 then Zeros(4 - |name| % 4) else ""
  }

  /** The copy of the member whose header was read. */
  function CopiedMember(data: Bytes, r: HeaderResult): (c: Copied)
    requires r.Got?
    ensures c.Copied? ==> c.next >= r.next
  {
    var name := if r.chdr.lname > 0 then PaddedName(r.chdr.name) else "";
    var body := CopyAt(data, r.next, r.chdr.size, Padding(true, true), r.chdr.lname, |name|);
    if body.Truncated? then Truncated else Copied(r.hb + name + body.bytes, body.next)
  }

  /** Contents followed, unless empty, by what makes their length and that of
      the name even. */
  function Padded(contents: Bytes, name: nat): Bytes {
    contents + if Odd(|contents| + name) && contents != "" then "\n" else ""
  }

  lemma CopyWhole(contents: Bytes, name: nat)
    ensures var c := CopyAt(contents, 0, |contents|, Padding(false, true), 0, name);
      c.Copied? && c.bytes == Padded(contents, name)
  {
    assert contents[0..0 + |contents|] == contents;
  }

  /** The member made of a file. */
  function NewMember(name: string, f: DiskFile): Bytes {
    var long := if NeedsLongName(name) then PaddedName(name) else "";
    NewHeader(name, StatOf(f)) + long + Padded(f.contents, |long|)
  }

  /** Where skipping leads; nowhere when that is negative. */
  function SkipTo(r: HeaderResult): int
    requires r.Got?
  {
    r.next + r.chdr.size + if Odd(r.chdr.size + r.chdr.lname) then 1 else 0
  }

  datatype Status = Member | EndOfArchive | Malformed

  /** The last header read, as bytes and in internal format. */
  class Archiver {
    var hb: Bytes
    var chdr: Chdr

    constructor ()
    {
      hb, chdr := "", Chdr(0, 0, 0, 0, 0, 0, "");
    }

    ghost predicate Holds(r: HeaderResult)
      reads this
    {
      r.Got? && hb == r.hb && chdr == r.chdr
    }

    method GetArobj(fd: File) returns (status: Status)
      modifies this, fd`pos
      ensures var r := HeaderAt(fd.data, old(fd.pos));
        match r
        case NoMore => status == EndOfArchive
        case BadFormat => status == Malformed
        case Got(_, _, next) => status == Member && Holds(r) && fd.pos == next
                                && (chdr.lname > 0 ==> |chdr.name| == chdr.lname)
    {
      hide StrToL, WithoutTrailingSpaces;
      hb := fd.Read(HEADER_SIZE);
      if |hb| != HEADER_SIZE {
        return if hb == "" then EndOfArchive else Malformed;
      }
      if Field(hb, 58, 2) != ARFMAG {
        return Malformed;
      }
      if hb[0] == ' ' {
        return Malformed;
      }
      var name, length: int := "", 0;
      if hb[..3] == LONG_NAME_MARK {
        length := StrToL(hb[3..], 10);
        if length <= 0 || length > MAX_NAME_LENGTH {
          return Malformed;
        }
        name := fd.Read(length);
        if |name| != length {
          return Malformed;
        }
      } else {
        name := WithoutTrailingSpaces(hb[..NAME_WIDTH]);
      }
      var size := StrToL(Field(hb, 48, 10), 10) - length;
      chdr := Chdr(size, StrToL(Field(hb, 16, 12), 10), length, StrToL(Field(hb, 34, 6), 10) % 0x1_0000_0000,
                   StrToL(Field(hb, 28, 6), 10) % 0x1_0000_0000, StrToL(Field(hb, 40, 8), 8) % 0x1_0000, name);
      status := Member;
    }

    /** A name and what pads it; returns how much was written. */
    method WriteName(to: File, name: Bytes) returns (written: nat)
      requires to.AtEnd()
      modifies to
      ensures to.AtEnd() && to.data == old(to.data) + PaddedName(name) && written == |PaddedName(name)|
    {
      to.Write(name);
      written := |name|;
      if |name| % 4 != 0 {
        to.Write(Zeros(4 - |name| % 4));
        written := written + 4 - |name| % 4;
      }
      assert to.data == old(to.data) + PaddedName(name);
    }

    /** Write the member whose header was read last. */
    method PutOld(from: File, to: File, ghost r: HeaderResult) returns (ok: bool)
      requires from != to && to.AtEnd() && Holds(r) && from.pos == r.next
      requires chdr.lname > 0 ==> |chdr.name| == chdr.lname
      modifies from`pos, to
      ensures ok == CopiedMember(from.data, r).Copied?
      ensures ok ==> to.AtEnd() && to.data == old(to.data) + CopiedMember(from.data, r).bytes
                     && from.pos == CopiedMember(from.data, r).next
    {
      hide CopyAt, PaddedName;
      to.Write(hb);
      var alreadyWritten := 0;
      if chdr.lname > 0 {
        assert chdr.name[..chdr.lname] == chdr.name;
        alreadyWritten := WriteName(to, chdr.name[..chdr.lname]);
      }
      ok := CopyAr(from, to, chdr.size, Padding(true, true), chdr.lname, alreadyWritten);
    }

    /** Write a file, under the last component of its path. */
    method PutNew(f: DiskFile, path: string, to: File)
      requires to.AtEnd()
      modifies this`hb, to
      ensures to.AtEnd() && to.data == old(to.data) + NewMember(RName(path), f)
    {
      hide NewHeader, PaddedName, RName, CopyAt, Padded, NeedsLongName;
      var from := new File(f.contents);
      var name := RName(path);
      hb := NewHeader(name, StatOf(f));
      to.Write(hb);
      var alreadyWritten := 0;
      if NeedsLongName(name) {
        alreadyWritten := WriteName(to, name);
      }
      var ok := CopyAr(from, to, |f.contents|, Padding(false, true), 0, alreadyWritten);
      CopyWhole(f.contents, alreadyWritten);
    }

    method SkipArobj(fd: File, ghost r: HeaderResult) returns (ok: bool)
      requires r.Got? && chdr == r.chdr && fd.pos == r.next
      modifies fd`pos
      ensures ok == (SkipTo(r) >= 0) && (ok ==> fd.pos == SkipTo(r))
    {
      ok := fd.Seek(fd.pos + chdr.size + if Odd(chdr.size + chdr.lname) then 1 else 0);
    }
  }
}
