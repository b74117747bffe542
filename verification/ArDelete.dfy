/** Deleting members: the archive is filtered into a temporary file and copied
    back. */
module ArDelete {
  import opened ArFile
  import opened ArHeader
  import opened ArCopy
  import opened ArArgs
  import opened ArMembers

  const ARMAG := "!<arch>\n"

  predicate HasMagic(data: Bytes) {
    ReadAt(data, 0, |ARMAG|) == ARMAG
  }

  datatype Deletion =
    | Broken
    | Deleted(out: Bytes, args: seq<string>)

  /** The members kept of those from pos on, after what was kept before, and
      the arguments not matched. */
  function DeleteFrom(data: Bytes, pos: nat, args: seq<string>, out: Bytes): Deletion
    decreases |args|, |data| - pos
  {
    var r := HeaderAt(data, pos);
    match r
    case NoMore => Deleted(out, args)
    case BadFormat => Broken
    case Got(chdr, _, _) =>
      if Matches(args, NameOf(chdr)) then
        if SkipTo(r) < 0 then Broken
        else DeleteFrom(data, SkipTo(r), WithoutMatch(args, NameOf(chdr)), out)
      else
        var c := CopiedMember(data, r);
        if c.Truncated? then Broken else DeleteFrom(data, c.next, args, out + c.bytes)
  }

  /** Copy a temporary file, from its start, to where the archive is. */
  method CopyBack(tfd: File, afd: File)
    requires tfd != afd && tfd.AtEnd() && afd.pos <= |afd.data|
    modifies tfd`pos, afd
    ensures afd.data == WrittenAt(old(afd.data), old(afd.pos), tfd.data)
    ensures afd.pos == old(afd.pos) + |tfd.data| <= |afd.data|
  {
    hide WrittenAt, CopyAt;
    var size := tfd.pos;
    var start := tfd.Seek(0);
    CopyUnpadded(tfd.data);
    var ok := CopyAr(tfd, afd, size, Padding(false, false), 0, 0);
  }

  /** After the bytes done the archive is as before. */
  ghost predicate Restored(afd: File, before: Bytes, done: Bytes)
    reads afd
  {
    HasMagic(before) && |ARMAG| <= |before| && afd.data == WrittenAt(before, |ARMAG|, done)
    && afd.pos == |ARMAG| + |done| <= |afd.data|
  }

  method StartRestoring(afd: File)
    requires HasMagic(afd.data)
    modifies afd`pos
    ensures Restored(afd, afd.data, "")
  {
    MagicKept(afd.data, "");
    WrittenNothing(afd.data, |ARMAG|);
    var start := afd.Seek(|ARMAG|);
  }

  /** Copy back one more temporary file. */
  method RestoreMore(tfd: File, afd: File, ghost before: Bytes, ghost done: Bytes)
    requires tfd != afd && tfd.AtEnd() && Restored(afd, before, done)
    modifies tfd`pos, afd
    ensures Restored(afd, before, done + tfd.data)
  {
    hide WrittenAt, HasMagic;
    CopyBack(tfd, afd);
    WrittenTwice(before, |ARMAG|, done, tfd.data);
  }

  /** Cut off what is left of the archive as it was. */
  method FinishRestoring(afd: File, size: nat, ghost before: Bytes, ghost done: Bytes)
    requires Restored(afd, before, done) && size == |done|
    modifies afd`data
    ensures afd.data == ARMAG + done
  {
    hide WrittenAt, HasMagic;
    MagicKept(before, done);
    afd.Truncate(size + |ARMAG|);
  }

  lemma CopyUnpadded(data: Bytes)
    ensures var c := CopyAt(data, 0, |data|, Padding(false, false), 0, 0); c.Copied? && c.bytes == data
  {
    assert data[0..0 + |data|] == data;
  }

  lemma MagicKept(data: Bytes, out: Bytes)
    requires HasMagic(data)
    ensures |ARMAG| <= |data|
    ensures var w := WrittenAt(data, |ARMAG|, out);
      |ARMAG + out| <= |w| && w[..|ARMAG + out|] == ARMAG + out
  {
    assert data[0..|ARMAG|] == data[..|ARMAG|];
  }

  method Delete(afd: File, argv: array<Arg>, ghost args: seq<string>) returns (ok: bool, code: nat)
    requires Lists(argv, args) && afd.pos == 0
    modifies afd, argv
    ensures var w := if HasMagic(old(afd.data)) then DeleteFrom(old(afd.data), |ARMAG|, args, "") else Broken;
      && ok == w.Deleted?
      && (!ok ==> afd.data == old(afd.data))
      && (ok ==> afd.data == ARMAG + w.out && Lists(argv, w.args) && code == if w.args == [] then 0 else 1)
  {
    hide ReadAt, WrittenAt, CopiedMember, HeaderAt, SkipTo, Matches, WithoutMatch;
    code := 0;
    var magic := afd.Read(|ARMAG|);
    if magic != ARMAG {
      return false, 1;
    }
    var tfd := new File("");
    ghost var left;
    ok, left := Filter(afd, tfd, argv, args);
    if !ok {
      return false, 1;
    }
    ghost var before := afd.data;
    StartRestoring(afd);
    RestoreMore(tfd, afd, before, "");
    FinishRestoring(afd, |tfd.data|, before, "" + tfd.data);
    code := if argv[0] == End then 0 else 1;
  }

  /** The loop over the headers. */
  method Filter(afd: File, tfd: File, argv: array<Arg>, ghost args: seq<string>)
    returns (ok: bool, ghost left: seq<string>)
    requires afd != tfd && tfd.AtEnd() && Lists(argv, args)
    modifies afd`pos, tfd, argv
    ensures var w := DeleteFrom(afd.data, old(afd.pos), args, old(tfd.data));
      ok == w.Deleted? && (ok ==> tfd.AtEnd() && tfd.data == w.out && left == w.args && Lists(argv, left))
  {
    hide ReadAt, CopiedMember, HeaderAt, SkipTo, Matches, WithoutMatch, Lists, NameOf;
    var ar := new Archiver();
    left := args;
    while true
      invariant tfd.AtEnd() && Lists(argv, left) && fresh(ar)
      invariant DeleteFrom(afd.data, afd.pos, left, tfd.data) == DeleteFrom(afd.data, old(afd.pos), args, old(tfd.data))
      decreases |left|, |afd.data| - afd.pos
    {
      ghost var r := HeaderAt(afd.data, afd.pos);
      var status := ar.GetArobj(afd);
      match status {
        case EndOfArchive => return true, left;
        case Malformed => return false, left;
        case Member =>
      }
      var name := NameOf(ar.chdr);
      var file := Files(argv, left, name);
      if file != End {
        left := WithoutMatch(left, name);
        var skipped := ar.SkipArobj(afd, r);
        if !skipped {
          return false, left;
        }
      } else {
        var copied := ar.PutOld(afd, tfd, r);
        if !copied {
          return false, left;
        }
      }
    }
  }
}
