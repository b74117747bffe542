/** Replacing members in place and adding the arguments that match none. */
module ArReplace {
  import opened ArFile
  import opened ArHeader
  import opened ArCopy
  import opened ArArgs
  import opened ArMembers
  import opened ArDelete
  import opened ArMove

  type Disk = map<string, DiskFile>

  /** What the command line says: where new members go, the key member, and
      whether a member that is not older than its file is left alone. */
  datatype Options = Options(place: Place, key: string, update: bool)

  datatype Halves = Halves(first: Bytes, second: Bytes)

  function AppendedTo(h: Halves, second: bool, s: Bytes): Halves {
    if second then h.(second := h.second + s) else h.(first := h.first + s)
  }

  datatype Replacing =
    | Failed
    | Replaced(halves: Halves, args: seq<string>, seeking: bool, error: bool)

  predicate Newer(disk: Disk, path: string, update: bool, date: int) {
    path in disk && !(update && disk[path].mtime <= date)
  }

  /** What takes the place of a member that an argument matches: the file,
      unless it cannot be opened or is not newer. */
  function Swapped(data: Bytes, r: HeaderResult, path: string, disk: Disk, update: bool): Copied
    requires r.Got?
  {
    if Newer(disk, path, update, r.chdr.date) then
      if SkipTo(r) < 0 then Truncated else Copied(NewMember(RName(path), disk[path]), SkipTo(r))
    else CopiedMember(data, r)
  }

  function ReplaceFrom(data: Bytes, pos: nat, args: seq<string>, disk: Disk, o: Options, c: Cursor, h: Halves,
                       error: bool): Replacing
    decreases |args|, |data| - pos
  {
    var r := HeaderAt(data, pos);
    match r
    case NoMore => Replaced(h, args, c.seeking, error)
    case BadFormat => Failed
    case Got(chdr, _, _) =>
      var name := NameOf(chdr);
      if Matches(args, name) then
        var path := args[FirstMatch(args, name)];
        var m := Swapped(data, r, path, disk, o.update);
        if m.Truncated? then Failed
        else
          ReplaceFrom(data, m.next, WithoutMatch(args, name), disk, o, c, AppendedTo(h, c.past, m.bytes),
                      error || path !in disk)
      else
        var m := CopiedMember(data, r);
        if m.Truncated? then Failed
        else
          var (during, next) := Placed(o.place, name == RName(o.key), c);
          ReplaceFrom(data, m.next, args, disk, o, next, AppendedTo(h, during.past, m.bytes), error)
  }

  /** The members made of the arguments that can be read. */
  function Additions(args: seq<string>, disk: Disk): Bytes {
    if args == [] then ""
    else (if args[0] in disk then NewMember(RName(args[0]), disk[args[0]]) else "") + Additions(args[1..], disk)
  }

  predicate AllReadable(args: seq<string>, disk: Disk) {
    forall path :: path in args ==> path in disk
  }

  /** Returns 1, without touching the archive, when the key is not found, and
      when an argument could not be opened. */
  method Replace(afd: File, argv: array<Arg>, ghost args: seq<string>, disk: Disk, o: Options)
    returns (ok: bool, code: nat)
    requires Lists(argv, args) && afd.pos == 0
    modifies afd, argv
    ensures var data := old(afd.data);
      var w := if HasMagic(data)
               then ReplaceFrom(data, |ARMAG|, args, disk, o, FirstCursor(o.place), Halves("", ""), false)
               else Failed;
      && ok == w.Replaced?
      && (!ok || w.seeking ==> afd.data == data)
      && (ok && w.seeking ==> code == 1)
      && (ok && !w.seeking ==>
            var h := AppendedTo(w.halves, o.place == AtEnd, Additions(w.args, disk));
            && afd.data == ARMAG + h.first + h.second
            && code == if w.error || !AllReadable(w.args, disk) then 1 else 0)
  {
    hide ReadAt, WrittenAt, CopiedMember, HeaderAt, SkipTo, Matches, WithoutMatch, RName, Restored, ReplaceFrom,
         Additions, AllReadable;
    code := 1;
    var magic := afd.Read(|ARMAG|);
    if magic != ARMAG {
      return false, 1;
    }
    var tfd1 := new File("");
    var tfd2 := new File("");
    var seeking, error;
    ghost var left;
    ok, seeking, error, left := Swap(afd, tfd1, tfd2, argv, args, disk, o);
    if !ok || seeking {
      return;
    }
    var missing := Append(argv, left, disk, if o.place == AtEnd then tfd2 else tfd1);
    ghost var before := afd.data;
    StartRestoring(afd);
    RestoreMore(tfd1, afd, before, "");
    RestoreMore(tfd2, afd, before, "" + tfd1.data);
    FinishRestoring(afd, |tfd1.data| + |tfd2.data|, before, "" + tfd1.data + tfd2.data);
    assert ARMAG + ("" + tfd1.data + tfd2.data) == ARMAG + tfd1.data + tfd2.data;
    code := if error || missing then 1 else 0;
  }

  /** The archive does not exist: it is created, and the files are added to it.
      There is no file of members before the key then, and adding to it
      fails. */
  method Create(argv: array<Arg>, ghost args: seq<string>, disk: Disk, place: Place)
    returns (ok: bool, afd: File, code: nat)
    requires Lists(argv, args)
    ensures ok <==> place == AtEnd || forall path :: path in args ==> path !in disk
    ensures ok ==> afd.data == ARMAG + Additions(args, disk) && code == if AllReadable(args, disk) then 0 else 1
  {
    hide NewMember, RName, WrittenAt, Restored;
    code := 1;
    afd := new File("");
    afd.Write(ARMAG);
    WrittenFirst(ARMAG);
    if place != AtEnd {
      var i := 0;
      while argv[i] != End
        invariant 0 <= i <= |args| && forall j :: 0 <= j < i ==> args[j] !in disk
        decreases |args| - i
      {
        if argv[i].path in disk {
          return false, afd, 1;
        }
        i := i + 1;
      }
    }
    var tfd2 := new File("");
    var missing := Append(argv, args, disk, tfd2);
    ghost var before := afd.data;
    StartRestoring(afd);
    RestoreMore(tfd2, afd, before, "");
    FinishRestoring(afd, |tfd2.data|, before, "" + tfd2.data);
    ok := true;
    code := if missing then 1 else 0;
  }

  lemma WrittenFirst(s: Bytes)
    ensures WrittenAt("", 0, s) == s
  {
  }

  ghost predicate InHalves(h: Halves, tfd1: File, tfd2: File)
    reads tfd1, tfd2
  {
    h == Halves(tfd1.data, tfd2.data) && tfd1.AtEnd() && tfd2.AtEnd()
  }

  method SwapOne(ar: Archiver, afd: File, to: File, path: string, disk: Disk, update: bool, ghost r: HeaderResult)
    returns (ok: bool)
    requires afd != to && to.AtEnd() && ar.Holds(r) && afd.pos == r.next
    requires ar.chdr.lname > 0 ==> |ar.chdr.name| == ar.chdr.lname
    modifies ar, afd`pos, to
    ensures var m := Swapped(afd.data, r, path, disk, update);
      ok == m.Copied? && (ok ==> afd.pos == m.next && to.data == old(to.data) + m.bytes && to.AtEnd())
  {
    hide CopiedMember, NewMember, RName, SkipTo;
    if path !in disk {
      ok := ar.PutOld(afd, to, r);
    } else if update && disk[path].mtime <= ar.chdr.date {
      ok := ar.PutOld(afd, to, r);
    } else {
      ar.PutNew(disk[path], path, to);
      ok := ar.SkipArobj(afd, r);
    }
  }

  lemma MatchedStep(data: Bytes, pos: nat, args: seq<string>, disk: Disk, o: Options, c: Cursor, h: Halves,
                    error: bool)
    requires var r := HeaderAt(data, pos); r.Got? && Matches(args, NameOf(r.chdr))
    ensures var r := HeaderAt(data, pos);
      var path := args[FirstMatch(args, NameOf(r.chdr))];
      var m := Swapped(data, r, path, disk, o.update);
      ReplaceFrom(data, pos, args, disk, o, c, h, error)
        == if m.Truncated? then Failed
           else ReplaceFrom(data, m.next, WithoutMatch(args, NameOf(r.chdr)), disk, o, c,
                            AppendedTo(h, c.past, m.bytes), error || path !in disk)
  {
    hide HeaderAt, NameOf, Matches, Swapped, FirstMatch, WithoutMatch, AppendedTo, Placed;
  }

  lemma UnmatchedStep(data: Bytes, pos: nat, args: seq<string>, disk: Disk, o: Options, c: Cursor, h: Halves,
                      error: bool)
    requires var r := HeaderAt(data, pos); r.Got? && !Matches(args, NameOf(r.chdr))
    ensures var r := HeaderAt(data, pos);
      var m := CopiedMember(data, r);
      var (during, next) := Placed(o.place, NameOf(r.chdr) == RName(o.key), c);
      ReplaceFrom(data, pos, args, disk, o, c, h, error)
        == if m.Truncated? then Failed
           else ReplaceFrom(data, m.next, args, disk, o, next, AppendedTo(h, during.past, m.bytes), error)
  {
    hide HeaderAt, NameOf, Matches, CopiedMember, FirstMatch, WithoutMatch, AppendedTo, Placed, RName;
  }

  lemma LastStep(data: Bytes, pos: nat, args: seq<string>, disk: Disk, o: Options, c: Cursor, h: Halves, error: bool)
    requires !HeaderAt(data, pos).Got?
    ensures ReplaceFrom(data, pos, args, disk, o, c, h, error)
         == if HeaderAt(data, pos).NoMore? then Replaced(h, args, c.seeking, error) else Failed
  {
    hide HeaderAt;
  }

  /** Where the loop over the headers stands: the position reached, the
      arguments left, the cursor, what was written, and whether a file could
      not be opened. */
  datatype State = State(pos: nat, args: seq<string>, c: Cursor, h: Halves, error: bool)

  ghost function FromHere(data: Bytes, disk: Disk, o: Options, s: State): Replacing {
    ReplaceFrom(data, s.pos, s.args, disk, o, s.c, s.h, s.error)
  }

  /** The loop over the headers. */
  method Swap(afd: File, tfd1: File, tfd2: File, argv: array<Arg>, ghost args: seq<string>, disk: Disk, o: Options)
    returns (ok: bool, seeking: bool, error: bool, ghost left: seq<string>)
    requires tfd1 != tfd2 && afd !in {tfd1, tfd2}
    requires InHalves(Halves("", ""), tfd1, tfd2) && Lists(argv, args)
    modifies afd`pos, tfd1, tfd2, argv
    ensures var w := ReplaceFrom(afd.data, old(afd.pos), args, disk, o, FirstCursor(o.place), Halves("", ""), false);
      && ok == w.Replaced?
      && (ok ==> InHalves(w.halves, tfd1, tfd2) && left == w.args && seeking == w.seeking && error == w.error
                 && Lists(argv, left))
  {
    hide HeaderAt, Lists, ReplaceFrom, InHalves;
    var ar := new Archiver();
    left := args;
    seeking, error := o.place != AtEnd, false;
    var cur := tfd1;
    ghost var s := State(afd.pos, args, FirstCursor(o.place), Halves("", ""), false);
    while true
      invariant InHalves(s.h, tfd1, tfd2) && Lists(argv, left) && fresh(ar)
      invariant s.pos == afd.pos && s.args == left && s.c.seeking == seeking && s.error == error
      invariant cur == if s.c.past then tfd2 else tfd1
      invariant FromHere(afd.data, disk, o, s)
             == ReplaceFrom(afd.data, old(afd.pos), args, disk, o, FirstCursor(o.place), Halves("", ""), false)
      decreases |left|, |afd.data| - afd.pos
    {
      ghost var r := HeaderAt(afd.data, afd.pos);
      var status := ar.GetArobj(afd);
      if status != Member {
        LastStep(afd.data, s.pos, left, disk, o, s.c, s.h, error);
        return status == EndOfArchive, seeking, error, left;
      }
      var copied;
      copied, cur, seeking, error, s := SwapNext(ar, afd, tfd1, tfd2, cur, argv, disk, o, r, s, seeking, error);
      left := s.args;
      if !copied {
        return false, seeking, error, left;
      }
    }
  }

  /** One member. */
  method SwapNext(ar: Archiver, afd: File, tfd1: File, tfd2: File, cur: File, argv: array<Arg>, disk: Disk, o: Options,
                  ghost r: HeaderResult, ghost s: State, seeking: bool, error: bool)
    returns (copied: bool, cur': File, seeking': bool, error': bool, ghost s': State)
    requires tfd1 != tfd2 && afd !in {tfd1, tfd2}
    requires InHalves(s.h, tfd1, tfd2) && Lists(argv, s.args)
    requires r == HeaderAt(afd.data, s.pos) && ar.Holds(r) && afd.pos == r.next
    requires ar.chdr.lname > 0 ==> |ar.chdr.name| == ar.chdr.lname
    requires s.c.seeking == seeking && s.error == error && cur == if s.c.past then tfd2 else tfd1
    modifies ar, afd`pos, tfd1, tfd2, argv
    ensures !copied ==> FromHere(afd.data, disk, o, s).Failed?
    ensures copied ==>
      && FromHere(afd.data, disk, o, s) == FromHere(afd.data, disk, o, s')
      && InHalves(s'.h, tfd1, tfd2) && Lists(argv, s'.args)
      && afd.pos == s'.pos && (|s'.args| < |s.args| || (s'.args == s.args && r.next <= afd.pos))
      && s'.c.seeking == seeking' && s'.error == error'
      && cur' == if s'.c.past then tfd2 else tfd1
  {
    hide CopiedMember, HeaderAt, SkipTo, Matches, WithoutMatch, Lists, NameOf, RName, Swapped, FirstMatch, ReplaceFrom;
    var name := NameOf(ar.chdr);
    var file := Files(argv, s.args, name);
    if file != End {
      MatchedStep(afd.data, s.pos, s.args, disk, o, s.c, s.h, error);
      cur', seeking', error' := cur, seeking, error || file.path !in disk;
      copied := SwapOne(ar, afd, cur, file.path, disk, o.update, r);
      s' := State(afd.pos, WithoutMatch(s.args, name), s.c, Halves(tfd1.data, tfd2.data), error');
    } else {
      UnmatchedStep(afd.data, s.pos, s.args, disk, o, s.c, s.h, error);
      error' := error;
      copied, cur', seeking' := PutPlaced(ar, afd, cur, tfd2, o.place, name == RName(o.key), r, s.c, seeking);
      s' := State(afd.pos, s.args, Placed(o.place, name == RName(o.key), s.c).1, Halves(tfd1.data, tfd2.data), error);
    }
  }

  /** Append the left-over arguments; tells whether one could not be opened. */
  method Append(argv: array<Arg>, ghost args: seq<string>, disk: Disk, to: File) returns (missing: bool)
    requires Lists(argv, args) && to.AtEnd()
    modifies to
    ensures to.AtEnd() && to.data == old(to.data) + Additions(args, disk) && missing == !AllReadable(args, disk)
  {
    hide NewMember, RName;
    var ar := new Archiver();
    missing := false;
    var i := 0;
    while argv[i] != End
      invariant 0 <= i <= |args| && to.AtEnd()
      invariant to.data + Additions(args[i..], disk) == old(to.data) + Additions(args, disk)
      invariant missing == exists j :: 0 <= j < i && args[j] !in disk
      decreases |args| - i
    {
      var path := argv[i].path;
      if path !in disk {
        missing := true;
      } else {
        ar.PutNew(disk[path], path, to);
      }
      i := i + 1;
    }
  }
}
