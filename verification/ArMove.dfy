/** Moving members: the archive is split into what comes before the key
    member, what is selected, and what comes after, and put together again. */
module ArMove {
  import opened ArFile
  import opened ArHeader
  import opened ArCopy
  import opened ArArgs
  import opened ArMembers
  import opened ArDelete

  /** Where members go: to the end, or next to the key member. */
  datatype Place = AtEnd | BeforeKey | AfterKey

  /** Whether the key member is still to be found, and whether members now go
      to the file of those after it. */
  datatype Cursor = Cursor(seeking: bool, past: bool)

  /** The cursor when the key member is met: as it is written, and then. */
  function AtKey(place: Place, c: Cursor): (Cursor, Cursor) {
    var during := Cursor(false, c.past || place == BeforeKey);
    (during, Cursor(false, during.past || place == AfterKey))
  }

  /** The cursors to write a member with, and to go on with. */
  function Placed(place: Place, isKey: bool, c: Cursor): (Cursor, Cursor) {
    if c.seeking && isKey then AtKey(place, c) else (c, c)
  }

  function FirstCursor(place: Place): Cursor {
    Cursor(place != AtEnd, false)
  }

  datatype Parts = Parts(before: Bytes, selected: Bytes, after: Bytes)

  function AddedTo(p: Parts, past: bool, s: Bytes): Parts {
    if past then p.(after := p.after + s) else p.(before := p.before + s)
  }

  datatype Moving =
    | Stuck
    | Moved(parts: Parts, args: seq<string>, seeking: bool)

  function MoveFrom(data: Bytes, pos: nat, args: seq<string>, place: Place, key: string, c: Cursor, p: Parts): Moving
    decreases |data| - pos
  {
    var r := HeaderAt(data, pos);
    match r
    case NoMore => Moved(p, args, c.seeking)
    case BadFormat => Stuck
    case Got(chdr, _, _) =>
      var name := NameOf(chdr);
      var m := CopiedMember(data, r);
      if m.Truncated? then Stuck
      else if Matches(args, name) then
        MoveFrom(data, m.next, WithoutMatch(args, name), place, key, c, p.(selected := p.selected + m.bytes))
      else
        var (during, next) := Placed(place, name == RName(key), c);
        MoveFrom(data, m.next, args, place, key, next, AddedTo(p, during.past, m.bytes))
  }

  /** Returns 1, without touching the archive, when the key is not found. */
  method Move(afd: File, argv: array<Arg>, ghost args: seq<string>, place: Place, posname: string)
    returns (ok: bool, code: nat)
    requires Lists(argv, args) && afd.pos == 0
    modifies afd, argv
    ensures var data := old(afd.data);
      var w := if HasMagic(data)
               then MoveFrom(data, |ARMAG|, args, place, posname, FirstCursor(place), Parts("", "", ""))
               else Stuck;
      && ok == w.Moved?
      && (!ok || w.seeking ==> afd.data == data)
      && (ok && w.seeking ==> code == 1)
      && (ok && !w.seeking ==>
            && afd.data == ARMAG + w.parts.before + w.parts.selected + w.parts.after
            && Lists(argv, w.args) && code == if w.args == [] then 0 else 1)
  {
    hide ReadAt, WrittenAt, CopiedMember, HeaderAt, SkipTo, Matches, WithoutMatch, RName, Restored, MoveFrom;
    code := 1;
    var magic := afd.Read(|ARMAG|);
    if magic != ARMAG {
      return false, 1;
    }
    var tfd1 := new File("");
    var tfd2 := new File("");
    var tfd3 := new File("");
    var seeking;
    ghost var left;
    ok, seeking, left := Split(afd, tfd1, tfd2, tfd3, argv, args, place, posname);
    if !ok || seeking {
      return;
    }
    ghost var before := afd.data;
    StartRestoring(afd);
    RestoreMore(tfd1, afd, before, "");
    RestoreMore(tfd2, afd, before, "" + tfd1.data);
    RestoreMore(tfd3, afd, before, "" + tfd1.data + tfd2.data);
    FinishRestoring(afd, |tfd1.data| + |tfd2.data| + |tfd3.data|, before, "" + tfd1.data + tfd2.data + tfd3.data);
    assert ARMAG + ("" + tfd1.data + tfd2.data + tfd3.data) == ARMAG + tfd1.data + tfd2.data + tfd3.data;
    code := if argv[0] == End then 0 else 1;
  }

  ghost predicate InFiles(p: Parts, tfd1: File, tfd2: File, tfd3: File)
    reads tfd1, tfd2, tfd3
  {
    p == Parts(tfd1.data, tfd2.data, tfd3.data) && tfd1.AtEnd() && tfd2.AtEnd() && tfd3.AtEnd()
  }

  /** Copy a member that no argument matches to the current file; the key
      member switches to the late one, before or after. */
  method PutPlaced(ar: Archiver, afd: File, cur: File, late: File, place: Place, isKey: bool, ghost r: HeaderResult,
                   ghost c: Cursor, seeking: bool)
    returns (ok: bool, cur': File, seeking': bool)
    requires afd !in {cur, late} && cur.AtEnd() && late.AtEnd() && ar.Holds(r) && afd.pos == r.next
    requires ar.chdr.lname > 0 ==> |ar.chdr.name| == ar.chdr.lname
    requires seeking == c.seeking && (c.past ==> cur == late)
    modifies afd`pos, cur, late
    ensures var (during, next) := Placed(place, isKey, c);
      var m := CopiedMember(afd.data, r);
      var to := if during.past then late else cur;
      && ok == m.Copied?
      && cur' == (if next.past then late else cur) && seeking' == next.seeking
      && (ok ==> afd.pos == m.next && to.AtEnd() && to.data == old(to.data) + m.bytes)
      && (to == late && cur != late ==> cur.AtEnd() && cur.data == old(cur.data))
      && (to == cur && cur != late ==> late.AtEnd() && late.data == old(late.data))
  {
    hide CopiedMember;
    cur', seeking' := cur, seeking;
    if seeking && isKey {
      seeking' := false;
      if place == BeforeKey {
        cur' := late;
      }
      ok := ar.PutOld(afd, cur', r);
      if place == AfterKey {
        cur' := late;
      }
    } else {
      ok := ar.PutOld(afd, cur', r);
    }
  }

  /** Where the loop over the headers stands. */
  datatype Progress = Progress(pos: nat, args: seq<string>, c: Cursor, p: Parts)

  ghost function MoveFromHere(data: Bytes, place: Place, key: string, s: Progress): Moving {
    MoveFrom(data, s.pos, s.args, place, key, s.c, s.p)
  }

  /** The loop over the headers. */
  method Split(afd: File, tfd1: File, tfd2: File, tfd3: File, argv: array<Arg>, ghost args: seq<string>,
               place: Place, posname: string)
    returns (ok: bool, seeking: bool, ghost left: seq<string>)
    requires tfd1 != tfd2 && tfd1 != tfd3 && tfd2 != tfd3 && afd !in {tfd1, tfd2, tfd3}
    requires InFiles(Parts("", "", ""), tfd1, tfd2, tfd3) && Lists(argv, args)
    modifies afd`pos, tfd1, tfd2, tfd3, argv
    ensures var w := MoveFrom(afd.data, old(afd.pos), args, place, posname, FirstCursor(place), Parts("", "", ""));
      && ok == w.Moved?
      && (ok ==> InFiles(w.parts, tfd1, tfd2, tfd3) && left == w.args && seeking == w.seeking && Lists(argv, left))
  {
    hide HeaderAt, Lists, InFiles, MoveFrom;
    var ar := new Archiver();
    left := args;
    seeking := place != AtEnd;
    var cur := tfd1;
    ghost var s := Progress(afd.pos, args, FirstCursor(place), Parts("", "", ""));
    while true
      invariant InFiles(s.p, tfd1, tfd2, tfd3) && Lists(argv, left) && fresh(ar)
      invariant s.pos == afd.pos && s.args == left && s.c.seeking == seeking && cur == if s.c.past then tfd3 else tfd1
      invariant MoveFromHere(afd.data, place, posname, s)
             == MoveFrom(afd.data, old(afd.pos), args, place, posname, FirstCursor(place), Parts("", "", ""))
      decreases |afd.data| - afd.pos
    {
      ghost var r := HeaderAt(afd.data, afd.pos);
      var status := ar.GetArobj(afd);
      if status != Member {
        LastMoveStep(afd.data, s.pos, left, place, posname, s.c, s.p);
        return status == EndOfArchive, seeking, left;
      }
      var copied;
      copied, cur, seeking, s := SplitNext(ar, afd, tfd1, tfd2, tfd3, cur, argv, place, posname, r, s, seeking);
      left := s.args;
      if !copied {
        return false, seeking, left;
      }
    }
  }

  lemma LastMoveStep(data: Bytes, pos: nat, args: seq<string>, place: Place, key: string, c: Cursor, p: Parts)
    requires !HeaderAt(data, pos).Got?
    ensures MoveFrom(data, pos, args, place, key, c, p)
         == if HeaderAt(data, pos).NoMore? then Moved(p, args, c.seeking) else Stuck
  {
    hide HeaderAt;
  }

  /** One member. */
  method SplitNext(ar: Archiver, afd: File, tfd1: File, tfd2: File, tfd3: File, cur: File, argv: array<Arg>,
                   place: Place, posname: string, ghost r: HeaderResult, ghost s: Progress, seeking: bool)
    returns (copied: bool, cur': File, seeking': bool, ghost s': Progress)
    requires tfd1 != tfd2 && tfd1 != tfd3 && tfd2 != tfd3 && afd !in {tfd1, tfd2, tfd3}
    requires InFiles(s.p, tfd1, tfd2, tfd3) && Lists(argv, s.args)
    requires r == HeaderAt(afd.data, s.pos) && ar.Holds(r) && afd.pos == r.next
    requires ar.chdr.lname > 0 ==> |ar.chdr.name| == ar.chdr.lname
    requires s.c.seeking == seeking && cur == if s.c.past then tfd3 else tfd1
    modifies afd`pos, tfd1, tfd2, tfd3, argv
    ensures !copied ==> MoveFromHere(afd.data, place, posname, s).Stuck?
    ensures copied ==>
      && MoveFromHere(afd.data, place, posname, s) == MoveFromHere(afd.data, place, posname, s')
      && InFiles(s'.p, tfd1, tfd2, tfd3) && Lists(argv, s'.args)
      && r.next <= afd.pos == s'.pos && s'.c.seeking == seeking' && cur' == if s'.c.past then tfd3 else tfd1
  {
    hide CopiedMember, HeaderAt, SkipTo, Matches, WithoutMatch, Lists, NameOf, RName;
    var name := NameOf(ar.chdr);
    var file := Files(argv, s.args, name);
    if file != End {
      cur', seeking' := cur, seeking;
      copied := ar.PutOld(afd, tfd2, r);
      s' := Progress(afd.pos, WithoutMatch(s.args, name), s.c, Parts(tfd1.data, tfd2.data, tfd3.data));
    } else {
      copied, cur', seeking' := PutPlaced(ar, afd, cur, tfd3, place, name == RName(posname), r, s.c, seeking);
      s' := Progress(afd.pos, s.args, Placed(place, name == RName(posname), s.c).1,
                     Parts(tfd1.data, tfd2.data, tfd3.data));
    }
  }
}
