/** Replacing as an operation on the list of members. */
module ArReplaceTheorems {
  import opened ArFile
  import opened ArHeader
  import opened ArCopy
  import opened ArArgs
  import opened ArMembers
  import opened ArDelete
  import opened ArMove
  import opened ArReplace
  import opened ArAssignment
  import opened ArEncoding
  import opened ArHeaderTheorems
  import opened ArTheorems

  function EntryFor(path: string, disk: Disk): Entry
    requires path in disk
  {
    NewEntry(RName(path), disk[path])
  }

  /** A member, or the file that replaces it: one that can be read and, when
      only updates are wanted, was modified after the date in the header. */
  function Renewed(m: Entry, choice: Choice, disk: Disk, update: bool): Entry {
    if choice.Chosen? && choice.path in disk && Parsed(m).Got?
       && (update ==> disk[choice.path].mtime > Parsed(m).chdr.date)
    then EntryFor(choice.path, disk) else m
  }

  function AllRenewed(ms: seq<Entry>, choices: seq<Choice>, disk: Disk, update: bool): (r: seq<Entry>)
    requires |ms| == |choices|
    ensures |r| == |ms|
  {
    if ms == [] then []
    else [Renewed(ms[0], choices[0], disk, update)] + AllRenewed(ms[1..], choices[1..], disk, update)
  }

  /** The first unmatched member under the key's name. */
  function KeyAmong(ms: seq<Entry>, choices: seq<Choice>, key: string): (k: nat)
    requires |ms| == |choices|
    ensures k <= |ms|
  {
    if ms == [] || (choices[0].Nobody? && NameIn(ms[0]) == RName(key)) then 0
    else 1 + KeyAmong(ms[1..], choices[1..], key)
  }

  function AnyUnreadable(choices: seq<Choice>, disk: Disk): bool {
    exists i :: 0 <= i < |choices| && choices[i].Chosen? && choices[i].path !in disk
  }

  function Added(args: seq<string>, disk: Disk): seq<Entry> {
    if args == [] then []
    else (if args[0] in disk then [EntryFor(args[0], disk)] else []) + Added(args[1..], disk)
  }

  lemma {:induction false} AdditionsEncoded(args: seq<string>, disk: Disk)
    ensures Additions(args, disk) == EncodeAll(Added(args, disk))
  {
    hide NewMember, RName, NewEntry, Encode;
    if args != [] {
      AdditionsEncoded(args[1..], disk);
      var rest := Added(args[1..], disk);
      if args[0] in disk {
        SameBytes(RName(args[0]), disk[args[0]]);
        assert ([EntryFor(args[0], disk)] + rest)[1..] == rest;
      } else {
        assert [] + rest == rest;
      }
    }
  }

  function ReplacedFrom(ms: seq<Entry>, args: seq<string>, disk: Disk, o: Options, c: Cursor, h: Halves, error: bool):
      Replacing
  {
    var choices := ChoicesFor(ms, args);
    var r := AllRenewed(ms, choices, disk, o.update);
    var k := KeyAmong(ms, choices, o.key);
    var j := SplitFrom(|r|, k, o.place, c);
    Replaced(Halves(h.first + EncodeAll(r[..j]), h.second + EncodeAll(r[j..])), Leftover(ms, args),
             c.seeking && k == |ms|, error || AnyUnreadable(choices, disk))
  }

  lemma {:induction false} ReplaceRuns(data: Bytes, pos: nat, ms: seq<Entry>, args: seq<string>, disk: Disk,
                                       o: Options, c: Cursor, h: Halves, error: bool)
    requires Before(data, pos, ms) && CursorFits(o.place, c)
    ensures ReplaceFrom(data, pos, args, disk, o, c, h, error) == ReplacedFrom(ms, args, disk, o, c, h, error)
    decreases |ms|
  {
    hide HeaderAt, Parsed, Encode, SkipTo, Before, CopiedMember, NameOf, NameIn, FirstMatch, WithoutMatch,
         ChoicesFor, Leftover, ReplacedFrom, ReplaceFrom, RName, Swapped, Renewed, AppendedTo, CursorFits, Placed,
         EncodeAll;
    NextMember(data, pos, ms);
    if ms == [] {
      LastStep(data, pos, args, disk, o, c, h, error);
      ReplaceEnds(args, disk, o, c, h, error);
    } else {
      var name, m, next := NameIn(ms[0]), Encode(ms[0]), pos + |Encode(ms[0])|;
      if Matches(args, name) {
        var path := args[FirstMatch(args, name)];
        MatchedStep(data, pos, args, disk, o, c, h, error);
        SwappedBytes(data, HeaderAt(data, pos), ms[0], path, disk, o.update, next);
        var e := Renewed(ms[0], Chosen(path), disk, o.update);
        ReplaceRuns(data, next, ms[1..], WithoutMatch(args, name), disk, o, c, AppendedTo(h, c.past, Encode(e)),
                    error || path !in disk);
        MatchedReplaced(ms, args, disk, o, c, h, error);
      } else {
        UnmatchedStep(data, pos, args, disk, o, c, h, error);
        var (during, after) := Placed(o.place, name == RName(o.key), c);
        UnmatchedReplaced(ms, args, disk, o, c, h, error);
        ReplaceRuns(data, next, ms[1..], args, disk, o, after, AppendedTo(h, during.past, m), error);
      }
    }
  }

  lemma ReplaceEnds(args: seq<string>, disk: Disk, o: Options, c: Cursor, h: Halves, error: bool)
    ensures ReplacedFrom([], args, disk, o, c, h, error) == Replaced(h, args, c.seeking, error)
  {
    NoChoices(args);
    assert h.first + "" == h.first && h.second + "" == h.second;
  }

  lemma SwappedBytes(data: Bytes, r: HeaderResult, m: Entry, path: string, disk: Disk, update: bool, next: nat)
    requires r.Got? && Parsed(m).Got? && r.chdr == Parsed(m).chdr
    requires CopiedMember(data, r) == Copied(Encode(m), next) && SkipTo(r) == next
    ensures Swapped(data, r, path, disk, update) == Copied(Encode(Renewed(m, Chosen(path), disk, update)), next)
  {
    hide CopiedMember, SkipTo, Encode, Parsed, NewMember, NewEntry, RName;
    if path in disk {
      SameBytes(RName(path), disk[path]);
    }
  }

  lemma MatchedReplaced(ms: seq<Entry>, args: seq<string>, disk: Disk, o: Options, c: Cursor, h: Halves, error: bool)
    requires ms != [] && Matches(args, NameIn(ms[0])) && CursorFits(o.place, c)
    ensures var path := args[FirstMatch(args, NameIn(ms[0]))];
      var e := Renewed(ms[0], Chosen(path), disk, o.update);
      ReplacedFrom(ms, args, disk, o, c, h, error)
        == ReplacedFrom(ms[1..], WithoutMatch(args, NameIn(ms[0])), disk, o, c, AppendedTo(h, c.past, Encode(e)),
                        error || path !in disk)
  {
    hide NameIn, Matches, FirstMatch, WithoutMatch, ChoicesFor, Leftover, Encode, RName, Renewed, SplitFrom,
         EncodeAll, AnyUnreadable, Unmatched, Matched;
    ChoicesStep(ms, args);
    var choices := ChoicesFor(ms, args);
    var rest := ChoicesFor(ms[1..], WithoutMatch(args, NameIn(ms[0])));
    assert choices[1..] == rest;
    UnreadableStep(choices, disk);
    var v := AllRenewed(ms[1..], rest, disk, o.update);
    SplitStep(Renewed(ms[0], choices[0], disk, o.update), v, KeyAmong(ms[1..], rest, o.key), false, o.place, c, h);
  }

  lemma UnmatchedReplaced(ms: seq<Entry>, args: seq<string>, disk: Disk, o: Options, c: Cursor, h: Halves, error: bool)
    requires ms != [] && !Matches(args, NameIn(ms[0])) && CursorFits(o.place, c)
    ensures var (during, after) := Placed(o.place, NameIn(ms[0]) == RName(o.key), c);
      && CursorFits(o.place, after)
      && ReplacedFrom(ms, args, disk, o, c, h, error)
         == ReplacedFrom(ms[1..], args, disk, o, after, AppendedTo(h, during.past, Encode(ms[0])), error)
  {
    hide NameIn, Matches, FirstMatch, WithoutMatch, ChoicesFor, Leftover, Encode, RName, SplitFrom, EncodeAll,
         AnyUnreadable, Unmatched, Matched;
    ChoicesStep(ms, args);
    var choices := ChoicesFor(ms, args);
    var rest := ChoicesFor(ms[1..], args);
    assert choices[1..] == rest;
    UnreadableStep(choices, disk);
    var v := AllRenewed(ms[1..], rest, disk, o.update);
    SplitStep(ms[0], v, KeyAmong(ms[1..], rest, o.key), NameIn(ms[0]) == RName(o.key), o.place, c, h);
  }

  lemma UnreadableStep(choices: seq<Choice>, disk: Disk)
    requires choices != []
    ensures AnyUnreadable(choices, disk)
            <==> (choices[0].Chosen? && choices[0].path !in disk) || AnyUnreadable(choices[1..], disk)
  {
    if AnyUnreadable(choices[1..], disk) {
      var i :| 0 <= i < |choices[1..]| && choices[1..][i].Chosen? && choices[1..][i].path !in disk;
      assert choices[i + 1].Chosen? && choices[i + 1].path !in disk;
    }
  }

  /** Adding the first of the members to its half first. */
  lemma SplitStep(m: Entry, v: seq<Entry>, k: nat, isKey: bool, place: Place, c: Cursor, h: Halves)
    requires CursorFits(place, c) && k <= |v|
    ensures var u := [m] + v;
      var (during, after) := Placed(place, isKey, c);
      var j := SplitFrom(|u|, if isKey then 0 else k + 1, place, c);
      var i := SplitFrom(|v|, k, place, after);
      var g := AppendedTo(h, during.past, Encode(m));
      && h.first + EncodeAll(u[..j]) == g.first + EncodeAll(v[..i])
      && h.second + EncodeAll(u[j..]) == g.second + EncodeAll(v[i..])
  {
    hide Encode;
    var u := [m] + v;
    assert u[1..] == v;
    var (during, after) := Placed(place, isKey, c);
    var j, i := SplitFrom(|u|, if isKey then 0 else k + 1, place, c), SplitFrom(|v|, k, place, after);
    if during.past {
      assert j == 0 && i == 0;
      assert u[0..] == [m] + v && v[0..] == v && u[..0] == [] && v[..0] == [];
      Assoc(h.second, Encode(m), EncodeAll(v));
    } else {
      assert j == i + 1;
      assert u[..j] == [m] + v[..i] && u[j..] == v[i..] && u[..j][1..] == v[..i];
      Assoc(h.first, Encode(m), EncodeAll(v[..i]));
    }
  }

  /** The members after a replacement: each matched member gives way to its
      file, and the files that match none are added at the end or next to the
      key. */
  function Updated(ms: seq<Entry>, args: seq<string>, disk: Disk, o: Options): seq<Entry> {
    var choices := ChoicesFor(ms, args);
    var r := AllRenewed(ms, choices, disk, o.update);
    var j := SplitPoint(|r|, KeyAmong(ms, choices, o.key), o.place);
    r[..j] + Added(Leftover(ms, args), disk) + r[j..]
  }

  lemma ReplaceMeaning(ms: seq<Entry>, args: seq<string>, disk: Disk, o: Options)
    requires AllWellFormed(ms)
    ensures HasMagic(ArchiveOf(ms))
    ensures var w := ReplaceFrom(ArchiveOf(ms), |ARMAG|, args, disk, o, FirstCursor(o.place), Halves("", ""), false);
      var choices := ChoicesFor(ms, args);
      && w.Replaced? && w.args == Leftover(ms, args) && w.error == AnyUnreadable(choices, disk)
      && w.seeking == (o.place != AtEnd && KeyAmong(ms, choices, o.key) == |ms|)
      && (!w.seeking ==>
            var h := AppendedTo(w.halves, o.place == AtEnd, Additions(w.args, disk));
            ARMAG + h.first + h.second == ArchiveOf(Updated(ms, args, disk, o)))
  {
    hide EncodeAll, ChoicesFor, Leftover, WellFormed, KeyAmong, Unmatched, Matched, ReplaceFrom, Additions, AllRenewed,
         Added, AnyUnreadable;
    ArchiveFacts(ms);
    var c := FirstCursor(o.place);
    ReplaceRuns(ArchiveOf(ms), |ARMAG|, ms, args, disk, o, c, Halves("", ""), false);
    var left := Leftover(ms, args);
    var choices := ChoicesFor(ms, args);
    var r := AllRenewed(ms, choices, disk, o.update);
    var k := KeyAmong(ms, choices, o.key);
    assert SplitFrom(|r|, k, o.place, c) == SplitPoint(|r|, k, o.place);
    AdditionsEncoded(left, disk);
    EncodeAdded(r, SplitPoint(|r|, k, o.place), Added(left, disk), o.place == AtEnd);
  }

  lemma EncodeAdded(r: seq<Entry>, j: nat, added: seq<Entry>, atEnd: bool)
    requires j <= |r| && (atEnd ==> j == |r|)
    ensures var h := AppendedTo(Halves("" + EncodeAll(r[..j]), "" + EncodeAll(r[j..])), atEnd, EncodeAll(added));
      ARMAG + h.first + h.second == ArchiveOf(r[..j] + added + r[j..])
  {
    hide EncodeAll;
    EncodeAppend(r[..j], added);
    EncodeAppend(r[..j] + added, r[j..]);
    EncodeNothing();
    JoinHalves(EncodeAll(r[..j]), EncodeAll(added), EncodeAll(r[j..]), atEnd);
  }

  lemma JoinHalves(a: Bytes, x: Bytes, b: Bytes, atEnd: bool)
    requires atEnd ==> b == ""
    ensures var h := AppendedTo(Halves("" + a, "" + b), atEnd, x);
      ARMAG + h.first + h.second == ARMAG + ((a + x) + b)
  {
    if atEnd {
      assert "" + b + x == x && (a + x) + b == a + x;
    }
  }

  lemma EncodeNothing()
    ensures EncodeAll([]) == ""
  {
  }

  ghost predicate FilesFit(args: seq<string>, disk: Disk) {
    forall path :: path in args && path in disk ==> FitsColumns(RName(path), disk[path])
  }

  /** What is written is an archive again. */
  lemma UpdatedWellFormed(ms: seq<Entry>, args: seq<string>, disk: Disk, o: Options)
    requires AllWellFormed(ms) && FilesFit(args, disk)
    ensures AllWellFormed(Updated(ms, args, disk, o))
  {
    hide WellFormed, RName, NewEntry, FitsColumns, Parsed;
    RenewedWellFormed(ms, args, disk, o.update);
    LeftoverAmong(Names(ms), args);
    AddedWellFormed(Leftover(ms, args), disk);
  }

  lemma {:induction false} LeftoverAmong(names: seq<string>, args: seq<string>)
    ensures forall path :: path in Left(names, args) ==> path in args
  {
    hide RName;
    if names != [] {
      LeftoverAmong(names[1..], if Matches(args, names[0]) then WithoutMatch(args, names[0]) else args);
    }
  }

  lemma {:induction false} AddedWellFormed(args: seq<string>, disk: Disk)
    requires FilesFit(args, disk)
    ensures AllWellFormed(Added(args, disk))
  {
    hide WellFormed, RName, NewEntry, FitsColumns;
    if args != [] {
      AddedWellFormed(args[1..], disk);
      if args[0] in disk {
        NewEntryReadsBack(RName(args[0]), disk[args[0]]);
      }
    }
  }

  lemma {:induction false} RenewedWellFormed(ms: seq<Entry>, args: seq<string>, disk: Disk, update: bool)
    requires AllWellFormed(ms) && FilesFit(args, disk)
    ensures AllWellFormed(AllRenewed(ms, ChoicesFor(ms, args), disk, update))
  {
    hide WellFormed, RName, NewEntry, FitsColumns, Parsed, ChoicesFor, Leftover, NameIn;
    if ms != [] {
      ChoicesStep(ms, args);
      assert WellFormed(ms[0]) && AllWellFormed(ms[1..]);
      var name := NameIn(ms[0]);
      var rest := if Matches(args, name) then WithoutMatch(args, name) else args;
      assert ChoicesFor(ms, args)[1..] == ChoicesFor(ms[1..], rest);
      RenewedWellFormed(ms[1..], rest, disk, update);
      if Matches(args, name) {
        var path := args[FirstMatch(args, name)];
        if path in disk {
          NewEntryReadsBack(RName(path), disk[path]);
        }
      }
    }
  }
}
