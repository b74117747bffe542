/** Deleting, moving and replacing as operations on the list of members. */
module ArTheorems {
  import opened CString
  import opened ArFile
  import opened ArHeader
  import opened ArCopy
  import opened ArArgs
  import opened ArMembers
  import opened ArDelete
  import opened ArMove
  import opened ArAssignment
  import opened ArEncoding

  function ArchiveOf(ms: seq<Entry>): Bytes {
    ARMAG + EncodeAll(ms)
  }

  lemma ArchiveFacts(ms: seq<Entry>)
    ensures HasMagic(ArchiveOf(ms)) && At(ArchiveOf(ms), |ARMAG|, EncodeAll(ms))
    ensures |ARMAG| + |EncodeAll(ms)| == |ArchiveOf(ms)|
  {
    hide EncodeAll;
    assert ArchiveOf(ms)[0..|ARMAG|] == ARMAG;
  }

  /** The members no argument matches, and those one does, in archive order. */
  function Unmatched(ms: seq<Entry>, choices: seq<Choice>): seq<Entry>
    requires |ms| == |choices|
  {
    if ms == [] then []
    else (if choices[0].Nobody? then [ms[0]] else []) + Unmatched(ms[1..], choices[1..])
  }

  function Matched(ms: seq<Entry>, choices: seq<Choice>): seq<Entry>
    requires |ms| == |choices|
  {
    if ms == [] then []
    else (if choices[0].Chosen? then [ms[0]] else []) + Matched(ms[1..], choices[1..])
  }

  function ChoicesFor(ms: seq<Entry>, args: seq<string>): (choices: seq<Choice>)
    ensures |choices| == |ms|
  {
    Assigned(Names(ms), args)
  }

  function Leftover(ms: seq<Entry>, args: seq<string>): seq<string> {
    Left(Names(ms), args)
  }

  lemma ChoicesStep(ms: seq<Entry>, args: seq<string>)
    requires ms != []
    ensures var name := NameIn(ms[0]);
      var rest := if Matches(args, name) then WithoutMatch(args, name) else args;
      var v, w := Unmatched(ms[1..], ChoicesFor(ms[1..], rest)), Matched(ms[1..], ChoicesFor(ms[1..], rest));
      && ChoicesFor(ms, args) == [if Matches(args, name) then Chosen(args[FirstMatch(args, name)]) else Nobody]
                                 + ChoicesFor(ms[1..], rest)
      && Leftover(ms, args) == Leftover(ms[1..], rest)
      && Unmatched(ms, ChoicesFor(ms, args)) == (if Matches(args, name) then v else [ms[0]] + v)
      && Matched(ms, ChoicesFor(ms, args)) == (if Matches(args, name) then [ms[0]] + w else w)
  {
    hide Matches, FirstMatch, WithoutMatch, NameIn;
    assert Names(ms)[1..] == Names(ms[1..]);
    var name := NameIn(ms[0]);
    var rest := if Matches(args, name) then WithoutMatch(args, name) else args;
    assert ChoicesFor(ms, args)[1..] == ChoicesFor(ms[1..], rest);
  }

  /** Standing before the members ms, the last of the archive. */
  ghost predicate Before(data: Bytes, pos: nat, ms: seq<Entry>) {
    AllWellFormed(ms) && At(data, pos, EncodeAll(ms)) && pos + |EncodeAll(ms)| == |data|
  }

  /** One step on: what the next header reads as, and what a copy and a skip
      do. */
  lemma NextMember(data: Bytes, pos: nat, ms: seq<Entry>)
    requires Before(data, pos, ms)
    ensures ms == [] ==> HeaderAt(data, pos) == NoMore
    ensures ms != [] ==>
      var r := HeaderAt(data, pos);
      var next := pos + |Encode(ms[0])|;
      && r.Got? && Parsed(ms[0]).Got? && r.chdr == Parsed(ms[0]).chdr && NameOf(r.chdr) == NameIn(ms[0])
      && CopiedMember(data, r) == Copied(Encode(ms[0]), next) && SkipTo(r) == next
      && Before(data, next, ms[1..])
  {
    hide HeaderAt, Parsed, Encode, SkipTo, WellFormed, At, CopiedMember, NameOf;
    if ms == [] {
      NothingMore(data, pos);
    } else {
      assert WellFormed(ms[0]) && AllWellFormed(ms[1..]);
      AtAppend(data, pos, Encode(ms[0]), EncodeAll(ms[1..]));
      MemberCopied(data, pos, ms[0]);
    }
  }

  lemma {:induction false} DeleteRuns(data: Bytes, pos: nat, ms: seq<Entry>, args: seq<string>, out: Bytes)
    requires Before(data, pos, ms)
    ensures DeleteFrom(data, pos, args, out)
         == Deleted(out + EncodeAll(Unmatched(ms, ChoicesFor(ms, args))), Leftover(ms, args))
    decreases |ms|
  {
    hide HeaderAt, Parsed, Encode, SkipTo, Before, CopiedMember, NameOf, NameIn, Matches, FirstMatch, WithoutMatch,
         ChoicesFor, Leftover;
    NextMember(data, pos, ms);
    if ms == [] {
      NoChoices(args);
      assert out + "" == out;
    } else {
      ChoicesStep(ms, args);
      var name, next := NameIn(ms[0]), pos + |Encode(ms[0])|;
      if Matches(args, name) {
        DeleteRuns(data, next, ms[1..], WithoutMatch(args, name), out);
      } else {
        DeleteRuns(data, next, ms[1..], args, out + Encode(ms[0]));
        var v := Unmatched(ms[1..], ChoicesFor(ms[1..], args));
        Assoc(out, Encode(ms[0]), EncodeAll(v));
        assert ([ms[0]] + v)[1..] == v;
      }
    }
  }

  lemma NoChoices(args: seq<string>)
    ensures ChoicesFor([], args) == [] && Leftover([], args) == args
  {
  }

  lemma Assoc(a: Bytes, b: Bytes, c: Bytes)
    ensures (a + b) + c == a + (b + c)
  {
  }

  /** Deleting leaves the archive of the members that no argument matches, in
      their order and byte for byte, and the arguments that match no member. */
  lemma DeleteMeaning(ms: seq<Entry>, args: seq<string>)
    requires AllWellFormed(ms)
    ensures HasMagic(ArchiveOf(ms))
    ensures DeleteFrom(ArchiveOf(ms), |ARMAG|, args, "")
         == Deleted(EncodeAll(Unmatched(ms, ChoicesFor(ms, args))), Leftover(ms, args))
    ensures AllWellFormed(Unmatched(ms, ChoicesFor(ms, args)))
  {
    hide EncodeAll, ChoicesFor, Leftover, WellFormed;
    ArchiveFacts(ms);
    DeleteRuns(ArchiveOf(ms), |ARMAG|, ms, args, "");
    var kept := Unmatched(ms, ChoicesFor(ms, args));
    assert "" + EncodeAll(kept) == EncodeAll(kept);
    UnmatchedAmong(ms, ChoicesFor(ms, args));
  }

  lemma {:induction false} UnmatchedAmong(ms: seq<Entry>, choices: seq<Choice>)
    requires |ms| == |choices|
    ensures forall m :: m in Unmatched(ms, choices) || m in Matched(ms, choices) ==> m in ms
    ensures |Unmatched(ms, choices)| + |Matched(ms, choices)| == |ms|
    ensures multiset(Unmatched(ms, choices)) + multiset(Matched(ms, choices)) == multiset(ms)
  {
    if ms != [] {
      UnmatchedAmong(ms[1..], choices[1..]);
      assert ms == [ms[0]] + ms[1..];
    }
  }

  /** The first member under the key's name, or the number of members. */
  function KeyAt(ms: seq<Entry>, key: string): (k: nat)
    ensures k <= |ms|
  {
    if ms == [] || NameIn(ms[0]) == RName(key) then 0 else 1 + KeyAt(ms[1..], key)
  }

  /** How many members go before the place. */
  function SplitPoint(n: nat, k: nat, place: Place): (j: nat)
    requires k <= n
    ensures j <= n
  {
    if place == AtEnd || k == n then n else if place == BeforeKey then k else k + 1
  }

  /** The same when the loop is under way. */
  function SplitFrom(n: nat, k: nat, place: Place, c: Cursor): (j: nat)
    requires k <= n
    ensures j <= n
  {
    if c.past then 0 else if c.seeking then SplitPoint(n, k, place) else n
  }

  ghost predicate CursorFits(place: Place, c: Cursor) {
    c.seeking ==> !c.past && place != AtEnd
  }

  function MovedFrom(ms: seq<Entry>, args: seq<string>, place: Place, key: string, c: Cursor, p: Parts): Moving {
    var u := Unmatched(ms, ChoicesFor(ms, args));
    var k := KeyAt(u, key);
    var j := SplitFrom(|u|, k, place, c);
    Moved(Parts(p.before + EncodeAll(u[..j]), p.selected + EncodeAll(Matched(ms, ChoicesFor(ms, args))),
                p.after + EncodeAll(u[j..])),
          Leftover(ms, args), c.seeking && k == |u|)
  }

  lemma {:induction false} MoveRuns(data: Bytes, pos: nat, ms: seq<Entry>, args: seq<string>, place: Place, key: string,
                                    c: Cursor, p: Parts)
    requires Before(data, pos, ms) && CursorFits(place, c)
    ensures MoveFrom(data, pos, args, place, key, c, p) == MovedFrom(ms, args, place, key, c, p)
    decreases |ms|
  {
    hide HeaderAt, Parsed, Encode, SkipTo, Before, CopiedMember, NameOf, NameIn, Matches, FirstMatch, WithoutMatch,
         ChoicesFor, Leftover, MovedFrom, RName;
    NextMember(data, pos, ms);
    if ms == [] {
      MoveEnds(args, place, key, c, p);
    } else {
      var name, m, next := NameIn(ms[0]), Encode(ms[0]), pos + |Encode(ms[0])|;
      if Matches(args, name) {
        MoveRuns(data, next, ms[1..], WithoutMatch(args, name), place, key, c, p.(selected := p.selected + m));
        MatchedMoves(ms, args, place, key, c, p);
      } else {
        var (during, after) := Placed(place, name == RName(key), c);
        MoveRuns(data, next, ms[1..], args, place, key, after, AddedTo(p, during.past, m));
        UnmatchedMoves(ms, args, place, key, c, p);
      }
    }
  }

  lemma MoveEnds(args: seq<string>, place: Place, key: string, c: Cursor, p: Parts)
    ensures MovedFrom([], args, place, key, c, p) == Moved(p, args, c.seeking)
  {
    NoChoices(args);
    assert p.before + "" == p.before && p.selected + "" == p.selected && p.after + "" == p.after;
  }

  lemma MatchedMoves(ms: seq<Entry>, args: seq<string>, place: Place, key: string, c: Cursor, p: Parts)
    requires ms != [] && Matches(args, NameIn(ms[0]))
    ensures MovedFrom(ms, args, place, key, c, p)
         == MovedFrom(ms[1..], WithoutMatch(args, NameIn(ms[0])), place, key, c,
                      p.(selected := p.selected + Encode(ms[0])))
  {
    hide NameIn, Matches, FirstMatch, WithoutMatch, ChoicesFor, Leftover, Encode;
    ChoicesStep(ms, args);
    var w := Matched(ms[1..], ChoicesFor(ms[1..], WithoutMatch(args, NameIn(ms[0]))));
    assert ([ms[0]] + w)[1..] == w;
    Assoc(p.selected, Encode(ms[0]), EncodeAll(w));
  }

  lemma UnmatchedMoves(ms: seq<Entry>, args: seq<string>, place: Place, key: string, c: Cursor, p: Parts)
    requires ms != [] && !Matches(args, NameIn(ms[0])) && CursorFits(place, c)
    ensures var (during, after) := Placed(place, NameIn(ms[0]) == RName(key), c);
      && CursorFits(place, after)
      && MovedFrom(ms, args, place, key, c, p)
         == MovedFrom(ms[1..], args, place, key, after, AddedTo(p, during.past, Encode(ms[0])))
  {
    hide NameIn, Matches, FirstMatch, WithoutMatch, ChoicesFor, Leftover, Encode, RName;
    ChoicesStep(ms, args);
    FirstSplit(ms[0], Unmatched(ms[1..], ChoicesFor(ms[1..], args)), place, key, c, p);
  }

  /** Adding the first of the members to its part first. */
  lemma FirstSplit(m: Entry, v: seq<Entry>, place: Place, key: string, c: Cursor, p: Parts)
    requires CursorFits(place, c)
    ensures var u := [m] + v;
      var (during, after) := Placed(place, NameIn(m) == RName(key), c);
      var j, i := SplitFrom(|u|, KeyAt(u, key), place, c), SplitFrom(|v|, KeyAt(v, key), place, after);
      var q := AddedTo(p, during.past, Encode(m));
      && p.before + EncodeAll(u[..j]) == q.before + EncodeAll(v[..i])
      && p.after + EncodeAll(u[j..]) == q.after + EncodeAll(v[i..])
      && p.selected == q.selected
      && (c.seeking && KeyAt(u, key) == |u| <==> after.seeking && KeyAt(v, key) == |v|)
  {
    hide NameIn, RName, Encode;
    var u := [m] + v;
    assert u[1..] == v;
    var (during, after) := Placed(place, NameIn(m) == RName(key), c);
    var j, i := SplitFrom(|u|, KeyAt(u, key), place, c), SplitFrom(|v|, KeyAt(v, key), place, after);
    if during.past {
      assert j == 0 && i == 0;
      assert u[0..] == [m] + v && v[0..] == v && u[..0] == [] && v[..0] == [];
      Assoc(p.after, Encode(m), EncodeAll(v));
    } else {
      assert j == i + 1;
      assert u[..j] == [m] + v[..i] && u[j..] == v[i..] && u[..j][1..] == v[..i];
      Assoc(p.before, Encode(m), EncodeAll(v[..i]));
    }
  }

  /** The members in the order a move leaves them in: the selected ones, in
      archive order, as one block at the end or next to the key. */
  function Rearranged(ms: seq<Entry>, args: seq<string>, place: Place, key: string): seq<Entry> {
    var u := Unmatched(ms, ChoicesFor(ms, args));
    var j := SplitPoint(|u|, KeyAt(u, key), place);
    u[..j] + Matched(ms, ChoicesFor(ms, args)) + u[j..]
  }

  predicate KeyMissing(us: seq<Entry>, place: Place, key: string) {
    place != AtEnd && KeyAt(us, key) == |us|
  }

  lemma MoveMeaning(ms: seq<Entry>, args: seq<string>, place: Place, key: string)
    requires AllWellFormed(ms)
    ensures HasMagic(ArchiveOf(ms))
    ensures var w := MoveFrom(ArchiveOf(ms), |ARMAG|, args, place, key, FirstCursor(place), Parts("", "", ""));
      && w.Moved? && w.args == Leftover(ms, args)
      && w.seeking == KeyMissing(Unmatched(ms, ChoicesFor(ms, args)), place, key)
      && ARMAG + w.parts.before + w.parts.selected + w.parts.after == ArchiveOf(Rearranged(ms, args, place, key))
    ensures multiset(Rearranged(ms, args, place, key)) == multiset(ms)
    ensures AllWellFormed(Rearranged(ms, args, place, key))
  {
    hide EncodeAll, ChoicesFor, Leftover, WellFormed, KeyAt, Unmatched, Matched, MoveFrom;
    ArchiveFacts(ms);
    MoveRuns(ArchiveOf(ms), |ARMAG|, ms, args, place, key, FirstCursor(place), Parts("", "", ""));
    var u, s := Unmatched(ms, ChoicesFor(ms, args)), Matched(ms, ChoicesFor(ms, args));
    var j := SplitPoint(|u|, KeyAt(u, key), place);
    assert SplitFrom(|u|, KeyAt(u, key), place, FirstCursor(place)) == j;
    EncodeThree(u[..j], s, u[j..]);
    RearrangedSame(ms, args, place, key);
  }

  /** Moving neither loses nor makes members. */
  lemma RearrangedSame(ms: seq<Entry>, args: seq<string>, place: Place, key: string)
    ensures multiset(Rearranged(ms, args, place, key)) == multiset(ms)
    ensures AllWellFormed(ms) ==> AllWellFormed(Rearranged(ms, args, place, key))
  {
    hide WellFormed, ChoicesFor, Unmatched, Matched, KeyAt;
    UnmatchedAmong(ms, ChoicesFor(ms, args));
    var u := Unmatched(ms, ChoicesFor(ms, args));
    var j := SplitPoint(|u|, KeyAt(u, key), place);
    assert u == u[..j] + u[j..];
    assert multiset(u) == multiset(u[..j]) + multiset(u[j..]);
    forall m | m in Rearranged(ms, args, place, key) ensures m in ms {
      assert m in multiset(Rearranged(ms, args, place, key));
    }
  }

  lemma EncodeThree(a: seq<Entry>, b: seq<Entry>, c: seq<Entry>)
    ensures ARMAG + ("" + EncodeAll(a)) + ("" + EncodeAll(b)) + ("" + EncodeAll(c)) == ArchiveOf(a + b + c)
  {
    hide EncodeAll;
    EncodeAppend(a, b);
    EncodeAppend(a + b, c);
  }
}
