/** Which argument goes with which member. */
module ArAssignment {
  import opened ArHeader
  import opened ArArgs

  datatype Choice = Nobody | Chosen(path: string)

  /** The argument each member uses up. */
  function Assigned(names: seq<string>, args: seq<string>): (choices: seq<Choice>)
    ensures |choices| == |names|
  {
    if names == [] then []
    else if Matches(args, names[0]) then
      [Chosen(args[FirstMatch(args, names[0])])] + Assigned(names[1..], WithoutMatch(args, names[0]))
    else [Nobody] + Assigned(names[1..], args)
  }

  /** The arguments no member uses up. */
  function Left(names: seq<string>, args: seq<string>): seq<string> {
    if names == [] then args
    else if Matches(args, names[0]) then Left(names[1..], WithoutMatch(args, names[0]))
    else Left(names[1..], args)
  }

  function RNames(args: seq<string>): seq<string> {
    seq(|args|, i requires 0 <= i < |args| => RName(args[i]))
  }

  /** How often a name occurs. */
  function Count(names: seq<string>, name: string): nat {
    if names == [] then 0 else (if names[0] == name then 1 else 0) + Count(names[1..], name)
  }

  lemma {:induction false} CountAppend(a: seq<string>, b: seq<string>, name: string)
    ensures Count(a + b, name) == Count(a, name) + Count(b, name)
  {
    if a == [] {
      assert a + b == b;
    } else {
      assert (a + b)[1..] == a[1..] + b;
      CountAppend(a[1..], b, name);
    }
  }

  lemma {:induction false} CountAbsent(a: seq<string>, name: string)
    requires forall i :: 0 <= i < |a| ==> a[i] != name
    ensures Count(a, name) == 0
  {
    if a != [] {
      CountAbsent(a[1..], name);
    }
  }

  /** The names with one removed at i. */
  lemma CountWithout(a: seq<string>, i: nat, name: string)
    requires i < |a|
    ensures Count(a, name) == Count(a[..i] + a[i + 1..], name) + if a[i] == name then 1 else 0
  {
    assert a == a[..i] + (a[i..i + 1] + a[i + 1..]);
    CountAppend(a[..i], a[i..i + 1] + a[i + 1..], name);
    CountAppend(a[i..i + 1], a[i + 1..], name);
    CountAppend(a[..i], a[i + 1..], name);
    assert Count(a[i..i + 1], name) == if a[i] == name then 1 else 0;
  }

  lemma MatchesIff(args: seq<string>, name: string)
    ensures Matches(args, name) <==> Count(RNames(args), name) > 0
  {
    hide RName;
    var i := FirstMatch(args, name);
    if i < |args| {
      CountWithout(RNames(args), i, name);
    } else {
      CountAbsent(RNames(args), name);
    }
  }

  lemma CountAfterMatch(args: seq<string>, name: string, other: string)
    requires Matches(args, name)
    ensures Count(RNames(args), other)
         == Count(RNames(WithoutMatch(args, name)), other) + if name == other then 1 else 0
  {
    hide RName;
    var i := FirstMatch(args, name);
    CountWithout(RNames(args), i, other);
    assert RNames(args)[..i] + RNames(args)[i + 1..] == RNames(WithoutMatch(args, name));
  }

  /** A member is matched if and only if fewer members before it bear its name
      than arguments do. */
  lemma {:induction false} AssignedIff(names: seq<string>, args: seq<string>, k: nat)
    requires k < |names|
    ensures Assigned(names, args)[k].Chosen?
            <==> Count(names[..k], names[k]) < Count(RNames(args), names[k])
  {
    hide FirstMatch, WithoutMatch, Matches, RNames;
    MatchesIff(args, names[0]);
    if k > 0 {
      assert names[..k] == [names[0]] + names[1..][..k - 1];
      var rest := if Matches(args, names[0]) then WithoutMatch(args, names[0]) else args;
      AssignedIff(names[1..], rest, k - 1);
      if Matches(args, names[0]) {
        CountAfterMatch(args, names[0], names[k]);
      }
    }
  }

  /** It uses the argument that is as far along among its namesakes as the
      member is. */
  lemma {:induction false} AssignedNth(names: seq<string>, args: seq<string>, k: nat) returns (i: nat)
    requires k < |names| && Assigned(names, args)[k].Chosen?
    ensures i < |args| && Assigned(names, args)[k].path == args[i] && RName(args[i]) == names[k]
    ensures Count(RNames(args[..i]), names[k]) == Count(names[..k], names[k])
  {
    hide RName;
    var n0 := names[0];
    if k == 0 {
      i := FirstMatch(args, n0);
      CountAbsent(RNames(args[..i]), n0);
    } else {
      assert names[..k] == [n0] + names[1..][..k - 1];
      if Matches(args, n0) {
        var j := AssignedNth(names[1..], WithoutMatch(args, n0), k - 1);
        i := BeforeRemoval(args, n0, names[k], j);
      } else {
        MatchesIff(args, n0);
        i := AssignedNth(names[1..], args, k - 1);
        CountPrefix(args, i, names[k]);
      }
    }
  }

  lemma CountPrefix(args: seq<string>, i: nat, name: string)
    requires i < |args| && RName(args[i]) == name
    ensures Count(RNames(args), name) > 0
  {
    hide RName;
    CountWithout(RNames(args), i, name);
  }

  /** Position j of the list without its first match, in the list itself. */
  lemma BeforeRemoval(args: seq<string>, name: string, other: string, j: nat) returns (i: nat)
    requires Matches(args, name) && j < |args| - 1
    requires RName(WithoutMatch(args, name)[j]) == other
    ensures i < |args| && args[i] == WithoutMatch(args, name)[j]
    ensures Count(RNames(args[..i]), other)
         == Count(RNames(WithoutMatch(args, name)[..j]), other) + if name == other then 1 else 0
  {
    hide RName;
    var m := FirstMatch(args, name);
    var rest := WithoutMatch(args, name);
    if j < m {
      i := j;
      assert rest[..j] == args[..i];
    } else {
      i := j + 1;
      CountShift(args, m, i, other);
    }
  }

  /** The arguments that are further along among their namesakes than there
      are members of that name. */
  function LeftByRank(args: seq<string>, names: seq<string>, i: nat): seq<string>
    requires i <= |args|
    decreases |args| - i
  {
    if i == |args| then []
    else
      (if Count(RNames(args[..i]), RName(args[i])) >= Count(names, RName(args[i])) then [args[i]] else [])
      + LeftByRank(args, names, i + 1)
  }

  lemma {:induction false} LeftIff(names: seq<string>, args: seq<string>)
    ensures Left(names, args) == LeftByRank(args, names, 0)
  {
    hide RName, LeftByRank, FirstMatch, WithoutMatch, Matches;
    if names == [] {
      NobodyTaken(args, 0);
    } else if Matches(args, names[0]) {
      LeftIff(names[1..], WithoutMatch(args, names[0]));
      var m := FirstMatchAt(args, names[0]);
      TakenOut(args, names, m, 0);
    } else {
      LeftIff(names[1..], args);
      NotNamed(args, names, 0);
    }
  }

  lemma {:induction false} NobodyTaken(args: seq<string>, i: nat)
    requires i <= |args|
    ensures LeftByRank(args, [], i) == args[i..]
    decreases |args| - i
  {
    hide RName;
    if i < |args| {
      NobodyTaken(args, i + 1);
    }
  }

  lemma {:induction false} NotNamed(args: seq<string>, names: seq<string>, i: nat)
    requires i <= |args| && names != [] && !Matches(args, names[0])
    ensures LeftByRank(args, names, i) == LeftByRank(args, names[1..], i)
    decreases |args| - i
  {
    hide RName;
    if i < |args| {
      NotNamed(args, names, i + 1);
    }
  }

  lemma {:induction false} TakenOut(args: seq<string>, names: seq<string>, m: nat, i: nat)
    requires names != [] && m < |args| && RName(args[m]) == names[0] && i <= |args|
    requires forall j :: 0 <= j < m ==> RName(args[j]) != names[0]
    ensures LeftByRank(args, names, i)
         == LeftByRank(args[..m] + args[m + 1..], names[1..], if i <= m then i else i - 1)
    decreases |args| - i
  {
    hide RName, RNames;
    var rest := args[..m] + args[m + 1..];
    if i < |args| {
      TakenOut(args, names, m, i + 1);
      if i < m {
        assert rest[..i] == args[..i];
      } else if i == m {
        NoneBefore(args, m, names[0]);
      } else {
        CountShift(args, m, i, RName(args[i]));
      }
    }
  }

  lemma NoneBefore(args: seq<string>, m: nat, name: string)
    requires m < |args| && forall j :: 0 <= j < m ==> RName(args[j]) != name
    ensures Count(RNames(args[..m]), name) == 0
  {
    hide RName;
    CountAbsent(RNames(args[..m]), name);
  }

  lemma CountShift(args: seq<string>, m: nat, i: nat, name: string)
    requires m < i <= |args|
    ensures Count(RNames(args[..i]), name)
         == Count(RNames((args[..m] + args[m + 1..])[..i - 1]), name) + if RName(args[m]) == name then 1 else 0
  {
    hide RName;
    CountWithout(RNames(args[..i]), m, name);
    var a, b := RNames(args[..i])[..m] + RNames(args[..i])[m + 1..], RNames((args[..m] + args[m + 1..])[..i - 1]);
    assert |a| == |b| && forall k :: 0 <= k < |a| ==> a[k] == RName(args[if k < m then k else k + 1]) == b[k];
    assert a == b;
  }

  lemma FirstMatchAt(args: seq<string>, name: string) returns (m: nat)
    requires Matches(args, name)
    ensures m < |args| && RName(args[m]) == name && forall j :: 0 <= j < m ==> RName(args[j]) != name
    ensures WithoutMatch(args, name) == args[..m] + args[m + 1..]
  {
    m := FirstMatch(args, name);
  }
}
