/** The argument list, which is consumed as members match it. */
module ArArgs {
  import opened ArHeader

  /** An entry of the null-terminated argument vector. */
  datatype Arg = Path(path: string) | End

  ghost predicate Lists(argv: array<Arg>, args: seq<string>)
    reads argv
  {
    && |args| < argv.Length
    && (forall i :: 0 <= i < |args| ==> argv[i] == Path(args[i]))
    && argv[|args|] == End
  }

  /** The first argument whose last component is the name. */
  function FirstMatch(args: seq<string>, name: string): (i: nat)
    ensures i <= |args| && (i < |args| ==> RName(args[i]) == name)
    ensures forall j :: 0 <= j < i ==> RName(args[j]) != name
  {
    if args == [] || RName(args[0]) == name then 0 else 1 + FirstMatch(args[1..], name)
  }

  predicate Matches(args: seq<string>, name: string) {
    FirstMatch(args, name) < |args|
  }

  function WithoutMatch(args: seq<string>, name: string): (left: seq<string>)
    requires Matches(args, name)
    ensures |left| == |args| - 1
  {
    var i := FirstMatch(args, name);
    args[..i] + args[i + 1..]
  }

  lemma FirstMatchUnique(args: seq<string>, name: string, i: nat)
    requires i <= |args| && (i < |args| ==> RName(args[i]) == name)
    requires forall j :: 0 <= j < i ==> RName(args[j]) != name
    ensures FirstMatch(args, name) == i
  {
  }

  /** A path is matched by the name it ends in, and by no other. */
  lemma MatchesIff(args: seq<string>, name: string)
    ensures forall i :: 0 <= i < |args| ==> (RName(args[i]) == name <==> EndsIn(args[i], name) && '/' !in name)
    ensures Matches(args, name) <==> '/' !in name && exists i :: 0 <= i < |args| && EndsIn(args[i], name)
  {
    hide RName, EndsIn, FirstMatch;
    forall i | 0 <= i < |args|
      ensures RName(args[i]) == name <==> EndsIn(args[i], name) && '/' !in name
    {
      RNameEnds(args[i]);
      if EndsIn(args[i], name) && '/' !in name {
        OnlyName(args[i], name);
      }
    }
    if i :| 0 <= i < |args| && EndsIn(args[i], name) && '/' !in name {
      assert RName(args[i]) == name;
    }
  }

  /** See if a member's name matches an argument; if it does, remove the
      argument. */
  method Files(argv: array<Arg>, ghost args: seq<string>, name: string) returns (file: Arg)
    requires Lists(argv, args)
    modifies argv
    ensures file == if Matches(args, name) then Path(args[FirstMatch(args, name)]) else End
    ensures Lists(argv, if Matches(args, name) then WithoutMatch(args, name) else args)
    ensures file != End <==> '/' !in name && exists i :: 0 <= i < |args| && EndsIn(args[i], name)
    ensures file != End ==> exists i ::
      && 0 <= i < |args| && file == Path(args[i]) && EndsIn(args[i], name)
      && forall j :: 0 <= j < i ==> !EndsIn(args[j], name)
  {
    hide RName, EndsIn;
    MatchesIff(args, name);
    var list := 0;
    while argv[list] != End
      invariant 0 <= list <= |args|
      invariant forall j :: 0 <= j < list ==> RName(args[j]) != name
      invariant argv[..] == old(argv[..])
      decreases |args| - list
    {
      if RName(argv[list].path) == name {
        FirstMatchUnique(args, name, list);
        file := argv[list];
        RemoveAt(argv, args, list);
        return;
      }
      list := list + 1;
    }
    FirstMatchUnique(args, name, list);
    return End;
  }

  /** Shift the rest of the vector, its null included, down by one. */
  method RemoveAt(argv: array<Arg>, ghost args: seq<string>, at: nat)
    requires Lists(argv, args) && at < |args|
    modifies argv
    ensures Lists(argv, args[..at] + args[at + 1..])
  {
    ghost var before := argv[..];
    var list := at;
    argv[list] := argv[list + 1];
    while argv[list] != End
      invariant at <= list < |args|
      invariant forall j :: at <= j <= list ==> argv[j] == before[j + 1]
      invariant forall j :: 0 <= j < at || list < j < argv.Length ==> argv[j] == before[j]
      decreases |args| - list
    {
      list := list + 1;
      argv[list] := argv[list + 1];
    }
    Shifted(before, argv[..], args, at);
  }

  lemma Shifted(before: seq<Arg>, after: seq<Arg>, args: seq<string>, at: nat)
    requires at < |args| < |before| == |after| && before[|args|] == End
    requires forall i :: 0 <= i < |args| ==> before[i] == Path(args[i])
    requires forall j :: at <= j < |args| ==> after[j] == before[j + 1]
    requires forall j :: 0 <= j < at ==> after[j] == before[j]
    ensures var left := args[..at] + args[at + 1..];
      |left| == |args| - 1 && after[|left|] == End && forall i :: 0 <= i < |left| ==> after[i] == Path(left[i])
  {
  }
}
