/** Whole runs of a hash table against a finite map. */
module HashRuns {
  import opened HashString
  import opened HashTable

  datatype Op =
    | Insert(key: Chars, value: Pointer)
    | Jam(key: Chars, value: Pointer)
    | Replace(key: Chars, value: Pointer)
    | Find(key: Chars)
    | FindN(text: Chars, length: nat)
    | Delete(key: Chars)

  /** The key an operation is about: a text of which only the first characters
      count gives those. */
  function KeyOf(op: Op): Chars {
    if !op.FindN? then op.key else if op.length <= |op.text| then op.text[..op.length] else op.text
  }

  ghost predicate Proper(op: Op) {
    NulFree(KeyOf(op)) && (op.FindN? ==> op.length <= |op.text|)
  }

  datatype Answer = Data(data: Pointer) | Told(message: Message)

  function DataAt(m: map<Chars, Pointer>, key: Chars): Pointer {
    if key in m then m[key] else Null
  }

  /** What a plain map answers. */
  function Reply(op: Op, m: map<Chars, Pointer>): Answer {
    match op
    case Insert(key, value) => Told(if key in m then Exists else NoError)
    case Jam(key, value) => Told(NoError)
    case Replace(key, value) => Data(DataAt(m, key))
    case Find(key) => Data(DataAt(m, key))
    case FindN(_, _) => Data(DataAt(m, KeyOf(op)))
    case Delete(key) => Data(DataAt(m, key))
  }

  function After(op: Op, m: map<Chars, Pointer>): map<Chars, Pointer> {
    match op
    case Insert(key, value) => if key in m then m else m[key := value]
    case Jam(key, value) => m[key := value]
    case Replace(key, value) => if key in m then m[key := value] else m
    case Find(key) => m
    case FindN(_, _) => m
    case Delete(key) => m - {key}
  }

  function Final(ops: seq<Op>, m: map<Chars, Pointer>): map<Chars, Pointer> {
    if ops == [] then m else Final(ops[1..], After(ops[0], m))
  }

  function Answers(ops: seq<Op>, m: map<Chars, Pointer>): seq<Answer> {
    if ops == [] then [] else [Reply(ops[0], m)] + Answers(ops[1..], After(ops[0], m))
  }

  method Perform(table: HashControl, op: Op) returns (answer: Answer)
    requires table.Valid() && Proper(op)
    modifies table, table.table, table.Repr
    ensures table.Valid() && fresh(table.Repr - old(table.Repr))
    ensures answer == Reply(op, old(table.contents)) && table.contents == After(op, old(table.contents))
  {
    hide HashControl.Valid;
    match op {
      case Insert(key, value) =>
        var m := table.Insert(key, value);
        answer := Told(m);
      case Jam(key, value) =>
        var m := table.Jam(key, value);
        answer := Told(m);
      case Replace(key, value) =>
        var d := table.Replace(key, value);
        answer := Data(d);
      case Find(key) =>
        var d := table.Find(key);
        answer := Data(d);
      case FindN(text, length) =>
        var d := table.FindN(text, length);
        answer := Data(d);
      case Delete(key) =>
        var d := table.Delete(key);
        answer := Data(d);
    }
  }

  function OnKey(ops: seq<Op>, key: Chars): seq<Op> {
    if ops == [] then []
    else if KeyOf(ops[0]) == key then [ops[0]] + OnKey(ops[1..], key)
    else OnKey(ops[1..], key)
  }

  function AnswersOnKey(ops: seq<Op>, answers: seq<Answer>, key: Chars): seq<Answer>
    requires |ops| == |answers|
  {
    if ops == [] then []
    else if KeyOf(ops[0]) == key then [answers[0]] + AnswersOnKey(ops[1..], answers[1..], key)
    else AnswersOnKey(ops[1..], answers[1..], key)
  }

  lemma {:induction false} AnswerEach(ops: seq<Op>, m: map<Chars, Pointer>)
    ensures |Answers(ops, m)| == |ops|
  {
    if ops != [] {
      AnswerEach(ops[1..], After(ops[0], m));
    }
  }

  predicate AgreeOn(m: map<Chars, Pointer>, n: map<Chars, Pointer>, key: Chars) {
    (key in m <==> key in n) && (key in m ==> m[key] == n[key])
  }

  /** Keys do not disturb each other: what is answered for one key, and what is
      bound to it in the end, is what a table used for that key alone gives. */
  lemma {:induction false} KeysIndependent(ops: seq<Op>, m: map<Chars, Pointer>, n: map<Chars, Pointer>, key: Chars)
    requires AgreeOn(m, n, key)
    ensures |Answers(ops, m)| == |ops|
    ensures AnswersOnKey(ops, Answers(ops, m), key) == Answers(OnKey(ops, key), n)
    ensures AgreeOn(Final(ops, m), Final(OnKey(ops, key), n), key)
  {
    AnswerEach(ops, m);
    if ops != [] {
      var op, rest := ops[0], ops[1..];
      if KeyOf(op) == key {
        KeysIndependent(rest, After(op, m), After(op, n), key);
        assert ([op] + OnKey(rest, key))[1..] == OnKey(rest, key);
      } else {
        KeysIndependent(rest, After(op, m), n, key);
      }
    }
  }

  predicate IsFind(op: Op) {
    op.Find? || op.FindN?
  }

  function WithoutFinds(ops: seq<Op>): seq<Op> {
    if ops == [] then []
    else if IsFind(ops[0]) then WithoutFinds(ops[1..])
    else [ops[0]] + WithoutFinds(ops[1..])
  }

  /** Searches, although each may rearrange a chain, leave no trace. */
  lemma {:induction false} FindsLeaveNoTrace(ops: seq<Op>, m: map<Chars, Pointer>)
    ensures Final(ops, m) == Final(WithoutFinds(ops), m)
  {
    if ops != [] {
      FindsLeaveNoTrace(ops[1..], After(ops[0], m));
      assert !IsFind(ops[0]) ==> WithoutFinds(ops)[1..] == WithoutFinds(ops[1..]);
    }
  }

  /** Any run of operations, each of which relinks chains, answers as a plain
      map does and ends with the same bindings. So the keys do not disturb each
      other: what is answered for one key, and what is bound to it in the end,
      is what the operations on that key alone give. And searches, although
      each may rearrange a chain, leave no trace in the bindings. */
  method Run(table: HashControl, ops: seq<Op>) returns (answers: seq<Answer>)
    requires table.Valid() && forall op :: op in ops ==> Proper(op)
    modifies table, table.table, table.Repr
    ensures table.Valid() && fresh(table.Repr - old(table.Repr)) && |answers| == |ops|
    ensures answers == Answers(ops, old(table.contents)) && table.contents == Final(ops, old(table.contents))
    ensures forall key ::
      && AnswersOnKey(ops, answers, key) == Answers(OnKey(ops, key), old(table.contents))
      && AgreeOn(table.contents, Final(OnKey(ops, key), old(table.contents)), key)
    ensures table.contents == Final(WithoutFinds(ops), old(table.contents))
  {
    hide HashControl.Valid;
    ghost var before := table.contents;
    answers := [];
    var i := 0;
    while i < |ops|
      invariant 0 <= i <= |ops| && table.Valid() && fresh(table.Repr - old(table.Repr))
      invariant answers + Answers(ops[i..], table.contents) == Answers(ops, before)
      invariant Final(ops[i..], table.contents) == Final(ops, before)
    {
      var answer := Perform(table, ops[i]);
      assert ops[i..][1..] == ops[i + 1..];
      answers := answers + [answer];
      i := i + 1;
    }
    assert answers + [] == answers == Answers(ops, before);
    AnswerEach(ops, before);
    FindsLeaveNoTrace(ops, before);
    forall key
      ensures AnswersOnKey(ops, answers, key) == Answers(OnKey(ops, key), before)
      ensures AgreeOn(table.contents, Final(OnKey(ops, key), before), key)
    {
      KeysIndependent(ops, before, before, key);
    }
  }
}
