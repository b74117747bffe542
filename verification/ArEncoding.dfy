/** Archives as sequences of members. */
module ArEncoding {
  import opened CString
  import opened ArFile
  import opened ArHeader
  import opened ArCopy
  import opened ArMembers

  /** A member as it stands in an archive. */
  datatype Entry = Entry(header: Bytes, longName: Bytes, body: Bytes)

  function Encode(m: Entry): Bytes {
    m.header + m.longName + Padded(m.body, |m.longName|)
  }

  function EncodeAll(ms: seq<Entry>): Bytes {
    if ms == [] then "" else Encode(ms[0]) + EncodeAll(ms[1..])
  }

  function Parsed(m: Entry): HeaderResult {
    HeaderAt(m.header + m.longName, 0)
  }

  /** The header describes the member, whose long name, if any, fills a
      multiple of four bytes. */
  ghost predicate WellFormed(m: Entry) {
    && |m.header| == HEADER_SIZE && |m.longName| % 4 == 0
    && Parsed(m).Got? && Parsed(m).hb == m.header
    && Parsed(m).chdr.lname == |m.longName| && Parsed(m).chdr.size == |m.body|
    && (m.longName != "" ==> Parsed(m).chdr.name == m.longName)
  }

  ghost predicate AllWellFormed(ms: seq<Entry>) {
    forall m :: m in ms ==> WellFormed(m)
  }

  function NameIn(m: Entry): string {
    if Parsed(m).Got? then NameOf(Parsed(m).chdr) else ""
  }

  function Names(ms: seq<Entry>): seq<string> {
    seq(|ms|, i requires 0 <= i < |ms| => NameIn(ms[i]))
  }

  lemma ReadAtHere(data: Bytes, pos: nat, s: Bytes)
    requires At(data, pos, s)
    ensures ReadAt(data, pos, |s|) == s
  {
  }

  /** Where a header and a long name stand does not matter. */
  lemma HeaderAnywhere(data: Bytes, pos: nat, m: Entry)
    requires WellFormed(m) && At(data, pos, m.header + m.longName)
    ensures HeaderAt(data, pos) == Parsed(m).(next := pos + HEADER_SIZE + |m.longName|)
  {
    hide StrToL, WithoutTrailingSpaces;
    var s := m.header + m.longName;
    AtAppend(data, pos, m.header, m.longName);
    AtAppend(s, 0, m.header, m.longName) by { assert s[0..|s|] == s; }
    ReadAtHere(data, pos, m.header);
    ReadAtHere(s, 0, m.header);
    ReadAtHere(data, pos + HEADER_SIZE, m.longName);
    ReadAtHere(s, HEADER_SIZE, m.longName);
  }

  /** A member is copied byte for byte, and skipped over exactly. */
  lemma MemberCopied(data: Bytes, pos: nat, m: Entry)
    requires WellFormed(m) && At(data, pos, Encode(m))
    ensures var r := HeaderAt(data, pos);
      && r.Got? && Parsed(m).Got? && r.chdr == Parsed(m).chdr
      && CopiedMember(data, r) == Copied(Encode(m), pos + |Encode(m)|)
      && SkipTo(r) == pos + |Encode(m)|
  {
    hide Parsed, HeaderAt, ReadAt;
    var s, b := m.header + m.longName, Padded(m.body, |m.longName|);
    AtAppend(data, pos, s, b);
    HeaderAnywhere(data, pos, m);
    BodyCopied(data, pos + |s|, m.body, |m.longName|);
    assert PaddedName(m.longName) == m.longName;
    assert PaddedName("") == "";
  }

  lemma BodyCopied(data: Bytes, pos: nat, body: Bytes, name: nat)
    requires At(data, pos, Padded(body, name)) && name % 4 == 0
    ensures CopyAt(data, pos, |body|, Padding(true, true), name, name)
         == Copied(Padded(body, name), pos + |Padded(body, name)|)
  {
    AtAppend(data, pos, body, Padded(body, name)[|body|..]) by {
      assert Padded(body, name) == body + Padded(body, name)[|body|..];
    }
    ReadAtHere(data, pos, body);
  }

  lemma NothingMore(data: Bytes, pos: nat)
    requires pos >= |data|
    ensures HeaderAt(data, pos) == NoMore
  {
  }

  lemma {:induction false} EncodeAppend(ms: seq<Entry>, ns: seq<Entry>)
    ensures EncodeAll(ms + ns) == EncodeAll(ms) + EncodeAll(ns)
  {
    if ms == [] {
      assert ms + ns == ns;
    } else {
      assert (ms + ns)[1..] == ms[1..] + ns;
      EncodeAppend(ms[1..], ns);
    }
  }

  /** The headers met by reading and skipping to the end, as in listing an
      archive. A negative size may lead back to where the reading was before;
      the listing stops there. */
  function HeadersFrom(data: Bytes, pos: nat): seq<Chdr>
    decreases |data| - pos
  {
    var r := HeaderAt(data, pos);
    if r.Got? && SkipTo(r) > pos then [r.chdr] + HeadersFrom(data, SkipTo(r)) else []
  }

  function Headers(ms: seq<Entry>): seq<Chdr>
    requires forall m :: m in ms ==> Parsed(m).Got?
  {
    if ms == [] then [] else [Parsed(ms[0]).chdr] + Headers(ms[1..])
  }

  /** Reading an archive finds every member's header, whatever the bodies. */
  lemma {:induction false} HeadersReadBack(data: Bytes, pos: nat, ms: seq<Entry>)
    requires AllWellFormed(ms) && At(data, pos, EncodeAll(ms)) && pos + |EncodeAll(ms)| == |data|
    ensures HeadersFrom(data, pos) == Headers(ms)
    decreases |ms|
  {
    hide HeaderAt, Parsed, Encode, SkipTo, WellFormed, At, CopiedMember;
    assert pos + |EncodeAll(ms)| == |data|;
    if ms == [] {
      NothingMore(data, pos);
    } else {
      assert WellFormed(ms[0]) && AllWellFormed(ms[1..]);
      AtAppend(data, pos, Encode(ms[0]), EncodeAll(ms[1..]));
      MemberCopied(data, pos, ms[0]);
      HeadersReadBack(data, pos + |Encode(ms[0])|, ms[1..]);
    }
  }

  predicate AllNul(s: Bytes) {
    forall i :: 0 <= i < |s| ==> s[i] == '\0'
  }

  /** When a member keeps its bytes: its long name fills a multiple of four
      bytes and its padding, where there is any, is a newline. Otherwise the
      name is padded in front of the first byte of the body, which leaves the
      bytes as they are only if one NUL takes the place of a padding NUL behind
      nothing but NULs. */
  predicate Faithful(name: Bytes, body: Bytes, pad: Bytes) {
    if |name| % 4 == 0 then pad == "" || pad == "\n"
    else |name| % 4 == 3 && pad != "" && AllNul(body + pad)
  }

  /** A copy is faithful if and only if Faithful holds, and it ends after the
      padding unless an empty body is padded for its name. */
  lemma CopyFaithfulIff(data: Bytes, pos: nat, name: Bytes, body: Bytes, pad: Bytes)
    requires var r := HeaderAt(data, pos);
      && r.Got? && r.chdr.lname == |name| && (name != "" ==> r.chdr.name == name) && r.chdr.size == |body|
      && At(data, pos, r.hb + name + body + pad)
    requires |pad| == if Odd(|body| + |name|) then 1 else 0
    ensures var r := HeaderAt(data, pos);
      var c := CopiedMember(data, r);
      && c.Copied?
      && (c.next == pos + |r.hb + name + body + pad| <==> body != "" || pad == "")
      && (c.bytes == r.hb + name + body + pad <==> Faithful(name, body, pad))
  {
    hide HeaderAt, CopyAt, ReadAt, Faithful;
    var r := HeaderAt(data, pos);
    var long := if name != "" then PaddedName(name) else "";
    AtAppend(data, pos, r.hb + name + body, pad);
    AtAppend(data, pos, r.hb + name, body);
    AnyBodyCopied(data, r.next, body, pad, |name|, |long|);
    var w := if body != "" && Odd(|body| + |long|) then "\n" else "";
    assert CopiedMember(data, r).bytes == r.hb + long + (body + w);
    if |name| % 4 == 0 {
      assert long == name;
      AlignedCopy(r.hb, name, body, pad, w);
    } else {
      MisalignedCopy(r.hb, name, Zeros(4 - |name| % 4), body, pad, w);
    }
  }

  lemma AnyBodyCopied(data: Bytes, pos: nat, body: Bytes, pad: Bytes, name: nat, written: nat)
    requires At(data, pos, body) && At(data, pos + |body|, pad)
    requires |pad| == if Odd(|body| + name) then 1 else 0
    ensures CopyAt(data, pos, |body|, Padding(true, true), name, written)
         == Copied(body + if body != "" && Odd(|body| + written) then "\n" else "",
                   pos + |body| + if body != "" then |pad| else 0)
  {
    ReadAtHere(data, pos, body);
  }

  lemma AlignedCopy(hb: Bytes, name: Bytes, body: Bytes, pad: Bytes, w: Bytes)
    requires |name| % 4 == 0 && |pad| <= 1 && w == if pad == "" then "" else "\n"
    ensures hb + name + (body + w) == hb + name + body + pad <==> Faithful(name, body, pad)
  {
    var copy, given := hb + name + (body + w), hb + name + body + pad;
    var j := |hb| + |name| + |body|;
    assert copy[..j] == hb + name + body && copy[j..] == w;
    assert given[..j] == hb + name + body && given[j..] == pad;
    assert pad != "" ==> (pad == "\n" <==> pad[0] == '\n');
  }

  /** A shift of the body by one NUL moves every byte to the next place. */
  lemma MisalignedCopy(hb: Bytes, name: Bytes, zeros: Bytes, body: Bytes, pad: Bytes, w: Bytes)
    requires |name| % 4 != 0 && zeros == Zeros(4 - |name| % 4) && |pad| == if Odd(|body| + |name|) then 1 else 0
    requires w == if body != "" && Odd(|body| + |name| + |zeros|) then "\n" else ""
    ensures hb + (name + zeros) + (body + w) == hb + name + body + pad <==> Faithful(name, body, pad)
  {
    hide Faithful;
    SamePrefix(hb + name, zeros + (body + w), body + pad);
    assert hb + (name + zeros) + (body + w) == hb + name + (zeros + (body + w));
    assert hb + name + body + pad == hb + name + (body + pad);
    ShiftedBody(name, zeros, body, pad, w);
  }

  lemma SamePrefix(s: Bytes, t: Bytes, u: Bytes)
    ensures s + t == s + u <==> t == u
  {
    assert (s + t)[|s|..] == t && (s + u)[|s|..] == u;
  }

  lemma ShiftedBody(name: Bytes, zeros: Bytes, body: Bytes, pad: Bytes, w: Bytes)
    requires |name| % 4 != 0 && zeros == Zeros(4 - |name| % 4) && |pad| == if Odd(|body| + |name|) then 1 else 0
    requires w == if body != "" && Odd(|body| + |name| + |zeros|) then "\n" else ""
    ensures zeros + (body + w) == body + pad <==> Faithful(name, body, pad)
  {
    var s := body + pad;
    if zeros + (body + w) == s {
      assert |zeros + (body + w)| == |s|;
      assert |name| % 4 == 3 && pad != "" && w == "";
      assert body + w == body;
      ShiftedNuls(body, pad);
    }
    if Faithful(name, body, pad) {
      assert w == "" && body + w == body && |zeros + body| == |s|;
      assert forall k :: 0 <= k < |body| ==> s[k] == body[k];
    }
  }

  lemma ShiftedNuls(body: Bytes, pad: Bytes)
    requires Zeros(1) + body == body + pad
    ensures AllNul(body + pad)
  {
    var s := body + pad;
    forall k | 0 <= k < |s|
      ensures s[k] == '\0'
    {
      NulAt(body, pad, k);
    }
  }

  lemma {:induction false} NulAt(body: Bytes, pad: Bytes, k: nat)
    requires Zeros(1) + body == body + pad && k < |body + pad|
    ensures (body + pad)[k] == '\0'
  {
    assert (Zeros(1) + body)[k] == (body + pad)[k];
    if k > 0 {
      NulAt(body, pad, k - 1);
      assert (Zeros(1) + body)[k] == body[k - 1] == (body + pad)[k - 1];
    }
  }

  /** A member that can be copied is left where skipping over it ends, unless
      it is empty and padded for its name. */
  lemma CopySkipsIff(data: Bytes, r: HeaderResult)
    requires r.Got? && CopiedMember(data, r).Copied?
    ensures CopiedMember(data, r).next == SkipTo(r) <==> r.chdr.size > 0 || !Odd(r.chdr.lname)
  {
  }
}
