/** Member headers: their fields, how they are written and how read. */
module ArHeader {
  import opened Numerals
  import opened ArFile

  const HEADER_SIZE: nat := 60
  const NAME_WIDTH: nat := 16
  const MAX_NAME_LENGTH: nat := 255
  const ARFMAG := "`\n"
  const LONG_NAME_MARK := "#1/"

  /** A header in internal format. The size is what is left of the size field
      without the long name, and may be negative. The name is the buffer as it was filled; a
      NUL may end it early. */
  datatype Chdr = Chdr(size: int, date: int, lname: nat, gid: nat, uid: nat, mode: nat, name: Bytes)

  datatype HeaderResult =
    | NoMore
    | BadFormat
    | Got(chdr: Chdr, hb: Bytes, next: nat)

  predicate IsSpace(c: char) {
    c == ' ' || c == '\t' || c == '\n' || c as int in {11, 12, 13}
  }

  function SkipSpaces(s: string): string {
    if s != "" && IsSpace(s[0]) then SkipSpaces(s[1..]) else s
  }

  predicate IsDigitIn(c: char, base: nat) {
    '0' <= c && c as int < '0' as int + base
  }

  /** The digits that s starts with, after the number read so far. */
  function Accumulated(s: string, base: nat, number: nat): nat {
    if s != "" && IsDigitIn(s[0], base) then Accumulated(s[1..], base, number * base + (s[0] as int - '0' as int))
    else number
  }

  /** `strtol`, for bases up to ten. */
  function StrToL(s: string, base: nat): int {
    var t := SkipSpaces(s);
    if t != "" && t[0] == '-' then 0 - Accumulated(t[1..], base, 0)
    else if t != "" && t[0] == '+' then Accumulated(t[1..], base, 0)
    else Accumulated(t, base, 0)
  }

  function Field(hb: Bytes, start: nat, width: nat): Bytes
    requires start + width <= |hb|
  {
    hb[start..start + width]
  }

  function WithoutTrailingSpaces(s: Bytes): Bytes {
    if s != "" && s[|s| - 1] == ' ' then WithoutTrailingSpaces(s[..|s| - 1]) else s
  }

  /** A buffer as a C string. */
  function CStr(s: Bytes): string {
    if s == "" || s[0] == '\0' then "" else [s[0]] + CStr(s[1..])
  }

  function NameOf(chdr: Chdr): string {
    CStr(chdr.name)
  }

  /** The header at pos, in internal format, with the bytes it was read from
      and the position of what follows it. */
  function HeaderAt(data: Bytes, pos: nat): (r: HeaderResult)
    ensures r.Got? ==> pos + HEADER_SIZE <= r.next <= |data| && |r.hb| == HEADER_SIZE
    ensures r.Got? ==> r.next == pos + HEADER_SIZE + r.chdr.lname
  {
    var hb := ReadAt(data, pos, HEADER_SIZE);
    if hb == "" then NoMore
    else if |hb| != HEADER_SIZE then BadFormat
    else if Field(hb, 58, 2) != ARFMAG || hb[0] == ' ' then BadFormat
    else if hb[..3] == LONG_NAME_MARK then
      var length := StrToL(hb[3..], 10);
      if length <= 0 || length > MAX_NAME_LENGTH then BadFormat
      else
        var name := ReadAt(data, pos + HEADER_SIZE, length);
        if |name| != length then BadFormat
        else Finished(hb, pos + HEADER_SIZE + length, name, length)
    else Finished(hb, pos + HEADER_SIZE, WithoutTrailingSpaces(hb[..16]), 0)
  }

  function Finished(hb: Bytes, next: nat, name: Bytes, lname: nat): HeaderResult
    requires |hb| == HEADER_SIZE
  {
    var size := StrToL(Field(hb, 48, 10), 10) - lname;
    Got(Chdr(size, StrToL(Field(hb, 16, 12), 10), lname, StrToL(Field(hb, 34, 6), 10) % 0x1_0000_0000,
             StrToL(Field(hb, 28, 6), 10) % 0x1_0000_0000, StrToL(Field(hb, 40, 8), 8) % 0x1_0000, name),
        hb, next)
  }

  /** What `stat` tells of a file. */
  datatype Stat = Stat(mtime: int, uid: nat, gid: nat, mode: nat, size: nat)

  function Signed(n: int): string {
    if n < 0 then "-" + Digits(-n, 10) else Digits(n, 10)
  }

  function Spaces(n: nat): string {
    seq(n, _ => ' ')
  }

  /** Left-justified in a column. */
  function Column(s: string, width: nat): string {
    s + if |s| < width then Spaces(width - |s|) else ""
  }

  function LastSlash(path: string): int {
    if path == "" then -1 else if path[|path| - 1] == '/' then |path| - 1 else LastSlash(path[..|path| - 1])
  }

  lemma {:induction false} LastSlashBounds(path: string)
    ensures -1 <= LastSlash(path) < |path| && (LastSlash(path) >= 0 ==> path[LastSlash(path)] == '/')
    ensures forall i :: LastSlash(path) < i < |path| ==> path[i] != '/'
  {
    if path != "" && path[|path| - 1] != '/' {
      LastSlashBounds(path[..|path| - 1]);
      assert forall i :: 0 <= i < |path| - 1 ==> path[..|path| - 1][i] == path[i];
    }
  }

  /** The path ends with the name, which is all of it or follows a slash. */
  predicate EndsIn(path: string, name: string) {
    path == name || (|path| > |name| && path[|path| - |name| - 1..] == "/" + name)
  }

  /** The last component of a path. */
  function RName(path: string): (name: string)
    ensures '/' !in name
  {
    LastSlashBounds(path);
    path[LastSlash(path) + 1..]
  }

  lemma RNameEnds(path: string)
    ensures EndsIn(path, RName(path))
  {
    LastSlashBounds(path);
    var i := LastSlash(path);
    assert i >= 0 ==> path[i..] == "/" + path[i + 1..];
  }

  lemma EndsChar(path: string, name: string, k: nat)
    requires EndsIn(path, name) && k < |name|
    ensures |name| <= |path| && path[|path| - |name| + k] == name[k]
  {
    if path != name {
      assert path[|path| - |name| - 1..][k + 1] == ("/" + name)[k + 1];
    }
  }

  lemma EndsAfterSlash(path: string, name: string)
    requires EndsIn(path, name) && |name| < |path|
    ensures path[|path| - |name| - 1] == '/'
  {
    assert path[|path| - |name| - 1..][0] == ("/" + name)[0];
  }

  lemma NoLonger(path: string, name: string, other: string)
    requires EndsIn(path, name) && EndsIn(path, other) && '/' !in name
    ensures |name| <= |other|
  {
    hide EndsIn;
    if |name| > |other| {
      EndsChar(path, name, |name| - |other| - 1);
      EndsAfterSlash(path, other);
    }
  }

  /** That is the only one without a slash. */
  lemma OnlyName(path: string, name: string)
    requires EndsIn(path, name) && '/' !in name
    ensures RName(path) == name
  {
    hide EndsIn;
    RNameEnds(path);
    NoLonger(path, name, RName(path));
    NoLonger(path, RName(path), name);
    forall k | 0 <= k < |name|
      ensures RName(path)[k] == name[k]
    {
      EndsChar(path, name, k);
      EndsChar(path, RName(path), k);
    }
  }

  /** A name without a slash is its own last component, and that of every path
      that ends with it after a slash. */
  lemma RNameOf(dir: string, name: string)
    requires '/' !in name
    ensures RName(name) == name && RName(dir + "/" + name) == name
  {
    OnlyName(name, name);
    var path := dir + "/" + name;
    assert path[|path| - |name| - 1..] == "/" + name;
    OnlyName(path, name);
  }

  function RoundUp4(n: nat): nat {
    (n + 3) / 4 * 4
  }

  predicate NeedsLongName(name: string) {
    |name| > NAME_WIDTH || ' ' in name
  }

  /** The fields after the name and the date. */
  function Owner(sb: Stat, size: nat): string {
    Column(Digits(sb.uid % 0x1_0000, 10), 6) + Column(Digits(sb.gid % 0x1_0000, 10), 6)
    + Column(Digits(sb.mode, 8), 8) + Column(Digits(size, 10), 10) + ARFMAG
  }

  /** The header written for a file. */
  function NewHeader(name: string, sb: Stat): Bytes {
    if NeedsLongName(name) then
      LONG_NAME_MARK + Column(Digits(RoundUp4(|name|), 10), 13) + Column(Signed(sb.mtime), 12)
      + Owner(sb, sb.size + RoundUp4(|name|))
    else
      Column(name, 16) + Column(Signed(sb.mtime), 12) + Owner(sb, sb.size)
  }
}
