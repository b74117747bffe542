/** A header that was written reads back. */
module ArHeaderTheorems {
  import opened Numerals
  import opened ArFile
  import opened ArHeader
  import opened ArCopy
  import opened ArMembers
  import opened ArEncoding

  function NewEntry(name: string, f: DiskFile): Entry {
    Entry(NewHeader(name, StatOf(f)), if NeedsLongName(name) then PaddedName(name) else "", f.contents)
  }

  function LongLength(name: string): nat {
    if NeedsLongName(name) then RoundUp4(|name|) else 0
  }

  /** Every field fits its column, and a long name the name buffer. */
  predicate FitsColumns(name: string, f: DiskFile) {
    && name != "" && '\0' !in name && '/' !in name && LongLength(name) <= 255
    && |Signed(f.mtime)| <= 12 && |Digits(f.mode, 8)| <= 8 && |Digits(|f.contents| + LongLength(name), 10)| <= 10
  }

  lemma {:induction false} AccumulatedDigits(n: nat, b: nat, rest: string)
    requires 2 <= b <= 10
    ensures Accumulated(Digits(n, b) + rest, b, 0) == Accumulated(rest, b, n)
  {
    if n < b {
      assert (Digits(n, b) + rest)[1..] == rest;
    } else {
      DigitSplit(n, b);
      var d := [Digit(n % b)];
      assert Digits(n, b) + rest == Digits(n / b, b) + (d + rest);
      AccumulatedDigits(n / b, b, d + rest);
      assert (d + rest)[1..] == rest;
    }
  }

  lemma {:induction false} FirstDigit(n: nat, b: nat)
    requires 2 <= b <= 10
    ensures IsDigitIn(Digits(n, b)[0], 10)
  {
    if n >= b {
      DigitSplit(n, b);
      FirstDigit(n / b, b);
    }
  }

  lemma NumberReads(n: nat, b: nat, rest: string)
    requires 2 <= b <= 10 && (rest != "" ==> rest[0] == ' ')
    ensures StrToL(Digits(n, b) + rest, b) == n
  {
    hide Digits;
    FirstDigit(n, b);
    AccumulatedDigits(n, b, rest);
  }

  lemma ColumnReads(n: nat, b: nat, width: nat)
    requires 2 <= b <= 10 && |Digits(n, b)| <= width
    ensures |Column(Digits(n, b), width)| == width && StrToL(Column(Digits(n, b), width), b) == n
  {
    hide Digits, StrToL;
    var d := Digits(n, b);
    NumberReads(n, b, if |d| < width then Spaces(width - |d|) else "");
  }

  lemma SignedColumnReads(n: int, width: nat)
    requires |Signed(n)| <= width
    ensures |Column(Signed(n), width)| == width && StrToL(Column(Signed(n), width), 10) == n
  {
    hide Digits;
    if n >= 0 {
      ColumnReads(n, 10, width);
    } else {
      var d := Digits(-n, 10);
      var rest := if |d| + 1 < width then Spaces(width - |d| - 1) else "";
      var s := Column(Signed(n), width);
      assert s == "-" + (d + rest) && s[1..] == d + rest;
      AccumulatedDigits(-n, 10, rest);
    }
  }

  lemma {:induction false} DigitsShort(n: nat, k: nat)
    requires n < 10 || (k > 0 && n / 10 < 10) || (k > 1 && n / 100 < 10) || (k > 2 && n / 1000 < 10)
             || (k > 3 && n / 10000 < 10)
    ensures |Digits(n, 10)| <= k + 1
  {
    if n >= 10 {
      DigitsShort(n / 10, k - 1);
    }
  }

  /** The columns after the name. */
  lemma OwnerReads(sb: Stat, size: nat)
    requires |Digits(sb.mode, 8)| <= 8 && |Digits(size, 10)| <= 10
    ensures var s := Owner(sb, size);
      && |s| == 32 && s[30..] == ARFMAG
      && StrToL(s[..6], 10) == sb.uid % 0x1_0000 && StrToL(s[6..12], 10) == sb.gid % 0x1_0000
      && StrToL(s[12..20], 8) == sb.mode && StrToL(s[20..30], 10) == size
  {
    hide Digits, StrToL, Column;
    DigitsShort(sb.uid % 0x1_0000, 4);
    DigitsShort(sb.gid % 0x1_0000, 4);
    ColumnReads(sb.uid % 0x1_0000, 10, 6);
    ColumnReads(sb.gid % 0x1_0000, 10, 6);
    ColumnReads(sb.mode, 8, 8);
    ColumnReads(size, 10, 10);
    var s := Owner(sb, size);
    assert s[..6] == Column(Digits(sb.uid % 0x1_0000, 10), 6);
    assert s[6..12] == Column(Digits(sb.gid % 0x1_0000, 10), 6);
    assert s[12..20] == Column(Digits(sb.mode, 8), 8);
    assert s[20..30] == Column(Digits(size, 10), 10);
  }

  lemma FieldAfter(before: Bytes, s: Bytes, i: nat, width: nat)
    requires i + width <= |s|
    ensures Field(before + s, |before| + i, width) == s[i..i + width]
  {
  }

  /** The fields of a header, whatever its name. */
  ghost predicate HasFields(hb: Bytes, sb: Stat, size: nat) {
    && |hb| == HEADER_SIZE && Field(hb, 58, 2) == ARFMAG
    && StrToL(Field(hb, 16, 12), 10) == sb.mtime && StrToL(Field(hb, 48, 10), 10) == size
    && StrToL(Field(hb, 28, 6), 10) == sb.uid % 0x1_0000 && StrToL(Field(hb, 34, 6), 10) == sb.gid % 0x1_0000
    && StrToL(Field(hb, 40, 8), 8) == sb.mode
  }

  /** The fields of a header made of a 16-byte name field, a date and the
      columns after it. */
  lemma FieldsRead(nameField: Bytes, sb: Stat, size: nat)
    requires |nameField| == NAME_WIDTH && |Signed(sb.mtime)| <= 12
    requires |Digits(sb.mode, 8)| <= 8 && |Digits(size, 10)| <= 10
    ensures var hb := nameField + Column(Signed(sb.mtime), 12) + Owner(sb, size);
      HasFields(hb, sb, size) && hb[..16] == nameField
  {
    hide Digits, StrToL, Column, Owner, Signed;
    SignedColumnReads(sb.mtime, 12);
    OwnerReads(sb, size);
    var d, s := Column(Signed(sb.mtime), 12), Owner(sb, size);
    var hb := nameField + d + s;
    assert Field(hb, 16, 12) == d;
    FieldAfter(nameField + d, s, 0, 6);
    FieldAfter(nameField + d, s, 6, 6);
    FieldAfter(nameField + d, s, 12, 8);
    FieldAfter(nameField + d, s, 20, 10);
    FieldAfter(nameField + d, s, 30, 2);
    assert s[30..30 + 2] == s[30..] && s[0..0 + 6] == s[..6];
  }

  lemma {:induction false} NameReads(name: string, rest: Bytes)
    requires '\0' !in name && (rest != "" ==> rest[0] == '\0')
    ensures CStr(name + rest) == name
  {
    if name != "" {
      assert (name + rest)[1..] == name[1..] + rest;
      NameReads(name[1..], rest);
    }
  }

  lemma {:induction false} SpacesStripped(name: string, n: nat)
    requires name != "" && name[|name| - 1] != ' '
    ensures WithoutTrailingSpaces(name + Spaces(n)) == name
    decreases n
  {
    if n == 0 {
      assert name + Spaces(0) == name;
    } else {
      assert (name + Spaces(n))[..|name| + n - 1] == name + Spaces(n - 1);
      SpacesStripped(name, n - 1);
    }
  }

  lemma PaddedLength(name: string)
    ensures |PaddedName(name)| == RoundUp4(|name|) && |PaddedName(name)| % 4 == 0
    ensures PaddedName(name)[..|name|] == name
    ensures PaddedName(name) == name + PaddedName(name)[|name|..]
    ensures forall i :: |name| <= i < |PaddedName(name)| ==> PaddedName(name)[i] == '\0'
  {
  }

  /** What the header of a file reads back as. */
  function ReadBack(name: string, f: DiskFile): Chdr {
    Chdr(|f.contents|, f.mtime, LongLength(name), f.gid % 0x1_0000, f.uid % 0x1_0000, f.mode % 0x1_0000,
         if NeedsLongName(name) then PaddedName(name) else name)
  }

  /** The member made of a file is well formed and gives back the file's name,
      date, mode and size, and its owner modulo 2^16. */
  lemma NewEntryReadsBack(name: string, f: DiskFile)
    requires FitsColumns(name, f)
    ensures WellFormed(NewEntry(name, f)) && Parsed(NewEntry(name, f)).chdr == ReadBack(name, f)
    ensures Parsed(NewEntry(name, f)).chdr.lname == if |name| > 16 || ' ' in name then (|name| + 3) / 4 * 4 else 0
    ensures NameIn(NewEntry(name, f)) == name
    ensures Encode(NewEntry(name, f)) == NewMember(name, f)
  {
    hide StrToL, Digits, Column, Owner, Signed, WithoutTrailingSpaces, CStr;
    if NeedsLongName(name) {
      LongEntryReads(name, f);
      PaddedLength(name);
      NameReads(name, PaddedName(name)[|name|..]);
    } else {
      ShortEntryReads(name, f);
      NameReads(name, "");
      assert name + "" == name;
    }
    assert Encode(NewEntry(name, f)) == NewMember(name, f) by { SameBytes(name, f); }
  }

  lemma SameBytes(name: string, f: DiskFile)
    ensures Encode(NewEntry(name, f)) == NewMember(name, f)
  {
    hide NewHeader, PaddedName, Padded, NeedsLongName;
    var e := NewEntry(name, f);
    assert Encode(e) == e.header + e.longName + Padded(e.body, |e.longName|);
  }

  /** The two kinds of headers, once their fields are known. */
  lemma ShortHeader(hb: Bytes)
    requires |hb| == HEADER_SIZE && Field(hb, 58, 2) == ARFMAG && hb[0] != ' ' && hb[..3] != LONG_NAME_MARK
    ensures HeaderAt(hb, 0) == Finished(hb, HEADER_SIZE, WithoutTrailingSpaces(hb[..16]), 0)
  {
    hide StrToL, WithoutTrailingSpaces, Finished;
    assert ReadAt(hb, 0, HEADER_SIZE) == hb;
  }

  lemma LongHeader(hb: Bytes, name: Bytes)
    requires |hb| == HEADER_SIZE && Field(hb, 58, 2) == ARFMAG && hb[0] != ' ' && hb[..3] == LONG_NAME_MARK
    requires 0 < |name| <= MAX_NAME_LENGTH && StrToL(hb[3..], 10) == |name|
    ensures HeaderAt(hb + name, 0) == Finished(hb, HEADER_SIZE + |name|, name, |name|)
  {
    hide StrToL, WithoutTrailingSpaces, Finished;
    assert ReadAt(hb + name, 0, HEADER_SIZE) == hb;
    assert ReadAt(hb + name, HEADER_SIZE, |name|) == name;
  }

  lemma ShortEntryReads(name: string, f: DiskFile)
    requires FitsColumns(name, f) && !NeedsLongName(name)
    ensures WellFormed(NewEntry(name, f)) && Parsed(NewEntry(name, f)).chdr == ReadBack(name, f)
  {
    hide StrToL, Digits, Owner, Signed, WithoutTrailingSpaces, CStr, Column, HeaderAt;
    var e := NewEntry(name, f);
    var n := Column(name, 16);
    ShortNameField(name);
    FieldsRead(n, StatOf(f), |f.contents|);
    assert e.header + e.longName == e.header && e.header[..3] == n[..3] && e.header[0] == n[0];
    ShortHeader(e.header);
  }

  lemma ShortNameField(name: string)
    requires name != "" && '/' !in name && !NeedsLongName(name)
    ensures |Column(name, 16)| == 16 && Column(name, 16)[0] != ' ' && Column(name, 16)[..3] != LONG_NAME_MARK
    ensures WithoutTrailingSpaces(Column(name, 16)) == name
  {
    assert name[|name| - 1] in name && name[0] in name;
    assert name + Spaces(0) == name;
    SpacesStripped(name, 16 - |name|);
    var n := Column(name, 16);
    assert n[2] != '/' by {
      if |name| > 2 {
        assert name[2] in name;
      }
    }
    assert LONG_NAME_MARK[2] == '/' && n[..3][2] == n[2];
  }

  lemma LongHeaderFields(name: string, sb: Stat)
    requires NeedsLongName(name) && RoundUp4(|name|) <= MAX_NAME_LENGTH && |Signed(sb.mtime)| <= 12
    requires |Digits(sb.mode, 8)| <= 8 && |Digits(sb.size + RoundUp4(|name|), 10)| <= 10
    ensures var hb := NewHeader(name, sb);
      && HasFields(hb, sb, sb.size + RoundUp4(|name|))
      && hb[0] != ' ' && hb[..3] == LONG_NAME_MARK && StrToL(hb[3..], 10) == RoundUp4(|name|)
  {
    hide StrToL, Digits, Owner, Signed, Column, ReadAt, Field, RoundUp4;
    var length := RoundUp4(|name|);
    var rest := Column(Signed(sb.mtime), 12) + Owner(sb, sb.size + length);
    DigitsShort(length, 2);
    LongNameField(length, rest);
    var n := LONG_NAME_MARK + Column(Digits(length, 10), 13);
    FieldsRead(n, sb, sb.size + length);
    assert NewHeader(name, sb) == n + rest;
    assert (n + rest)[..3] == n[..3] && (n + rest)[0] == n[0];
  }

  lemma LongEntryReads(name: string, f: DiskFile)
    requires FitsColumns(name, f) && NeedsLongName(name)
    ensures WellFormed(NewEntry(name, f)) && Parsed(NewEntry(name, f)).chdr == ReadBack(name, f)
  {
    hide StrToL, Digits, Signed, WithoutTrailingSpaces, CStr, HeaderAt, PaddedName, ReadAt, Field, NewHeader;
    var e := NewEntry(name, f);
    PaddedLength(name);
    LongHeaderFields(name, StatOf(f));
    LongHeader(e.header, e.longName);
  }

  lemma LongNameField(length: nat, rest: Bytes)
    requires |Digits(length, 10)| < 13
    ensures var n := LONG_NAME_MARK + Column(Digits(length, 10), 13);
      && |n| == 16 && n[..3] == LONG_NAME_MARK && n[0] != ' '
      && StrToL((n + rest)[3..], 10) == length
  {
    hide StrToL, Digits;
    var d := Digits(length, 10);
    var n := LONG_NAME_MARK + Column(d, 13);
    assert (n + rest)[3..] == d + (Spaces(13 - |d|) + rest);
    NumberReads(length, 10, Spaces(13 - |d|) + rest);
  }

  /** The header of a member of one byte whose long name has three. */
  function ShortNameHeader(): Bytes {
    LONG_NAME_MARK + Column(Digits(3, 10), 13) + Column(Signed(0), 12) + Owner(Stat(0, 0, 0, 0, 1), 4)
  }

  /** Its copy is not the member: a NUL comes before the body. */
  lemma MisalignedMember()
    ensures var hb := ShortNameHeader();
      var r := HeaderAt(hb + "abc" + "x", 0);
      && r.Got? && r.hb == hb && r.chdr.lname == 3 && r.chdr.name == "abc" && r.chdr.size == 1
      && CopiedMember(hb + "abc" + "x", r) == Copied(hb + "abc\0" + "x\n", |hb + "abc" + "x"|)
  {
    hide StrToL, Digits, Owner, Signed, Column, HeaderAt;
    var hb, sb := ShortNameHeader(), Stat(0, 0, 0, 0, 1);
    SmallNumbers();
    DigitsShort(3, 0);
    LongNameField(3, Column(Signed(0), 12) + Owner(sb, 4));
    var n := LONG_NAME_MARK + Column(Digits(3, 10), 13);
    FieldsRead(n, sb, 4);
    assert hb == n + (Column(Signed(0), 12) + Owner(sb, 4));
    assert hb[..3] == n[..3] && hb[0] == n[0];
    LongHeader(hb, "abc");
    var data := hb + "abc" + "x";
    HeaderPrefix(hb, "abc", "x");
    assert ReadAt(data, |hb| + 3, 1) == "x";
    assert PaddedName("abc") == "abc\0";
    assert hb + "abc\0" + ("x" + "\n") == hb + "abc\0" + "x\n";
  }

  lemma SmallNumbers()
    ensures |Signed(0)| <= 12 && |Digits(0, 8)| <= 8 && |Digits(4, 10)| <= 10
  {
  }

  /** What follows a long name does not change how the header reads. */
  lemma HeaderPrefix(hb: Bytes, name: Bytes, rest: Bytes)
    requires |hb| == HEADER_SIZE && Field(hb, 58, 2) == ARFMAG && hb[0] != ' ' && hb[..3] == LONG_NAME_MARK
    requires 0 < |name| <= MAX_NAME_LENGTH && StrToL(hb[3..], 10) == |name|
    ensures HeaderAt(hb + name + rest, 0) == HeaderAt(hb + name, 0)
  {
    hide StrToL, Finished;
    var data := hb + name + rest;
    assert ReadAt(data, 0, HEADER_SIZE) == hb == ReadAt(hb + name, 0, HEADER_SIZE);
    assert ReadAt(data, HEADER_SIZE, |name|) == name == ReadAt(hb + name, HEADER_SIZE, |name|);
  }

  /** The header of a file of 9 bytes and mode 010, of user 1 and group 2, last
      modified 7 seconds after the epoch, under a short name and a long one. */
  lemma HeaderExample()
    ensures NewHeader("foo.o", Stat(7, 1, 2, 8, 9))
         == "foo.o           " + "7           " + ("1     " + "2     " + "10      " + "9         " + "`\n")
    ensures NewHeader("a b", Stat(7, 1, 2, 8, 9))
         == "#1/" + "4            " + "7           " + ("1     " + "2     " + "10      " + "13        " + "`\n")
  {
    hide Digits, Column;
    SmallDigits();
    ColumnExamples();
  }

  lemma ColumnExamples()
    ensures Column("foo.o", 16) == "foo.o           " && Column("4", 13) == "4            "
    ensures Column("7", 12) == "7           " && Column("1", 6) == "1     " && Column("2", 6) == "2     "
    ensures Column("10", 8) == "10      " && Column("9", 10) == "9         " && Column("13", 10) == "13        "
  {
  }

  lemma SmallDigits()
    ensures Digits(1, 10) == "1" && Digits(2, 10) == "2" && Digits(7, 10) == "7" && Digits(9, 10) == "9"
    ensures Digits(4, 10) == "4" && Digits(8, 8) == "10" && Digits(13, 10) == "13"
  {
  }
}
