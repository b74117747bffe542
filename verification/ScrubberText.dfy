/** The text the scrubber reads: what it skips, and what becomes of the
    newlines of a whole text, told without its states. */
module ScrubberText {
  import opened CString
  import opened Numerals
  import opened DecimalText

  predicate IsSymbolComponent(c: char) {
    c in "$._" || 'A' <= c <= 'Z' || 'a' <= c <= 'z' || '0' <= c <= '9'
  }

  lemma NotSymbols()
    ensures forall c :: c in " \t\r\n/#:;'\"(" ==> !IsSymbolComponent(c)
  {
  }

  predicate IsWhitespace(c: char) {
    c in " \t\r"
  }

  predicate IsLineSeparator(c: char) {
    c in "\n:;"
  }

  /** Both anywhere and at the start of a line. */
  predicate IsComment(c: char) {
    c == '#'
  }

  function Newlines(s: string): nat {
    if s == "" then 0 else NewlineAt(s[0]) + Newlines(s[1..])
  }

  function NewlineAt(c: char): nat {
    if c == '\n' then 1 else 0
  }

  ghost predicate Terminated(s: string) {
    s == "" || s[|s| - 1] == '\n'
  }

  predicate SingleSpaced(s: string) {
    forall i :: 0 <= i < |s| - 1 ==> !(s[i] == ' ' && s[i + 1] == ' ')
  }

  lemma {:induction false} NoNewlines(s: string)
    requires '\n' !in s
    ensures Newlines(s) == 0
  {
    if s != "" {
      NoNewlines(s[1..]);
    }
  }

  /** What a character constant becomes. */
  function CharText(code: nat): string {
    "(" + Digits(code, 10) + ")"
  }

  lemma {:induction false} DigitsPlain(n: nat)
    ensures '\n' !in Digits(n, 10) && ' ' !in Digits(n, 10)
  {
    if n >= 10 {
      DigitsPlain(n / 10);
    }
  }

  lemma CharTextPlain(code: nat)
    ensures Newlines(CharText(code)) == 0 && ' ' !in CharText(code) && SingleSpaced(CharText(code))
    ensures |CharText(code)| >= 2
    ensures CharText(code)[0] == '(' && CharText(code)[|CharText(code)| - 1] == ')'
  {
    DigitsPlain(code);
    NoNewlines(CharText(code));
  }

  const LINE_TEXT := ".line "
  const FILE_TEXT := "; .file "

  lemma TextsPlain()
    ensures Newlines(LINE_TEXT) == 0 && SingleSpaced(LINE_TEXT)
    ensures Newlines(FILE_TEXT) == 0 && SingleSpaced(FILE_TEXT)
    ensures LINE_TEXT[1..] == "line " && FILE_TEXT[1..] == " .file "
  {
    hide Newlines;
    NoNewlines(LINE_TEXT);
    NoNewlines(FILE_TEXT);
  }

  function DropWhite(s: string): (t: string)
    ensures |t| <= |s| && (t != "" ==> !IsWhitespace(t[0]))
  {
    if s != "" && IsWhitespace(s[0]) then DropWhite(s[1..]) else s
  }

  function FromNewline(s: string): (t: string)
    ensures |t| <= |s| && (t == "" <==> '\n' !in s) && (t != "" ==> t[0] == '\n')
  {
    if s == "" || s[0] == '\n' then s else FromNewline(s[1..])
  }

  /** What follows the end of a block comment. */
  function AfterBlock(s: string): (t: string)
    ensures |t| <= |s| && Newlines(t) <= Newlines(s)
  {
    if |s| < 2 then "" else if s[0] == '*' && s[1] == '/' then s[2..] else AfterBlock(s[1..])
  }

  /** What a comment leaves of the text after a slash, if it is one. */
  function AfterSlash(s: string): (t: string)
    ensures |t| <= |s| && Newlines(t) <= Newlines(s) && (CharAt(s, 0) == '*' ==> |t| < |s|)
  {
    if CharAt(s, 0) == '*' then AfterBlock(s[1..])
    else if CharAt(s, 0) == '/' then
      assert Newlines(FromNewline(s[1..])) == Newlines(s[1..]) by { SkippedToNewline(s[1..]); }
      FromNewline(s[1..])
    else s
  }

  /** Whether white space and a digit begin the text. */
  predicate StartsNumber(s: string) {
    var t := DropWhite(s);
    t != "" && IsDigit(t[0])
  }

  /** No comment could be a line marker. */
  ghost predicate NoMarkers(s: string) {
    forall i :: 0 <= i < |s| && IsComment(s[i]) ==> !StartsNumber(s[i + 1..])
  }

  /** Some quote has a newline after it. */
  ghost predicate QuotedNewline(s: string) {
    exists i :: 0 <= i < |s| - 1 && s[i] == '\'' && s[i + 1] == '\n'
  }

  /** The text t ends s. */
  ghost predicate TailOf(t: string, s: string) {
    |t| <= |s| && s[|s| - |t|..] == t
  }

  /** What may be left of s: a tail, or a tail and a character put back that s
      did not hold there. */
  ghost predicate LeftOf(t: string, s: string) {
    TailOf(t, s) || (t != "" && t[0] in " n\n" && TailOf(t[1..], s))
  }

  /** The last two characters read were a quote and a newline. */
  ghost predicate QuotedLast(s: string, t: string) {
    TailOf("'\n" + t, s)
  }

  lemma TailSelf(s: string)
    ensures TailOf(s, s)
  {
  }

  lemma TailOne(s: string)
    ensures TailOf(if s == "" then s else s[1..], s)
  {
  }

  lemma TailTrans(t: string, u: string, s: string)
    requires TailOf(t, u) && TailOf(u, s)
    ensures TailOf(t, s)
  {
    assert s[|s| - |t|..] == s[|s| - |u|..][|u| - |t|..];
  }

  /** What a text does not hold, a tail of it does not hold. */
  lemma TailKeeps(t: string, s: string)
    requires TailOf(t, s)
    ensures !QuotedNewline(s) ==> !QuotedNewline(t)
    ensures NoMarkers(s) ==> NoMarkers(t)
    ensures forall c :: c in t ==> c in s
    ensures Terminated(s) ==> Terminated(t)
  {
    hide NoMarkers;
    TailKeepsMarkers(t, s);
    var d := |s| - |t|;
    forall i | 0 <= i < |t|
      ensures t[i] == s[d + i]
    {
    }
    if QuotedNewline(t) {
      var i :| 0 <= i < |t| - 1 && t[i] == '\'' && t[i + 1] == '\n';
      assert s[d + i] == '\'' && s[d + i + 1] == '\n';
    }
  }

  lemma TailKeepsMarkers(t: string, s: string)
    requires TailOf(t, s)
    ensures NoMarkers(s) ==> NoMarkers(t)
  {
    hide StartsNumber;
    var d := |s| - |t|;
    if NoMarkers(s) {
      forall i | 0 <= i < |t| && IsComment(t[i])
        ensures !StartsNumber(t[i + 1..])
      {
        assert s[d..][i] == s[d + i] && s[d..][i + 1..] == s[d + i + 1..];
      }
    }
  }

  /** So with a character that was put back. */
  lemma LeftKeeps(t: string, s: string)
    requires LeftOf(t, s)
    ensures !QuotedNewline(s) ==> !QuotedNewline(t)
    ensures NoMarkers(s) ==> NoMarkers(t)
    ensures '"' !in s ==> '"' !in t
  {
    hide QuotedNewline, NoMarkers;
    if TailOf(t, s) {
      TailKeeps(t, s);
    } else {
      TailKeeps(t[1..], s);
      PutBackKeeps(t[0], t[1..]);
      assert t == [t[0]] + t[1..];
    }
  }

  lemma PutBackKeeps(c: char, t: string)
    requires c in " n\n"
    ensures !QuotedNewline(t) ==> !QuotedNewline([c] + t)
    ensures NoMarkers(t) ==> NoMarkers([c] + t)
    ensures '"' !in t ==> '"' !in [c] + t
  {
    hide StartsNumber;
    var s := [c] + t;
    if QuotedNewline(s) {
      var i :| 0 <= i < |s| - 1 && s[i] == '\'' && s[i + 1] == '\n';
      assert t[i - 1] == '\'' && t[i] == '\n';
    }
    if NoMarkers(t) {
      forall i | 0 <= i < |s| && IsComment(s[i])
        ensures !StartsNumber(s[i + 1..])
      {
        assert t[i - 1] == s[i] && s[i + 1..] == t[i - 1 + 1..];
      }
    }
  }

  datatype Mode = Code | Quoted | Escaped

  function AfterQuoted(c: char): Mode {
    if c == '"' then Code else if c == '\\' then Escaped else Quoted
  }

  /** What a text comes out as, blanks of the code left out, and what becomes
      of its newlines: how many are returned, how many are owed at its end, how
      many were character constants, and how many were added for strings and
      for comments that the end cuts off. */
  datatype Tally =
    Tally(text: string, returned: nat, owed: nat, swallowed: nat, cutStrings: nat, cutComments: nat)

  /** A text in front of others, with its newlines. */
  function Plus(t: Tally, text: string, returned: nat, swallowed: nat, cutComments: nat): Tally {
    t.(text := text + t.text, returned := t.returned + returned, swallowed := t.swallowed + swallowed,
       cutComments := t.cutComments + cutComments)
  }

  function Breaks(n: nat): string {
    if n == 0 then "" else "\n" + Breaks(n - 1)
  }

  /** What one piece of a text comes out as, what it leaves to read, and its
      newlines. */
  datatype Piece =
    Piece(text: string, rest: string, mode: Mode, owed: nat, returned: nat, swallowed: nat, cutComments: nat)

  /** In a text without line markers a block comment and an escaped newline
      owe their newlines to the next newline of the code, and a line comment
      ends with its own. Strings come out as they are, but for a newline after
      a backslash: another backslash and an n. */
  function FirstPiece(s: string, mode: Mode, owed: nat): (p: Piece)
    requires s != ""
    ensures |p.rest| < |s|
  {
    match mode
    case Quoted => Piece([s[0]], s[1..], AfterQuoted(s[0]), owed, NewlineAt(s[0]), 0, 0)
    case Escaped =>
      Piece(if s[0] == '\n' then "\\n" else [s[0]], s[1..], Quoted, owed + NewlineAt(s[0]), 0, 0, 0)
    case Code => CodePiece(s, owed)
  }

  function CodePiece(s: string, owed: nat): (p: Piece)
    requires s != ""
    ensures |p.rest| < |s|
  {
    if s[0] in " \t" then Piece("", DropWhite(s[1..]), Code, owed, 0, 0, 0)
    else if s[0] == '\n' then Piece(Breaks(1 + owed), s[1..], Code, 0, 1 + owed, 0, 0)
    else if s[0] == '"' then Piece("\"", s[1..], Quoted, owed, 0, 0, 0)
    else if s[0] == '\'' then ConstantPiece(s[1..], owed)
    else if s[0] == '#' then CommentPiece(FromNewline(s[1..]), owed)
    else if s[0] == '/' then SlashPiece(s[1..], owed)
    else Piece([s[0]], s[1..], Code, owed, 0, 0, 0)
  }

  /** The character after a quote, modulo 256; the end of the text is a NUL. */
  function ConstantPiece(s: string, owed: nat): Piece {
    if s == "" then Piece(CharText(0), "", Code, owed, 0, 0, 0)
    else Piece(CharText(s[0] as int % 256), s[1..], Code, owed, 0, NewlineAt(s[0]), 0)
  }

  /** A comment up to a newline; the end of the text adds one. */
  function CommentPiece(line: string, owed: nat): Piece {
    if line == "" then Piece("\n", line, Code, owed, 1, 0, 1) else Piece("\n", line[1..], Code, owed, 1, 0, 0)
  }

  /** What follows a slash: a comment, which stands for a blank, or not. */
  function SlashPiece(s: string, owed: nat): (p: Piece)
    ensures |p.rest| <= |s|
  {
    var t := AfterSlash(s);
    Piece(if CharAt(s, 0) in "*/" then "" else "/", if CharAt(s, 0) == '*' then DropWhite(t) else t,
          Code, owed + Newlines(s) - Newlines(t), 0, 0, 0)
  }

  /** The newlines of a text, with some owed before it, and what it comes out
      as. The end inside a string adds a quote and a newline, and one more quote
      after a backslash. */
  function Count(s: string, mode: Mode, owed: nat): Tally
    decreases |s|
  {
    if s == "" then
      match mode
      case Code => Tally("", 0, owed, 0, 0, 0)
      case Quoted => Tally("\"" + Breaks(1 + owed), 1 + owed, 0, 0, 1, 0)
      case Escaped => Tally("\"\"" + Breaks(1 + owed), 1 + owed, 0, 0, 1, 0)
    else
      var p := FirstPiece(s, mode, owed);
      Plus(Count(p.rest, p.mode, p.owed), p.text, p.returned, p.swallowed, p.cutComments)
  }

  predicate Accounts(p: Piece, s: string, owed: nat) {
    && p.returned + p.owed + p.swallowed + Newlines(p.rest) == Newlines(s) + owed + p.cutComments
    && p.cutComments <= 1 && (p.cutComments == 1 ==> p.rest == "" && p.mode == Code)
  }

  lemma PieceBalanced(s: string, mode: Mode, owed: nat)
    requires s != ""
    ensures Accounts(FirstPiece(s, mode, owed), s, owed)
  {
    hide Newlines, FromNewline, CommentPiece, ConstantPiece, SlashPiece, DropWhite, CharText, Breaks;
    NewlinesFrom(s);
    if mode == Code {
      WhiteSkipped(s[1..]);
      ConstantBalanced(s[1..], owed);
      CommentBalanced(s[1..], owed);
      SlashBalanced(s[1..], owed);
    }
  }

  lemma ConstantBalanced(s: string, owed: nat)
    ensures Accounts(ConstantPiece(s, owed), s, owed)
  {
    hide CharText;
    NewlinesFrom(s);
  }

  lemma SlashBalanced(s: string, owed: nat)
    ensures Accounts(SlashPiece(s, owed), s, owed)
  {
    hide AfterSlash, DropWhite, Newlines;
    WhiteSkipped(AfterSlash(s));
  }

  lemma CommentBalanced(s: string, owed: nat)
    ensures Accounts(CommentPiece(FromNewline(s), owed), s, owed)
  {
    hide FromNewline;
    SkippedToNewline(s);
    NewlinesFrom(FromNewline(s));
  }

  lemma NewlinesFrom(s: string)
    ensures Newlines(s) == if s == "" then 0 else NewlineAt(s[0]) + Newlines(s[1..])
  {
  }

  lemma PieceTail(s: string, mode: Mode, owed: nat)
    requires s != ""
    ensures TailOf(FirstPiece(s, mode, owed).rest, s)
  {
    hide Newlines, SlashPiece, ConstantPiece, CommentPiece, FromNewline, DropWhite, Breaks, TailOf;
    var u := s[1..];
    TailOne(s);
    if mode == Code {
      PartTails(u, owed);
      TailTrans(DropWhite(u), u, s);
      TailTrans(ConstantPiece(u, owed).rest, u, s);
      TailTrans(CommentPiece(FromNewline(u), owed).rest, u, s);
      TailTrans(SlashPiece(u, owed).rest, u, s);
    }
  }

  lemma PartTails(u: string, owed: nat)
    ensures TailOf(DropWhite(u), u) && TailOf(ConstantPiece(u, owed).rest, u)
    ensures TailOf(CommentPiece(FromNewline(u), owed).rest, u) && TailOf(SlashPiece(u, owed).rest, u)
  {
    hide Newlines, AfterSlash, FromNewline, DropWhite, CharText, TailOf, CommentPiece, SlashPiece;
    TailOne(u);
    WhiteSkipped(u);
    CommentTail(u, owed);
    SlashPieceTail(u, owed);
  }

  lemma CommentTail(u: string, owed: nat)
    ensures TailOf(CommentPiece(FromNewline(u), owed).rest, u)
  {
    hide FromNewline, TailOf, Newlines;
    var t := FromNewline(u);
    SkippedToNewline(u);
    TailOne(t);
    TailTrans(if t == "" then t else t[1..], t, u);
  }

  lemma SlashPieceTail(u: string, owed: nat)
    ensures TailOf(SlashPiece(u, owed).rest, u)
  {
    hide AfterSlash, DropWhite, TailOf, Newlines;
    var w := AfterSlash(u);
    SlashTail(u);
    WhiteSkipped(w);
    TailTrans(DropWhite(w), w, u);
  }

  lemma SlashTail(s: string)
    ensures TailOf(AfterSlash(s), s)
  {
    hide Newlines, AfterBlock, FromNewline;
    if s != "" {
      SkippedToNewline(s[1..]);
      SkippedBlock(s[1..]);
      if s[0] == '*' {
        TailTrans(AfterBlock(s[1..]), s[1..], s);
      } else if s[0] == '/' {
        TailTrans(FromNewline(s[1..]), s[1..], s);
      }
    }
  }

  lemma AfterSlashIs(s: string)
    ensures AfterSlash(s) ==
      match CharAt(s, 0)
      case '*' => AfterBlock(s[1..])
      case '/' => FromNewline(s[1..])
      case _ => s
  {
  }

  lemma SlashLeaves(s: string)
    ensures CharAt(s, 0) == '/' ==> AfterSlash(s) == "" || AfterSlash(s)[0] == '\n'
    ensures CharAt(s, 0) !in "*/" ==> AfterSlash(s) == s
  {
  }

  /** Every newline is accounted for, and the end cuts off at most one thing. */
  lemma {:induction false} Balanced(s: string, mode: Mode, owed: nat)
    ensures var t := Count(s, mode, owed);
      && t.returned + t.owed + t.swallowed == Newlines(s) + owed + t.cutStrings + t.cutComments
      && t.cutStrings + t.cutComments <= 1
    decreases |s|
  {
    hide FirstPiece, Newlines;
    if s == "" {
      assert Newlines(s) == 0 by { NoNewlines(s); }
    } else {
      var p := FirstPiece(s, mode, owed);
      PieceBalanced(s, mode, owed);
      Balanced(p.rest, p.mode, p.owed);
    }
  }

  /** Up to the first newline there is none. */
  lemma {:induction false} SkippedToNewline(s: string)
    ensures Newlines(FromNewline(s)) == Newlines(s)
    ensures TailOf(FromNewline(s), s)
  {
    if s != "" && s[0] != '\n' {
      SkippedToNewline(s[1..]);
      TailTrans(FromNewline(s[1..]), s[1..], s);
    }
  }

  lemma {:induction false} SkippedBlock(s: string)
    ensures TailOf(AfterBlock(s), s)
  {
    if |s| >= 2 && !(s[0] == '*' && s[1] == '/') {
      SkippedBlock(s[1..]);
      TailTrans(AfterBlock(s[1..]), s[1..], s);
    }
  }

  lemma {:induction false} WhiteSkipped(s: string)
    ensures TailOf(DropWhite(s), s) && Newlines(DropWhite(s)) == Newlines(s)
  {
    if s != "" && IsWhitespace(s[0]) {
      WhiteSkipped(s[1..]);
      TailTrans(DropWhite(s[1..]), s[1..], s);
    }
  }

  /** No newline is owed where none can come in a comment or after a
      backslash. */
  predicate NoneOwed(s: string, mode: Mode, owed: nat) {
    '/' !in s && '\\' !in s && mode != Escaped && owed == 0
  }

  lemma PieceLosesNothing(s: string, mode: Mode, owed: nat)
    requires s != ""
    ensures var p := FirstPiece(s, mode, owed);
      && (!QuotedNewline(s) ==> p.swallowed == 0)
      && ('"' !in s && mode == Code ==> p.mode == Code)
      && (Terminated(s) ==> p.cutComments == 0)
      && (NoneOwed(s, mode, owed) ==> p.mode != Escaped && p.owed == 0)
  {
    if mode == Code && s[0] == '#' && Terminated(s) {
      assert s[1..][|s| - 2] == '\n';
    }
  }

  /** Texts for which nothing is swallowed, cut off or owed. */
  lemma {:induction false} NothingLost(s: string, mode: Mode, owed: nat)
    ensures var t := Count(s, mode, owed);
      && (!QuotedNewline(s) ==> t.swallowed == 0)
      && ('"' !in s && mode == Code ==> t.cutStrings == 0)
      && (Terminated(s) ==> t.cutComments == 0)
      && (NoneOwed(s, mode, owed) ==> t.owed == 0)
    decreases |s|
  {
    hide FirstPiece, QuotedNewline, NoMarkers;
    if s != "" {
      var p := FirstPiece(s, mode, owed);
      PieceTail(s, mode, owed);
      PieceLosesNothing(s, mode, owed);
      TailKeeps(p.rest, s);
      NothingLost(p.rest, p.mode, p.owed);
    }
  }

  /** A text that ends with a newline and has none after a quote keeps its
      newlines, when its strings are closed; without a slash or a backslash all
      of them have come out at the end. */
  lemma NewlinesConserved(s: string)
    requires Terminated(s) && !QuotedNewline(s)
    ensures var t := Count(s, Code, 0);
      && t.returned + t.owed == Newlines(s) + t.cutStrings
      && ('"' !in s ==> t.returned + t.owed == Newlines(s))
      && ('/' !in s && '\\' !in s ==> t.returned == Newlines(s) + t.cutStrings)
  {
    Balanced(s, Code, 0);
    NothingLost(s, Code, 0);
  }

  /** A newline that is a character constant is not returned. */
  lemma ConstantSwallowed()
    ensures Newlines("'\n\n") == 2 && Count("'\n\n", Code, 0) == Tally("(10)\n", 1, 0, 1, 0, 0)
  {
    hide Count, Newlines;
    var s := "'\n\n";
    NewlinesFrom(s);
    NewlinesFrom(s[1..]);
    NewlinesFrom(s[1..][1..]);
    NewlinesFrom("");
    assert s[1..][1..] == s[2..] == "\n" && s[2..][1..] == "";
    CountConstant(s, 0);
    CountEnd(0);
  }

  lemma CountEnd(owed: nat)
    ensures Count("", Code, owed) == Tally("", 0, owed, 0, 0, 0)
    ensures Count("", Quoted, owed) == Tally("\"" + Breaks(1 + owed), 1 + owed, 0, 0, 1, 0)
    ensures Count("", Escaped, owed) == Tally("\"\"" + Breaks(1 + owed), 1 + owed, 0, 0, 1, 0)
    ensures Count("\n", Code, owed) == Tally(Breaks(1 + owed), 1 + owed, 0, 0, 0, 0)
  {
    hide Breaks;
    assert "\n"[1..] == "";
    assert Count("", Code, 0) == Tally("", 0, 0, 0, 0, 0);
    assert Breaks(1 + owed) + "" == Breaks(1 + owed);
  }

  lemma NoBreaks()
    ensures Breaks(0) == ""
  {
  }

  lemma BreaksStep(n: nat)
    ensures Breaks(1 + n) == "\n" + Breaks(n)
  {
  }

  /** The count of a text by its first character. */
  lemma CountQuoted(s: string, owed: nat)
    requires s != ""
    ensures Count(s, Quoted, owed) == Plus(Count(s[1..], AfterQuoted(s[0]), owed), [s[0]], NewlineAt(s[0]), 0, 0)
    ensures Count(s, Escaped, owed) ==
      Plus(Count(s[1..], Quoted, owed + NewlineAt(s[0])), if s[0] == '\n' then "\\n" else [s[0]], 0, 0, 0)
  {
  }

  lemma CountPlain(s: string, owed: nat)
    requires s != "" && s[0] !in " \t\n\"'#/"
    ensures Count(s, Code, owed) == Plus(Count(s[1..], Code, owed), [s[0]], 0, 0, 0)
  {
  }

  lemma CountWhite(s: string, owed: nat)
    requires s != "" && s[0] in " \t"
    ensures Count(s, Code, owed) == Count(DropWhite(s[1..]), Code, owed)
  {
    hide DropWhite;
    assert "" + Count(DropWhite(s[1..]), Code, owed).text == Count(DropWhite(s[1..]), Code, owed).text;
  }

  lemma CountNewline(s: string, owed: nat)
    requires s != "" && s[0] in "\n\""
    ensures Count(s, Code, owed) ==
      if s[0] == '\n' then Plus(Count(s[1..], Code, 0), Breaks(1 + owed), 1 + owed, 0, 0)
      else Plus(Count(s[1..], Quoted, owed), "\"", 0, 0, 0)
  {
  }

  lemma CountConstant(s: string, owed: nat)
    requires s != "" && s[0] == '\''
    ensures Count(s, Code, owed) ==
      if |s| == 1 then Plus(Count("", Code, owed), CharText(0), 0, 0, 0)
      else Plus(Count(s[2..], Code, owed), CharText(s[1] as int % 256), 0, NewlineAt(s[1]), 0)
  {
    hide CharText;
    assert |s| > 1 ==> s[1..][1..] == s[2..];
  }

  lemma CountComment(s: string, owed: nat)
    requires s != "" && s[0] == '#'
    ensures Count(s, Code, owed) ==
      var t := FromNewline(s[1..]);
      if t == "" then Plus(Count(t, Code, owed), "\n", 1, 0, 1) else Plus(Count(t[1..], Code, owed), "\n", 1, 0, 0)
  {
    hide FromNewline;
  }

  lemma CountSlash(s: string, owed: nat)
    requires s != "" && s[0] == '/'
    ensures var t := AfterSlash(s[1..]);
      var left := owed + Newlines(s[1..]) - Newlines(t);
      Count(s, Code, owed) ==
        match CharAt(s, 1)
        case '*' => Count(" " + t, Code, left)
        case '/' => Count(t, Code, left)
        case _ => Plus(Count(t, Code, left), "/", 0, 0, 0)
  {
    hide SlashPiece, AfterSlash, Newlines, DropWhite, Breaks, CharText;
    assert CharAt(s, 1) == CharAt(s[1..], 0);
    SlashCounts(s[1..], owed);
  }

  lemma SlashCounts(u: string, owed: nat)
    ensures var t, p := AfterSlash(u), SlashPiece(u, owed);
      var left := owed + Newlines(u) - Newlines(t);
      && p.mode == Code && p.returned == p.swallowed == p.cutComments == 0
      && Plus(Count(p.rest, Code, p.owed), p.text, 0, 0, 0) ==
           match CharAt(u, 0)
           case '*' => Count(" " + t, Code, left)
           case '/' => Count(t, Code, left)
           case _ => Plus(Count(t, Code, left), "/", 0, 0, 0)
  {
    hide AfterSlash, Newlines, DropWhite, Count;
    var t := AfterSlash(u);
    var left := owed + Newlines(u) - Newlines(t);
    CountWhite(" " + t, left);
    assert (" " + t)[1..] == t;
    NothingPlus(Count(t, Code, left));
    NothingPlus(Count(DropWhite(t), Code, left));
  }

  lemma NothingPlus(t: Tally)
    ensures Plus(t, "", 0, 0, 0) == t
  {
    assert "" + t.text == t.text;
  }

  /** Where the scrubber is in a text whose first characters it has read: a
      blank may have been put back for a comment. */
  ghost predicate Reached(text: string, whole: string) {
    TailOf(text, whole) || (text != "" && text[0] == ' ' && TailOf(text[1..], whole))
  }

  lemma WhiteRead(text: string, whole: string, owed: nat)
    requires text != "" && text[0] in " \t" && Reached(text, whole)
    ensures var t := DropWhite(text[1..]);
      && TailOf(t, whole) && Newlines(t) == Newlines(text)
      && Count(t, Code, owed) == Count(text, Code, owed)
  {
    hide Newlines, Count, DropWhite;
    WhiteSkipped(text[1..]);
    NewlinesFrom(text);
    CountWhite(text, owed);
    if TailOf(text, whole) {
      TailTrans(text[1..], text, whole);
    }
    TailTrans(DropWhite(text[1..]), text[1..], whole);
  }

  lemma SlashRead(text: string, whole: string, owed: nat)
    requires text != "" && text[0] == '/' && Reached(text, whole)
    ensures var t := AfterSlash(text[1..]);
      var left := owed + Newlines(text[1..]) - Newlines(t);
      && TailOf(t, whole) && TailOf(text[1..], whole)
      && Count(text, Code, owed) ==
           (match CharAt(text[1..], 0)
            case '*' => Count(" " + t, Code, left)
            case '/' => Count(t, Code, left)
            case _ => Plus(Count(t, Code, left), "/", 0, 0, 0))
      && Reached(t, whole) && Reached(" " + t, whole)
      && Newlines(" " + t) == Newlines(t) && Newlines(text) == Newlines(text[1..])
  {
    hide AfterSlash, Newlines, Count;
    var s := text[1..];
    var t := AfterSlash(s);
    TailTrans(s, text, whole);
    SlashTail(s);
    TailTrans(t, s, whole);
    CountSlash(text, owed);
    assert CharAt(text, 1) == CharAt(s, 0);
    NewlinesFrom(text);
    NewlinesFrom(" " + t);
    assert (" " + t)[1..] == t;
  }

  lemma CharAtRead(text: string, whole: string)
    requires text != "" && TailOf(text, whole)
    ensures TailOf(text[1..], whole) && TailOf("", whole)
    ensures Terminated(whole) ==> Terminated(text[1..]) && Terminated(text)
  {
    TailTrans(text[1..], text, whole);
  }

  /** A quote and a newline were read last just when the constant was one. */
  lemma QuotedExactly(text: string, whole: string, t: string)
    requires text != "" && TailOf(text, whole)
    requires text[0] in "('" && t == if text[0] == '\'' && |text| > 1 then text[2..] else text[1..]
    ensures QuotedLast(whole, t) <==> text[0] == '\'' && |text| > 1 && text[1] == '\n'
    ensures TailOf(t, whole) && (Terminated(whole) ==> Terminated(t))
  {
    hide TailOf, Terminated;
    var u := "'\n" + t;
    CharAtRead(text, whole);
    if text[0] == '\'' && |text| > 1 {
      CharAtRead(text[1..], whole);
      assert text[1..][1..] == t;
    }
    if QuotedLast(whole, t) {
      TailAt(u, whole, 1);
      TailAt(text, whole, |text| - |t| - 1);
    }
    if text[0] == '\'' && |text| > 1 && text[1] == '\n' {
      assert text == u;
    }
  }

  lemma TailAt(t: string, s: string, i: nat)
    requires TailOf(t, s) && i < |t|
    ensures s[|s| - |t| + i] == t[i]
  {
    assert s[|s| - |t|..][i] == t[i];
  }

  /** A comment up to a newline, or a line marker. */
  lemma CommentRead(text: string, whole: string)
    requires TailOf(text, whole) && text != "" && IsComment(text[0])
    ensures var t := FromNewline(text[1..]);
      && (t != "" ==> TailOf(t[1..], whole) && (Terminated(whole) ==> Terminated(t[1..])))
      && (Terminated(whole) ==> t != "")
    ensures var t := DropWhite(text[1..]);
      TailOf(t, whole) && (Terminated(whole) ==> Terminated(t))
    ensures NoMarkers(whole) ==> !StartsNumber(text[1..])
  {
    hide StartsNumber, NoMarkers, TailOf, FromNewline, DropWhite, Newlines, Count;
    var s, t, u := text[1..], FromNewline(text[1..]), DropWhite(text[1..]);
    CharAtRead(text, whole);
    SkippedToNewline(s);
    WhiteSkipped(s);
    TailTrans(u, s, whole);
    TailKeeps(u, whole);
    if t != "" {
      TailTrans(t, s, whole);
      CharAtRead(t, whole);
    }
    if NoMarkers(whole) {
      NoMarkerHere(text, whole);
    }
  }

  /** The rest of a line marker, from its file name or from its newline. */
  lemma MarkerRead(text: string)
    ensures var t := DropWhite(text);
      && TailOf(t, text) && TailOf(FromNewline(t), text) && (CharAt(t, 0) == '"' ==> '"' in text)
      && Newlines(t) == Newlines(text) && Newlines(FromNewline(t)) == Newlines(text)
  {
    hide Newlines, TailOf, DropWhite, FromNewline, QuotedNewline, NoMarkers, Count;
    var t := DropWhite(text);
    WhiteSkipped(text);
    SkippedToNewline(t);
    TailTrans(FromNewline(t), t, text);
    TailKeeps(t, text);
  }

  /** White space holds no newline, so a newline that follows is the first. */
  lemma {:induction false} NewlineAfterWhite(s: string)
    ensures FromNewline(DropWhite(s)) == FromNewline(s)
  {
    if s != "" && IsWhitespace(s[0]) {
      NewlineAfterWhite(s[1..]);
    }
  }

  lemma NewlineNext(s: string)
    requires '\n' in s
    ensures TailOf(s[1..], s)
    ensures if s[0] == '\n' then FromNewline(s) == "\n" + s[1..]
            else '\n' in s[1..] && FromNewline(s) == FromNewline(s[1..])
  {
    assert s == [s[0]] + s[1..];
  }

  lemma FromNewlineStep(c: char, s: string)
    ensures FromNewline([c] + s) == if c == '\n' then [c] + s else FromNewline(s)
  {
    assert ([c] + s)[1..] == s;
  }

  lemma TailIsLeft(t: string, s: string)
    requires TailOf(t, s)
    ensures LeftOf(t, s) && (Terminated(s) ==> Terminated(t)) && (forall c :: c in t ==> c in s)
  {
    TailKeeps(t, s);
  }

  /** Nothing read; one character, or a newline put back at the end; or an n
      put back for a newline. */
  lemma CharsLeft(s: string)
    ensures LeftOf(s, s)
    ensures if s == "" then LeftOf("\n", s) else LeftOf(s[1..], s) && LeftOf("n" + s[1..], s)
  {
    hide TailOf;
    TailSelf(s);
    TailOne(s);
    if s == "" {
      NewlineLeft();
    } else {
      PutBackLeft("n", s[1..], s);
    }
  }

  lemma NewlineLeft()
    ensures LeftOf("\n", "")
  {
    assert "\n"[1..] == "";
  }

  lemma PutBackLeft(x: string, t: string, s: string)
    requires TailOf(t, s) && |x| == 1 && x[0] in " n\n"
    ensures LeftOf(x + t, s)
  {
    hide TailOf;
    assert (x + t)[1..] == t;
  }

  lemma LastQuoted(t: string, s: string)
    ensures QuotedLast(s, t) ==> QuotedNewline(s)
  {
    if QuotedLast(s, t) {
      var u, d := "'\n" + t, |s| - |t| - 2;
      assert s[d..][0] == u[0] && s[d..][1] == u[1];
      assert s[d] == '\'' && s[d + 1] == '\n';
    }
  }

  lemma NoMarkerHere(text: string, whole: string)
    requires TailOf(text, whole) && text != "" && IsComment(text[0]) && NoMarkers(whole)
    ensures !StartsNumber(text[1..])
  {
    hide StartsNumber;
    TailKeeps(text, whole);
  }

  /** A text without blanks, comments, character constants and strings comes
      out as it is. */
  lemma {:induction false} PlainUnchanged(s: string)
    requires forall c :: c in s ==> c !in " \t#/\"'"
    ensures Count(s, Code, 0).text == s
  {
    hide Count;
    if s == "" {
      CountEnd(0);
    } else {
      assert s == [s[0]] + s[1..] && s[0] in s;
      PlainUnchanged(s[1..]);
      if s[0] == '\n' {
        CountNewline(s, 0);
        BreaksStep(0);
        assert Breaks(1) == "\n";
      } else {
        CountPlain(s, 0);
      }
    }
  }

  /** A newline after a backslash comes out as a second backslash and an n: the
      string has a backslash there and no newline. */
  lemma EscapedNewline()
    ensures Count("\\\n\"", Quoted, 0).text == "\\\\n\""
  {
    hide Count;
    var s := "\\\n\"";
    assert s[1..] == "\n\"" && s[1..][1..] == "\"" && "\""[1..] == "";
    CountQuoted(s, 0);
    CountQuoted(s[1..], 0);
    CountQuoted("\"", 1);
    CountEnd(1);
  }

  lemma {:induction false} DigitsSpell(n: nat)
    ensures Dec(Digits(n, 10)) == n
  {
    if n >= 10 {
      DigitsSpell(n / 10);
      DecSnoc(Digits(n / 10, 10), Digit(n % 10));
    } else {
      DecSnoc("", Digit(n));
      assert "" + [Digit(n)] == [Digit(n)];
    }
  }

  /** A character constant becomes its code, in decimal and in parentheses. */
  lemma CharTextSpells(code: nat)
    ensures var t := CharText(code);
      |t| >= 3 && t[0] == '(' && t[|t| - 1] == ')' && Dec(t[1..|t| - 1]) == code
  {
    hide Dec, Digits;
    DigitsSpell(code);
    var t := CharText(code);
    assert t[1..|t| - 1] == Digits(code, 10);
  }
}
