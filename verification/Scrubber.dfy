/** The scrubber in front of the assembler: it removes comments and needless
    white space and turns line markers into directives. */
module Scrubber {
  import opened CString
  import opened ScrubberText

  datatype Ch = Eof | Ch(c: char)

  /** Where the scrubber is: the states of the source, under its numbers where
      they only count white space. */
  datatype State =
    | Blank(n: nat)     // 0, 1, 2, 3, 9, 10
    | Digits            // 4: after a .line
    | InString          // 5
    | Escape            // 6
    | FileName          // 7: before the string of a .file
    | FlushLine         // 8: after it
    | Emitting          // -1

  /** The numbers the source uses. */
  predicate Known(state: State) {
    state.Blank? ==> state.n <= 3 || state.n == 9 || state.n == 10
  }

  /** A blank is a character of a string, or of the name of a file. */
  predicate InQuotes(state: State) {
    state == InString || state == Escape || state == FileName
  }

  /** The states in which a symbol character leaves the scrubber. */
  predicate AfterSymbol(state: State) {
    state == Blank(2) || state == Blank(9)
  }

  datatype Result = Next(ch: Ch) | Hangs

  const START := Blank(0)

  function NewlineIn(r: Ch): nat {
    if r.Ch? then NewlineAt(r.c) else 0
  }

  /** The text before ch was read. */
  function Before(ch: Ch, rest: string): string {
    if ch.Eof? then rest else [ch.c] + rest
  }

  lemma BlankBefore(rest: string)
    ensures Before(Ch(' '), rest) == " " + rest
  {
  }

  lemma BeforeNewlines(ch: Ch, rest: string)
    ensures Newlines(Before(ch, rest)) == Newlines(rest) + NewlineIn(ch)
  {
    if ch.Ch? {
      assert Before(ch, rest)[1..] == rest;
    }
  }

  lemma BeforeSelf(text: string)
    requires text != ""
    ensures Before(Ch(text[0]), text[1..]) == text
    ensures Before(Eof, text) == text
  {
  }

  /** A character and the white space after it, if it is white. */
  lemma WhiteAfter(ch: Ch, rest: string)
    requires ch.Ch?
    ensures DropWhite(Before(ch, rest)) == if IsWhitespace(ch.c) then DropWhite(rest) else Before(ch, rest)
  {
    assert Before(ch, rest)[1..] == rest;
  }

  lemma BeforeTail(ch: Ch, rest: string, s: string)
    requires TailOf(Before(ch, rest), s)
    ensures TailOf(rest, s)
  {
    if ch.Ch? {
      TailTrans(rest, Before(ch, rest), s);
    }
  }

  /** A symbol character would come next, with no space before it. */
  predicate Joins(rest: string, state: State) {
    rest != "" && IsSymbolComponent(rest[0]) && state != Blank(10)
  }

  /** A character in front of what is still to come; a blank of the code does
      not show. */
  function Shown(t: Tally, ch: Ch, quoted: bool): Tally {
    Plus(t, if ch.Eof? || (ch == Ch(' ') && !quoted) then "" else [ch.c], NewlineIn(ch), 0, 0)
  }

  /** A character returned, whether it was part of a string, and whether it
      closed a string that the end of the file cuts off. */
  datatype Item = Item(ch: Ch, quoted: bool, cut: bool)

  function NewlinesOf(items: seq<Item>): nat {
    if items == [] then 0 else NewlinesOf(items[..|items| - 1]) + NewlineIn(items[|items| - 1].ch)
  }

  lemma EndShown(t: Tally)
    ensures Shown(t, Eof, false) == t
  {
    NothingPlus(t);
  }

  lemma Associates(a: string, b: string, c: string)
    ensures a + (b + c) == (a + b) + c
  {
  }

  lemma NoneInFront(s: string)
    ensures "" + s == s
  {
  }

  /** The rest of a text after its first character. */
  lemma Prepended(c: char, tail: string, whole: string, more: string)
    requires whole != "" && c == whole[0] && tail == whole[1..]
    ensures [c] + tail == whole && [c] + (tail + more) == whole + more && "" + more == more
  {
    assert [c] + tail == whole;
  }

  /** What was returned, without the blanks of the code. */
  function Solid(items: seq<Item>): string {
    if items == [] then ""
    else
      var last := items[|items| - 1];
      Solid(items[..|items| - 1]) + if last.ch.Eof? || (last.ch == Ch(' ') && !last.quoted) then "" else [last.ch.c]
  }

  lemma NoItems()
    ensures NewlinesOf([]) == 0 && Solid([]) == ""
  {
  }

  /** No string was cut off. */
  ghost predicate NoneCut(items: seq<Item>) {
    forall i :: 0 <= i < |items| ==> !items[i].cut
  }

  lemma NothingCut()
    ensures NoneCut([])
  {
  }

  lemma OneMoreItem(items: seq<Item>, item: Item, t: Tally, newlines: nat)
    ensures Plus(Shown(t, item.ch, item.quoted), Solid(items), newlines, 0, 0)
         == Plus(t, Solid(items + [item]), newlines + NewlineIn(item.ch), 0, 0)
    ensures NoneCut(items + [item]) <==> NoneCut(items) && !item.cut
    ensures NewlinesOf(items + [item]) == NewlinesOf(items) + NewlineIn(item.ch)
  {
    var more := items + [item];
    assert more[..|items|] == items;
    assert more[|items|] == item;
    assert forall i :: 0 <= i < |items| ==> more[i] == items[i];
    var shown := if item.ch.Eof? || (item.ch == Ch(' ') && !item.quoted) then "" else [item.ch.c];
    assert Solid(more) == Solid(items) + shown;
    assert Solid(items) + (shown + t.text) == Solid(more) + t.text;
  }

  class Scrub {
    var rest: string
    var state: State
    var oldState: State
    var outString: string
    var addNewlines: nat
    var substate: nat
    ghost var cutStrings: nat
    ghost var cutComments: nat
    ghost var swallowed: nat

    constructor (input: string)
      ensures rest == input && state == START && addNewlines == 0
      ensures cutStrings == 0 && cutComments == 0 && swallowed == 0
      ensures Valid()
    {
      rest, state, oldState, outString := input, START, START, "";
      addNewlines, substate, cutStrings, cutComments, swallowed := 0, 0, 0, 0, 0;
    }

    /** Newlines still to be returned, net of those inserted for strings and
        comments that the end of the file cuts off and of those swallowed as
        character constants. */
    ghost function Balance(): int
      reads this
    {
      Newlines(rest) + addNewlines - cutStrings - cutComments + swallowed
    }

    /** Not in a line marker. */
    ghost predicate Unmarked()
      reads this
    {
      match state
      case Blank(_) => true
      case Digits => false
      case FileName => false
      case FlushLine => false
      case _ => oldState.Blank?
    }

    ghost function CurrentMode(): Mode
      reads this
    {
      if state == InString then Quoted else if state == Escape then Escaped else Code
    }

    /** What becomes of the newlines of a text with this many owed before it. */
    ghost function Forecast(text: string, mode: Mode, owed: nat): Tally
      reads this
    {
      var t := Count(text, mode, owed);
      t.(swallowed := swallowed + t.swallowed, cutStrings := cutStrings + t.cutStrings,
         cutComments := cutComments + t.cutComments)
    }

    /** What becomes of those not yet returned. */
    ghost function Outlook(): Tally
      reads this
    {
      var t := Forecast(rest, CurrentMode(), addNewlines);
      if state == Emitting then t.(text := outString + t.text) else t
    }

    /** Not in a string, nor before one. */
    ghost predicate Stringless()
      reads this
    {
      (state.Blank? || state in {Digits, Emitting}) && (state == Emitting ==> oldState.Blank? || oldState == Digits)
    }

    /** No white space and no slash in the text, and none read before. */
    ghost predicate Blankless()
      reads this
    {
      ' ' !in rest && '\t' !in rest && '/' !in rest && state != Blank(10) && oldState != Blank(10)
    }

    ghost predicate Valid()
      reads this
    {
      && (state == Emitting ==>
            && outString != "" && Newlines(outString) == 0
            && SingleSpaced(outString)
            && (oldState.Blank? || oldState == Digits || oldState == FileName)
            && (oldState.Blank? ==> ' ' !in outString)
            && (oldState == Digits ==> IsDigit(CharAt(rest, 0)))
            && (oldState == FileName ==> CharAt(rest, 0) == '"')
            && (outString[|outString| - 1] == ' ' ==> oldState == Digits || oldState == FileName))
      && (state == InString || state == Escape ==> oldState.Blank? || oldState == FlushLine)
      && Known(state) && Known(oldState)
    }

    /** What is returned next is not a space. */
    ghost predicate AfterSpace()
      reads this
    {
      match state
      case Blank(n) => rest == "" || (n in {1, 2, 3} && !IsWhitespace(rest[0]) && rest[0] != '/')
      case Digits => IsDigit(CharAt(rest, 0))
      case FileName => CharAt(rest, 0) == '"'
      case Emitting => outString != "" && outString[0] != ' '
      case _ => false
    }

    /** The text ends with a newline, or is the n of an escaped one that was
        the last. */
    ghost predicate EndsLine()
      reads this
    {
      Terminated(rest) || (state == InString && rest == "n")
    }

    lemma ValidIsKnown()
      requires Valid()
      ensures Known(state) && Known(oldState)
    {
    }

    lemma BlankIsValid()
      requires state.Blank? && Known(state) && Known(oldState)
      ensures Valid() && Unmarked() && Stringless() && CurrentMode() == Code
    {
    }

    method Getc() returns (ch: Ch)
      modifies `rest
      ensures Before(ch, rest) == old(rest)
      ensures if old(rest) == "" then ch == Eof && rest == "" else ch == Ch(old(rest)[0]) && rest == old(rest)[1..]
      ensures Newlines(rest) + NewlineIn(ch) == Newlines(old(rest))
    {
      if rest == "" {
        return Eof;
      }
      ch := Ch(rest[0]);
      rest := rest[1..];
    }

    method Ungetc(ch: Ch)
      modifies `rest
      ensures rest == Before(ch, old(rest))
      ensures Newlines(rest) == Newlines(old(rest)) + NewlineIn(ch)
    {
      if ch != Eof {
        rest := [ch.c] + rest;
      }
    }

    /** Reads white space, and one more. */
    method FlushWhite() returns (ch: Ch)
      modifies `rest
      ensures Before(ch, rest) == DropWhite(old(rest)) && (ch.Eof? ==> rest == "")
    {
      ch := Getc();
      while ch != Eof && IsWhitespace(ch.c)
        invariant DropWhite(Before(ch, rest)) == DropWhite(old(rest)) && (ch.Eof? ==> rest == "")
        decreases |rest| + if ch.Ch? then 1 else 0
      {
        ch := Getc();
      }
    }

    /** Reads what follows ch up to a newline, or to the end. */
    method FlushToNewline(first: Ch) returns (ch: Ch)
      requires first.Eof? ==> rest == ""
      modifies `rest
      ensures Before(ch, rest) == FromNewline(Before(first, old(rest))) && (ch.Eof? ==> rest == "")
    {
      ch := first;
      while ch != Eof && ch != Ch('\n')
        invariant FromNewline(Before(ch, rest)) == FromNewline(Before(first, old(rest)))
        invariant ch.Eof? ==> rest == ""
        decreases |rest| + if ch.Ch? then 1 else 0
      {
        ch := Getc();
      }
    }

    /** Reads a comment to its end; its newlines are owed. */
    method SkipBlockComment()
      modifies `rest, `addNewlines
      ensures rest == AfterBlock(old(rest))
      ensures Newlines(rest) + addNewlines == Newlines(old(rest)) + old(addNewlines)
    {
      hide Newlines;
      var ch;
      while true
        invariant AfterBlock(rest) == AfterBlock(old(rest))
        invariant Newlines(rest) + addNewlines == Newlines(old(rest)) + old(addNewlines)
        decreases |rest|
      {
        ch := SkipToStar();
        if ch == Eof {
          return;
        }
        ch := Getc();
        if ch == Eof || ch == Ch('/') {
          return;
        }
        Ungetc(ch);
      }
    }

    method SkipToStar() returns (ch: Ch)
      modifies `rest, `addNewlines
      ensures Newlines(rest) + addNewlines == Newlines(old(rest)) + old(addNewlines)
      ensures (ch == Eof && rest == "") || (ch == Ch('*') && |rest| < |old(rest)|)
      ensures AfterBlock(Before(ch, rest)) == AfterBlock(old(rest))
    {
      hide Newlines;
      ch := Getc();
      while ch != Eof && ch != Ch('*')
        invariant Newlines(rest) + NewlineIn(ch) + addNewlines == Newlines(old(rest)) + old(addNewlines)
        invariant if ch.Ch? then |rest| < |old(rest)| else rest == ""
        invariant AfterBlock(Before(ch, rest)) == AfterBlock(old(rest))
        decreases |rest| + if ch.Ch? then 1 else 0
      {
        if ch == Ch('\n') {
          addNewlines := addNewlines + 1;
        }
        ch := Getc();
      }
    }

    /** Start to return a text of the scrubber's own. */
    method StartEmitting(s: string, back: State) returns (c: char)
      requires |s| >= 2 && Newlines(s) == 0 && s[0] != ' ' && SingleSpaced(s)
      requires (back.Blank? && ' ' !in s && Known(back)) || back == Digits || back == FileName
      requires s[|s| - 1] == ' ' ==> back == Digits || back == FileName
      requires back == Digits ==> IsDigit(CharAt(rest, 0))
      requires back == FileName ==> CharAt(rest, 0) == '"'
      modifies `state, `oldState, `outString
      ensures Valid() && c == s[0] && outString == s[1..] && state == Emitting && oldState == back
    {
      oldState, state, outString := back, Emitting, s[1..];
      c := s[0];
    }

    method Emit() returns (c: char)
      requires Valid() && state == Emitting
      modifies `state, `oldState, `outString
      ensures Valid() && c == old(outString)[0] && outString == old(outString)[1..]
      ensures state == if outString == "" then old(oldState) else Emitting
      ensures c != '\n' && (old(AfterSpace()) ==> c != ' ') && (c == ' ' ==> AfterSpace())
      ensures old(Unmarked()) ==> Unmarked() && c != ' ' && Shown(Outlook(), Ch(c), false) == old(Outlook())
      ensures old(Stringless()) ==> Stringless()
      ensures old(oldState) != Blank(10) ==> state != Blank(10) && oldState != Blank(10)
    {
      hide Count, Newlines;
      NewlinesFrom(outString);
      c := outString[0];
      outString := outString[1..];
      if outString == "" {
        state := oldState;
        oldState := Blank(3);
      }
      Prepended(c, outString, old(outString), Forecast(rest, CurrentMode(), addNewlines).text);
    }

    /** After a .line. */
    method AfterLine() returns (ch: Ch)
      requires Valid() && state == Digits
      modifies `rest, `state, `oldState, `outString
      ensures Valid() && Newlines(rest) + NewlineIn(ch) == Newlines(old(rest))
      ensures ch != Ch(' ') && TailOf(rest, old(rest)) && ('"' !in old(rest) ==> Stringless())
      ensures IsDigit(CharAt(old(rest), 0)) ==>
        ch == Ch(old(rest)[0]) && rest == old(rest)[1..] && state == Digits
      ensures old(rest) != "" && !IsDigit(old(rest)[0]) ==> MarkerNamed(old(rest), ch)
    {
      hide Before, Valid, NoMarkers, QuotedNewline, StartsNumber, Newlines, Count, DropWhite, FromNewline, TailOf,
           SingleSpaced, Terminated, Known;
      ghost var text := rest;
      TailOne(text);
      MarkerRead(text);
      ValidIsKnown();
      ch := Getc();
      DigitsAreValid();
      if ch != Eof && !IsDigit(ch.c) {
        ch := MarkerName(ch);
        BeforeNewlines(ch, rest);
        if state == START {
          BeforeTail(ch, rest, text);
        }
      }
    }

    lemma DigitsAreValid()
      requires state == Digits && Known(oldState)
      ensures Valid()
    {
    }

    /** A line marker goes on with the name of its file, or is flushed up to its
        newline. */
    ghost predicate MarkerNamed(text: string, ch: Ch)
      reads this
    {
      var t := DropWhite(text);
      if CharAt(t, 0) == '"' then
        state == Emitting && oldState == FileName && rest == t && ch == Ch(';') && outString == " .file "
      else
        state == START && Before(ch, rest) == FromNewline(t)
    }

    /** After the number of a line marker: its file, if it names one, or its end
        of line. */
    method MarkerName(first: Ch) returns (ch: Ch)
      requires Valid() && state == Digits && first != Eof
      modifies `rest, `state, `oldState, `outString
      ensures Valid() && ch != Ch(' ')
      ensures MarkerNamed(old(Before(first, rest)), ch)
    {
      hide NoMarkers, QuotedNewline, StartsNumber, Newlines, Count, DropWhite, FromNewline, TailOf,
           SingleSpaced, Terminated;
      ch := first;
      WhiteAfter(first, rest);
      if IsWhitespace(ch.c) {
        ch := FlushWhite();
      }
      if ch == Ch('"') {
        Ungetc(ch);
        TextsPlain();
        var c := StartEmitting(FILE_TEXT, FileName);
        return Ch(c);
      }
      ch := FlushToNewline(ch);
      state := START;
    }

    method StringChar() returns (ch: Ch)
      requires Valid() && state == InString
      modifies `rest, `state, `cutStrings
      ensures Valid() && Balance() + NewlineIn(ch) == old(Balance()) && ch != Eof
      ensures cutStrings == old(cutStrings) + if old(rest) == "" then 1 else 0
      ensures old(rest) == "" ==> rest == "\n" && state == old(oldState)
      ensures old(rest) != "" ==>
        && ch == Ch(old(rest)[0]) && rest == old(rest)[1..]
        && state == if ch.c == '"' then oldState else if ch.c == '\\' then Escape else InString
      ensures old(Unmarked()) ==> Unmarked() && Shown(Outlook(), ch, true) == old(Outlook())
    {
      hide Newlines, Count, SingleSpaced, DropWhite, FromNewline, AfterSlash, TailOf, LeftOf, Terminated,
           StartsNumber, NoMarkers, QuotedLast, Breaks;
      if rest != "" {
        CountQuoted(rest, addNewlines);
      }
      CountEnd(addNewlines);
      ch := Getc();
      if ch == Ch('"') {
        state := oldState;
      } else if ch == Ch('\\') {
        state := Escape;
      } else if ch == Eof {
        state := oldState;
        Ungetc(Ch('\n'));
        cutStrings := cutStrings + 1;
        return Ch('"');
      }
    }

    /** A newline after a backslash is spelled out, and owed. */
    method EscapedChar() returns (ch: Ch)
      requires Valid() && state == Escape
      modifies `rest, `state, `addNewlines
      ensures Valid() && Balance() + NewlineIn(ch) == old(Balance()) && state == InString && ch != Eof
      ensures if old(rest) == "" then rest == ""
        else if old(rest)[0] == '\n' then ch == Ch('\\') && rest == "n" + old(rest)[1..]
        else ch == Ch(old(rest)[0]) && rest == old(rest)[1..]
      ensures old(Unmarked()) ==> Unmarked() && Shown(Outlook(), ch, true) == old(Outlook())
    {
      hide Newlines, Count, SingleSpaced, DropWhite, FromNewline, AfterSlash, TailOf, LeftOf, Terminated,
           StartsNumber, NoMarkers, QuotedLast, Breaks;
      if rest != "" {
        CountQuoted(rest, addNewlines);
        assert ("n" + rest[1..])[1..] == rest[1..];
        CountQuoted("n" + rest[1..], addNewlines + 1);
      }
      CountEnd(addNewlines);
      state := InString;
      ch := Getc();
      if ch == Ch('\n') {
        Ungetc(Ch('n'));
        addNewlines := addNewlines + 1;
        return Ch('\\');
      }
      if ch == Eof {
        return Ch('"');
      }
    }

    method FileQuote() returns (ch: Ch)
      requires Valid() && state == FileName
      modifies `rest, `state, `oldState
      ensures Valid() && Balance() + NewlineIn(ch) == old(Balance()) && TailOf(rest, old(rest))
      ensures old(AfterSpace()) ==> ch != Ch(' ')
      ensures old(rest) != "" ==> ch == Ch(old(rest)[0]) && rest == old(rest)[1..]
      ensures state == InString && oldState == FlushLine
    {
      hide Newlines, Count, SingleSpaced, DropWhite, FromNewline, AfterBlock, TailOf, LeftOf, Terminated;
      TailOne(rest);
      ch := Getc();
      state, oldState := InString, FlushLine;
    }

    /** The rest of a line marker; without a newline the loop would not end. */
    method FlushMarker() returns (r: Result)
      requires Valid() && state == FlushLine
      modifies `rest, `state
      ensures Valid() && (r == Hangs <==> '\n' !in old(rest)) && TailOf(rest, old(rest))
      ensures r != Hangs ==> state == START && FromNewline(old(rest)) == "\n" + rest
      ensures if r == Hangs then Balance() == old(Balance()) else r == Next(Ch('\n')) && Balance() + 1 == old(Balance())
    {
      hide Newlines, Before, FromNewline, TailOf, Valid, Known, SingleSpaced;
      ghost var text := rest;
      TailSelf(text);
      ValidIsKnown();
      if '\n' !in rest {
        MarkerIsValid();
        return Hangs;
      }
      var ch := Getc();
      NewlineNext(text);
      while ch != Ch('\n')
        invariant TailOf(rest, text) && Newlines(rest) + NewlineIn(ch) == Newlines(text)
        invariant if ch == Ch('\n') then FromNewline(text) == "\n" + rest
                  else '\n' in rest && FromNewline(rest) == FromNewline(text)
        decreases |rest| + if ch == Ch('\n') then 0 else 1
      {
        NewlineNext(rest);
        TailTrans(rest[1..], rest, text);
        ch := Getc();
      }
      state := START;
      BlankIsValid();
      return Next(ch);
    }

    lemma MarkerIsValid()
      requires state == FlushLine && Known(oldState)
      ensures Valid()
    {
    }

    /** White space outside strings: whether a space is returned for it. */
    method BlankSeen() returns (done: bool, ch: Ch)
      requires Valid() && state.Blank?
      modifies `rest, `state, `substate
      ensures Valid() && state.Blank? && rest == DropWhite(old(rest))
      ensures done ==> (ch == Ch(' ') && AfterSpace()) || (ch == Eof && rest == "")
      ensures !done ==>
        && rest != ""
        && if rest[0] in "#/\n:;" then state == old(state)
           else
             && old(state) != Blank(0) && old(state) != Blank(2)
             && state == if old(state) == Blank(9) then Blank(10) else old(state)
    {
      ch := FlushWhite();
      if ch == Eof {
        return true, ch;
      }
      Ungetc(ch);
      if IsComment(ch.c) || ch == Ch('/') || IsLineSeparator(ch.c) {
        return false, ch;
      }
      if state == Blank(2) && substate == 0 {
        substate := 1;
        return true, Ch(' ');
      }
      if state == Blank(2) {
        substate := 0;
      }
      if state == Blank(0) || state == Blank(2) {
        state := Blank(state.n + 1);
        return true, Ch(' ');
      }
      if state == Blank(9) {
        state := Blank(10);
      }
      return false, ch;
    }

    /** A comment is skipped; any other slash is a character. */
    method SlashSeen() returns (done: bool)
      requires Valid() && state.Blank?
      modifies `rest, `addNewlines
      ensures |rest| <= |old(rest)|
      ensures Valid() && Newlines(rest) + addNewlines == Newlines(old(rest)) + old(addNewlines)
      ensures done <==> CharAt(old(rest), 0) !in "*/"
      ensures rest == if CharAt(old(rest), 0) == '*' then " " + AfterSlash(old(rest)) else AfterSlash(old(rest))
    {
      hide Before, Valid, Newlines, Count, SingleSpaced, DropWhite, FromNewline, AfterBlock, AfterSlash, TailOf, LeftOf,
           Terminated, Known;
      AfterSlashIs(rest);
      ValidIsKnown();
      var ch := Getc();
      if ch == Ch('*') {
        SkipBlockComment();
        BlankBefore(rest);
        Ungetc(Ch(' '));
        BlankIsValid();
        return false;
      }
      if ch == Ch('/') {
        SkippedToNewline(rest);
        ch := Getc();
        ch := FlushToNewline(ch);
        Ungetc(ch);
        BlankIsValid();
        return false;
      }
      Ungetc(ch);
      BlankIsValid();
      return true;
    }

    /** What a quote of the code leaves: text was to be read, and ends whole. */
    method QuoteSeen(ghost text: string, ghost whole: string) returns (c: char)
      requires Valid() && state.Blank? && text != "" && text[0] == '\'' && rest == text[1..] && TailOf(text, whole)
      modifies `rest, `state, `oldState, `outString, `swallowed
      ensures Valid() && Balance() == old(Balance())
      ensures state == Emitting && oldState == old(state)
      ensures [c] + outString == CharText(if |text| > 1 then text[1] as int % 256 else 0) && c == '('
      ensures Terminated(whole) ==> Terminated(rest)
      ensures TailOf(rest, whole) && Stringless() && Unmarked()
      ensures swallowed == old(swallowed) + if QuotedLast(whole, rest) then 1 else 0
      ensures Shown(Outlook(), Ch(c), false) == old(Forecast(text, Code, addNewlines))
    {
      hide NoMarkers, QuotedNewline, StartsNumber, CharText, Newlines, Count, DropWhite, FromNewline, AfterSlash,
           TailOf, LeftOf, Terminated, QuotedLast, SingleSpaced;
      assert |text| > 1 ==> text[2..] == rest[1..];
      QuotedExactly(text, whole, if rest == "" then "" else rest[1..]);
      CountConstant(text, addNewlines);
      var ch := Getc();
      var code := if ch == Eof then 0 else ch.c as int % 256;
      swallowed := swallowed + NewlineIn(ch);
      CharTextPlain(code);
      c := StartEmitting(CharText(code), state);
      Prepended(c, outString, CharText(code), Forecast(rest, Code, addNewlines).text);
    }

    /** A comment that starts a line: a line marker if a number follows. */
    method LineCommentSeen() returns (c: char)
      requires Valid() && state == START
      modifies `rest, `state, `oldState, `outString, `cutComments
      ensures Valid() && Balance() + NewlineIn(Ch(c)) == old(Balance()) && c != ' ' && c != '('
      ensures if StartsNumber(old(rest)) then
          && state == Emitting && oldState == Digits && rest == DropWhite(old(rest))
          && c == '.' && outString == "line " && cutComments == old(cutComments)
        else
          state == START && oldState == old(oldState) && c == '\n' && CommentSkipped(old(rest), old(cutComments))
    {
      hide Valid, Known, Newlines, Count, SingleSpaced, DropWhite, FromNewline, AfterBlock, TailOf, LeftOf, Terminated;
      var text := rest;
      ValidIsKnown();
      WhiteSkipped(text);
      SkippedToNewline(text);
      NewlineAfterWhite(text);
      var ch := FlushWhite();
      if ch == Eof {
        cutComments := cutComments + 1;
        BlankIsValid();
        return '\n';
      }
      if IsDigit(ch.c) {
        BeforeNewlines(ch, rest);
        Ungetc(ch);
        TextsPlain();
        c := StartEmitting(LINE_TEXT, Digits);
        return;
      }
      FromNewlineStep(ch.c, rest);
      if ch != Ch('\n') {
        ch := Getc();
        ch := FlushToNewline(ch);
      }
      BeforeNewlines(ch, rest);
      cutComments := cutComments + if ch == Eof then 1 else 0;
      BlankIsValid();
      return '\n';
    }

    /** A comment was read up to its newline, or is cut off. */
    ghost predicate CommentSkipped(text: string, cutComments0: nat)
      reads this
    {
      var t := FromNewline(text);
      if t == "" then rest == "" && cutComments == cutComments0 + 1 else rest == t[1..] && cutComments == cutComments0
    }

    /** A comment after something on the line. */
    method CommentSeen()
      requires Valid() && state.Blank?
      modifies `rest, `state, `cutComments
      ensures state == START && CommentSkipped(old(rest), old(cutComments))
      ensures Valid() && Balance() + 1 == old(Balance())
    {
      hide Newlines, DropWhite, FromNewline;
      SkippedToNewline(rest);
      var ch := Getc();
      ch := FlushToNewline(ch);
      BeforeNewlines(ch, rest);
      cutComments := cutComments + if ch == Eof then 1 else 0;
      state := START;
    }

    /** A character that is none of the special ones, or starts a comment. */
    method DealMisc(c: char) returns (ch: Ch)
      requires Valid() && state.Blank? && c !in "\n \t\"'/"
      modifies `rest, `state, `oldState, `outString, `cutComments
      ensures Valid() && Balance() + NewlineIn(ch) == old(Balance()) + NewlineIn(Ch(c))
      ensures !IsComment(c) ==>
        && state.Blank? && state != Blank(10) && cutComments == old(cutComments)
        && (ch == Ch(' ') <==> old(state) == Blank(10) && IsSymbolComponent(c))
        && (if ch == Ch(' ') then rest == Before(Ch(c), old(rest)) else ch == Ch(c) && rest == old(rest))
        && (IsSymbolComponent(c) && ch == Ch(c) ==> AfterSymbol(state))
      ensures IsComment(c) ==>
        if old(state) == START && StartsNumber(old(rest)) then
          && state == Emitting && oldState == Digits && rest == DropWhite(old(rest))
          && ch == Ch('.') && outString == "line " && cutComments == old(cutComments)
        else
          state == START && ch == Ch('\n') && CommentSkipped(old(rest), old(cutComments))
      ensures ch == Ch(' ') ==> AfterSpace() && old(state) == Blank(10)
      ensures oldState == old(oldState) || oldState == Digits
    {
      hide Newlines, Count, SingleSpaced, DropWhite, FromNewline, AfterBlock, TailOf, LeftOf, Terminated;
      if IsSymbolComponent(c) {
        if state == Blank(10) {
          Ungetc(Ch(c));
          state := Blank(3);
          return Ch(' ');
        }
        if state == Blank(3) {
          state := Blank(9);
        }
      } else if state == Blank(9) || state == Blank(10) {
        state := Blank(3);
      }
      if state == START && IsComment(c) {
        var first := LineCommentSeen();
        ch := Ch(first);
      } else if IsComment(c) {
        CommentSeen();
        ch := Ch('\n');
      } else {
        if state == Blank(0) || state == Blank(1) {
          state := Blank(2);
        }
        ch := Ch(c);
      }
    }

    /** Outside strings and texts of the scrubber's own. A character that is
        returned is the one read last, but for a space, a newline of a comment
        and the start of an emitted text; and a symbol character after another
        was next to it. */
    method NormalChar() returns (ch: Ch)
      requires Valid() && state.Blank?
      modifies this
      ensures Valid() && Balance() + NewlineIn(ch) == old(Balance())
      ensures ch == Ch(' ') ==> AfterSpace()
      ensures old(AfterSpace()) ==> ch != Ch(' ')
      ensures ch == Eof ==> rest == "" && state.Blank?
      ensures cutComments == old(cutComments) || (cutComments == old(cutComments) + 1 && rest == "")
      ensures Terminated(old(rest)) ==> Terminated(rest) && cutComments == old(cutComments)
      ensures cutStrings == old(cutStrings)
      ensures swallowed == old(swallowed) + if ch == Ch('(') && QuotedLast(old(rest), rest) then 1 else 0
      ensures TailOf(rest, old(rest)) && ('"' !in old(rest) ==> Stringless())
      ensures NoMarkers(old(rest)) ==> Unmarked() && Shown(Outlook(), ch, false) == old(Outlook())
      ensures ch.Ch? && ch.c !in " \n" && state != Emitting ==> TailOf([ch.c] + rest, old(rest))
      ensures ch.Ch? && IsSymbolComponent(ch.c) && state.Blank? ==>
        && AfterSymbol(state)
        && (AfterSymbol(old(state)) ==>
              old(rest) != "" && ch == Ch(old(rest)[0]) && rest == old(rest)[1..])
      ensures old(Blankless()) ==> ch != Ch(' ') && state != Blank(10) && oldState != Blank(10)
      ensures ch == Ch('\n') ==> state == START
      ensures old(state) == START && CharAt(old(rest), 0) == '#' && StartsNumber(old(rest)[1..]) ==>
        MarkerBegun(old(rest)[1..], ch)
    {
      hide Valid, Unmarked, Stringless, Newlines, Count, QuotedLast, NoMarkers, TailOf, IsSymbolComponent, CharText,
           Returned, AfterSpace, Blankless, Shown, Known, Forecast, Outlook, StartsNumber, MarkerBegun;
      ghost var whole := rest;
      NothingSkipped();
      NotSymbols();
      var done;
      ghost var text;
      done, ch, text := SkipBlanks();
      if !done {
        ghost var before, oldBefore := state, oldState;
        var c := ch.c;
        TailKeeps(text, whole);
        ch := OtherChar(c, text, whole);
        ReturnedIs(c, text, whole, ch, before, oldBefore);
      }
    }

    /** Comments and white space that nothing is returned for, and one more
        character of a text that is left; or the first thing that is
        returned for them. */
    method SkipBlanks() returns (done: bool, ch: Ch, ghost text: string)
      requires Valid() && state.Blank?
      modifies `rest, `state, `substate, `addNewlines
      ensures Valid() && state.Blank? && Stringless() && TailOf(rest, old(rest))
      ensures Terminated(old(rest)) ==> Terminated(rest)
      ensures done ==>
        && Unmarked() && Balance() + NewlineIn(ch) == old(Balance()) && Shown(Outlook(), ch, false) == old(Outlook())
        && ((ch == Ch(' ') && AfterSpace() && CharAt(old(rest), 0) in " \t/") || (ch == Eof && rest == "")
            || (ch == Ch('/') && TailOf("/" + rest, old(rest))))
        && (CharAt(old(rest), 0) !in " \t/" ==> ch == Eof && old(rest) == "" && state == old(state))
      ensures !done ==>
        && ch.Ch? && ch.c !in " \t/" && text != "" && ch.c == text[0] && rest == text[1..] && TailOf(text, old(rest))
        && Balance() + NewlineIn(ch) == old(Balance()) && Forecast(text, Code, addNewlines) == old(Outlook())
        && (CharAt(old(rest), 0) !in " \t/" ==> text == old(rest) && state == old(state))
        && (AfterSymbol(old(state)) ==>
              (AfterSymbol(state) || state == Blank(10)) && (text == old(rest) || !Joins(text, state)))
    {
      hide Valid, Unmarked, Stringless, Newlines, Count, NoMarkers, TailOf, IsSymbolComponent, AfterSpace, Shown, Known;
      ghost var whole := rest;
      TailSelf(whole);
      while true
        invariant Valid() && state.Blank? && Balance() == old(Balance())
        invariant Reached(rest, whole) && Outlook() == old(Outlook())
        invariant (rest == whole && state == old(state)) || CharAt(whole, 0) in " \t/"
        invariant AfterSymbol(old(state)) ==>
          (AfterSymbol(state) || state == Blank(10)) && (rest == whole || !Joins(rest, state))
        decreases |rest|
      {
        text := rest;
        ValidIsKnown();
        BlankIsValid();
        ch := Getc();
        BlankIsValid();
        if ch == Eof {
          EndShown(Outlook());
          TailKeeps(rest, whole);
          return true, ch, text;
        }
        if ch.c !in " \t/" {
          CharAtRead(text, whole);
          return false, ch, text;
        }
        done, ch := SkipBlank(ch.c, text, whole);
        if done {
          return;
        }
      }
    }

    lemma NothingSkipped()
      requires state.Blank?
      ensures AfterSpace() || Blankless() ==> CharAt(rest, 0) !in " \t/" && (rest == "" || state != Blank(10))
      ensures Blankless() ==> state != Blank(10) && oldState != Blank(10)
    {
    }

    lemma ReturnedIs(c: char, text: string, whole: string, ch: Ch, state0: State, oldState0: State)
      requires text != "" && c == text[0] && TailOf(text, whole) && ch.Ch?
      requires Returned(c, text, ch, state0, oldState0)
      ensures ch.c !in " \n" && state != Emitting ==> TailOf([ch.c] + rest, whole)
      ensures IsSymbolComponent(ch.c) && state.Blank? ==>
        && AfterSymbol(state) && IsSymbolComponent(c) && state0 != Blank(10)
        && ch == Ch(c) && rest == text[1..]
      ensures state0 != Blank(10) && oldState0 != Blank(10) ==> state != Blank(10) && oldState != Blank(10)
      ensures ch == Ch('\n') ==> state == START
      ensures state0 == START && c == '#' && StartsNumber(text[1..]) ==> MarkerBegun(text[1..], ch)
    {
      hide TailOf, IsSymbolComponent, CharText, StartsNumber, DropWhite;
      NotSymbols();
      assert text == [c] + text[1..];
    }

    /** White space, or a slash: whether something is returned for it, a space,
        the end or the slash. */
    method SkipBlank(c: char, ghost text: string, ghost whole: string) returns (done: bool, ch: Ch)
      requires Valid() && state.Blank? && c in " \t/"
      requires text != "" && c == text[0] && rest == text[1..] && Reached(text, whole)
      modifies `rest, `state, `substate, `addNewlines
      ensures Valid() && state.Blank? && |rest| < |text| && Unmarked() && Stringless()
      ensures Balance() + (if done then NewlineIn(ch) else 0) == old(Balance())
      ensures done ==>
        && TailOf(rest, whole) && (Terminated(whole) ==> Terminated(rest))
        && ((ch == Ch(' ') && AfterSpace()) || (ch == Eof && rest == "")
            || (ch == Ch('/') && TailOf("/" + rest, whole)))
        && Shown(Outlook(), ch, false) == old(Forecast(text, Code, addNewlines))
      ensures !done ==> Reached(rest, whole) && Outlook() == old(Forecast(text, Code, addNewlines))
      ensures !done && (AfterSymbol(old(state)) || old(state) == Blank(10)) ==>
        (AfterSymbol(state) || state == Blank(10)) && !Joins(rest, state)
    {
      hide Newlines, Count, NoMarkers, AfterSlash, StartsNumber, DropWhite, TailOf, IsSymbolComponent, SingleSpaced;
      NotSymbols();
      if c == '/' {
        SlashRead(text, whole, addNewlines);
        SlashLeaves(text[1..]);
        ch := Ch('/');
        done := SlashSeen();
        assert done ==> text == "/" + rest;
      } else {
        WhiteRead(text, whole, addNewlines);
        NewlinesFrom(text);
        done, ch := BlankSeen();
      }
      if done {
        TailKeeps(rest, whole);
        NothingPlus(Forecast(rest, Code, addNewlines));
      }
    }

    /** A character c that starts no white space and no comment with a slash,
        and that was read last of a text. */
    method OtherChar(c: char, ghost text: string, ghost whole: string) returns (ch: Ch)
      requires Valid() && state.Blank? && c !in " \t/"
      requires text != "" && c == text[0] && rest == text[1..] && TailOf(text, whole)
      modifies this
      ensures Valid() && Balance() + NewlineIn(ch) == old(Balance()) + NewlineIn(Ch(c))
      ensures ch != Eof && (ch == Ch(' ') ==> AfterSpace() && old(state) == Blank(10))
      ensures cutComments == old(cutComments) || (cutComments == old(cutComments) + 1 && rest == "")
      ensures Terminated(whole) ==> Terminated(rest) && cutComments == old(cutComments)
      ensures cutStrings == old(cutStrings)
      ensures swallowed == old(swallowed) + if ch == Ch('(') && QuotedLast(whole, rest) then 1 else 0
      ensures TailOf(rest, whole) && (c != '"' ==> Stringless())
      ensures NoMarkers(whole) ==>
        Unmarked() && Shown(Outlook(), ch, false) == old(Forecast(text, Code, addNewlines))
      ensures Returned(c, text, ch, old(state), old(oldState))
    {
      hide Newlines, Count, QuotedLast, NoMarkers, AfterSlash, StartsNumber, FromNewline, DropWhite, TailOf, CharText,
           Breaks, IsSymbolComponent;
      NotSymbols();
      CharAtRead(text, whole);
      NothingPlus(Forecast(rest, Quoted, addNewlines));
      NothingPlus(Forecast(rest, Code, addNewlines));
      if c == '"' {
        CountNewline(text, addNewlines);
        oldState, state := state, InString;
        return Ch(c);
      }
      if c == '\'' {
        var first := QuoteSeen(text, whole);
        return Ch(first);
      }
      if c == ':' {
        CountPlain(text, addNewlines);
        if state != Blank(3) {
          state := START;
        }
        return Ch(c);
      }
      if c == '\n' {
        NewlineSeen(text);
        return Ch(c);
      }
      if c == ';' {
        CountPlain(text, addNewlines);
        state := START;
        return Ch(c);
      }
      ch := MiscChar(c, text, whole);
    }

    /** A newline that is owed comes before the one that was read. */
    method NewlineSeen(ghost text: string)
      requires Valid() && state.Blank? && text != "" && text[0] == '\n' && rest == text[1..]
      modifies `rest, `state, `addNewlines
      ensures Valid() && Balance() == old(Balance()) && state == START
      ensures rest == if old(addNewlines) > 0 then text else text[1..]
      ensures Shown(Outlook(), Ch('\n'), false) == old(Forecast(text, Code, addNewlines))
    {
      hide Valid, Known, Before, Newlines, Count, Breaks, SingleSpaced;
      ValidIsKnown();
      BeforeSelf(text);
      CountNewline(text, addNewlines);
      ghost var owed, left := addNewlines, Count(text[1..], Code, 0).text;
      BreaksStep(owed);
      NoBreaks();
      if addNewlines > 0 {
        CountNewline(text, addNewlines - 1);
        addNewlines := addNewlines - 1;
        Ungetc(Ch('\n'));
      }
      state := START;
      BlankIsValid();
      Associates("\n", Breaks(owed), left);
      NoneInFront(left);
    }

    /** What is returned for a character of the code: itself; a space before it
        when it is put back; a constant for a quote; and for a comment its
        newline or the start of a line marker. */
    ghost predicate Returned(c: char, text: string, ch: Ch, state0: State, oldState0: State)
      requires text != ""
      reads this
    {
      && (c !in "'#" ==>
            || (ch == Ch(c) && (rest == text[1..] || (c == '\n' && rest == text)))
            || (ch == Ch(' ') && rest == text && IsSymbolComponent(c)))
      && (c == '\'' ==>
            && state == Emitting && ch == Ch('(')
            && [ch.c] + outString == CharText(if |text| > 1 then text[1] as int % 256 else 0))
      && (IsComment(c) ==>
            if state0 == START && StartsNumber(text[1..]) then MarkerBegun(text[1..], ch)
            else state == START && ch == Ch('\n'))
      && (c == '\n' || c == ';' ==> state == START)
      && (c == ':' ==> state == if state0 == Blank(3) then state0 else START)
      && (state0 == Blank(10) && IsSymbolComponent(c) ==> ch == Ch(' '))
      && (IsSymbolComponent(c) && ch == Ch(c) ==> AfterSymbol(state))
      && (state0 != Blank(10) && oldState0 != Blank(10) ==> state != Blank(10) && oldState != Blank(10))
    }

    /** A line marker has been met: its directive is returned, up to the
        number. */
    ghost predicate MarkerBegun(marker: string, ch: Ch)
      reads this
    {
      && state == Emitting && oldState == Digits && ch == Ch('.') && outString == "line "
      && rest == DropWhite(marker)
    }

    /** A character that is none of the special ones, or starts a comment, of a
        text. */
    method MiscChar(c: char, ghost text: string, ghost whole: string) returns (ch: Ch)
      requires Valid() && state.Blank? && c !in "\n \t\"'/:;"
      requires text != "" && c == text[0] && rest == text[1..] && TailOf(text, whole)
      modifies this
      ensures Valid() && Balance() + NewlineIn(ch) == old(Balance()) + NewlineIn(Ch(c))
      ensures ch != Eof && (ch == Ch(' ') ==> AfterSpace() && old(state) == Blank(10))
      ensures cutComments == old(cutComments) || (cutComments == old(cutComments) + 1 && rest == "")
      ensures Terminated(whole) ==> Terminated(rest) && cutComments == old(cutComments)
      ensures cutStrings == old(cutStrings)
      ensures swallowed == old(swallowed) + if ch == Ch('(') && QuotedLast(whole, rest) then 1 else 0
      ensures TailOf(rest, whole) && Stringless()
      ensures NoMarkers(whole) ==>
        Unmarked() && Shown(Outlook(), ch, false) == old(Forecast(text, Code, addNewlines))
      ensures Returned(c, text, ch, old(state), old(oldState))
    {
      hide Newlines, Count, QuotedLast, NoMarkers, AfterSlash, StartsNumber, FromNewline, DropWhite, TailOf;
      CharAtRead(text, whole);
      BeforeSelf(text);
      if IsComment(c) {
        CommentRead(text, whole);
        CountComment(text, addNewlines);
        CountEnd(addNewlines);
      } else {
        CountPlain(text, addNewlines);
      }
      if c == '(' {
        QuotedExactly(text, whole, rest);
      }
      ch := DealMisc(c);
      NothingPlus(Forecast(rest, Code, addNewlines));
    }

    /** The next character of the cleaned text. Newlines are conserved but for
        those named in the counters; no two spaces come one after the other,
        but in strings; strings are copied as they are, but for newlines after
        a backslash. */
    method NextChar() returns (r: Result)
      requires Valid()
      modifies this
      ensures Valid() && (r == Hangs <==> old(state) == FlushLine && '\n' !in old(rest))
      ensures Balance() + (if r == Hangs then 0 else NewlineIn(r.ch)) == old(Balance())
      ensures cutStrings == old(cutStrings) + if old(state) == InString && old(rest) == "" then 1 else 0
      ensures cutComments == old(cutComments) || (cutComments == old(cutComments) + 1 && rest == "")
      ensures old(EndsLine()) ==> EndsLine() && cutComments == old(cutComments)
      ensures swallowed == old(swallowed) +
        if old(state).Blank? && r == Next(Ch('(')) && QuotedLast(old(rest), rest) then 1 else 0
      ensures !QuotedNewline(old(rest)) ==> !QuotedNewline(rest) && swallowed == old(swallowed)
      ensures '"' !in old(rest) && old(Stringless()) ==>
        '"' !in rest && Stringless() && cutStrings == old(cutStrings)
      ensures NoMarkers(old(rest)) && old(Unmarked()) ==>
        && NoMarkers(rest) && Unmarked() && r.Next?
        && Shown(Outlook(), r.ch, InQuotes(old(state))) == old(Outlook())
        && (r.ch == Eof ==> rest == "" && CurrentMode() == Code && state != Emitting)
      ensures old(state).Blank? && r == Next(Ch('\n')) ==> state == START
      ensures old(state) == START && CharAt(old(rest), 0) == '#' && StartsNumber(old(rest)[1..]) ==>
        r.Next? && MarkerBegun(old(rest)[1..], r.ch)
      ensures old(state) == Digits && old(rest) != "" ==>
        && r.Next?
        && if IsDigit(old(rest)[0]) then r.ch == Ch(old(rest)[0]) && rest == old(rest)[1..] && state == Digits
           else MarkerNamed(old(rest), r.ch)
      ensures old(state) == FileName ==>
        && (old(rest) != "" ==> r == Next(Ch(old(rest)[0])) && rest == old(rest)[1..])
        && state == InString && oldState == FlushLine
      ensures old(state) == FlushLine && r != Hangs ==>
        r == Next(Ch('\n')) && state == START && FromNewline(old(rest)) == "\n" + rest
      ensures old(state) == Emitting ==>
        && r == Next(Ch(old(outString)[0])) && outString == old(outString)[1..] && rest == old(rest)
        && state == if outString == "" then old(oldState) else Emitting
      ensures old(state).Blank? && r.Next? && r.ch.Ch? && r.ch.c !in " \n" && state != Emitting ==>
        TailOf([r.ch.c] + rest, old(rest))
      ensures old(state).Blank? && r.Next? && r.ch.Ch? && IsSymbolComponent(r.ch.c) && state.Blank? ==>
        && AfterSymbol(state)
        && (AfterSymbol(old(state)) ==>
              old(rest) != "" && r == Next(Ch(old(rest)[0])) && rest == old(rest)[1..])
      ensures old(Blankless()) && old(Unmarked()) && NoMarkers(old(rest)) ==>
        Blankless() && (r == Next(Ch(' ')) ==> InQuotes(old(state)))
      ensures r == Next(Ch(' ')) ==> AfterSpace() || InQuotes(old(state))
      ensures old(AfterSpace()) ==> r != Next(Ch(' '))
      ensures old(rest) != "" && (old(state) == InString || (old(state) == Escape && old(rest)[0] != '\n'))
              ==> r == Next(Ch(old(rest)[0])) && rest == old(rest)[1..]
    {
      hide Newlines, Count, QuotedNewline, NoMarkers, IsSymbolComponent, SingleSpaced, TailOf, LeftOf, QuotedLast,
           MarkerBegun, MarkerNamed, StartsNumber, FromNewline, Shown, Outlook, Forecast;
      NotSymbols();
      ghost var text := rest;
      CharsLeft(text);
      var ch;
      match state {
        case Emitting =>
          var c := Emit();
          ch := Ch(c);
        case Digits =>
          ch := AfterLine();
          TailIsLeft(rest, text);
        case InString => ch := StringChar();
        case Escape => ch := EscapedChar();
        case FileName =>
          ch := FileQuote();
          TailIsLeft(rest, text);
        case FlushLine =>
          r := FlushMarker();
          TailIsLeft(rest, text);
          LeftKeeps(rest, text);
          return;
        case Blank(_) =>
          ch := NormalChar();
          TailIsLeft(rest, text);
      }
      LeftKeeps(rest, text);
      LastQuoted(rest, text);
      return Next(ch);
    }

    /** Any number of calls. The newlines returned and the newlines owed are
        those consumed, but for the ones inserted for a string or a comment
        that the end of the file cuts off, and for those swallowed as character
        constants. None is swallowed when no quote has a newline after it; a
        string is cut off just when one of the items says so, and never when
        the text has none; no comment is cut off when the input ends with a
        newline. In a text without line markers a run to the end returns the
        newlines that are counted from the text alone. No space follows a
        space, but in strings. */
    method Run(calls: nat) returns (items: seq<Item>, hangs: bool)
      requires Valid()
      modifies this
      ensures Valid() && |items| <= calls && (!hangs ==> |items| == calls)
      ensures NewlinesOf(items) + addNewlines + Newlines(rest) + swallowed - old(swallowed)
           == old(addNewlines) + Newlines(old(rest)) + cutStrings - old(cutStrings) + cutComments - old(cutComments)
      ensures old(EndsLine()) ==> cutComments == old(cutComments)
      ensures !QuotedNewline(old(rest)) ==> swallowed == old(swallowed)
      ensures '"' !in old(rest) && old(Stringless()) ==> cutStrings == old(cutStrings)
      ensures cutStrings == old(cutStrings) <==> NoneCut(items)
      ensures
        && old(EndsLine()) && !QuotedNewline(old(rest))
        && (NoneCut(items) || ('"' !in old(rest) && old(Stringless())))
        ==> NewlinesOf(items) + addNewlines + Newlines(rest) == old(addNewlines) + Newlines(old(rest))
      ensures NoMarkers(old(rest)) && old(Unmarked()) && items != [] && items[|items| - 1].ch == Eof ==>
        var t := old(Outlook());
        && Solid(items) == t.text && NewlinesOf(items) == t.returned && addNewlines == t.owed
        && swallowed == t.swallowed && cutStrings == t.cutStrings && cutComments == t.cutComments
      ensures NoMarkers(old(rest)) && old(Unmarked()) && old(Blankless()) ==>
        forall i :: 0 <= i < |items| && items[i].ch == Ch(' ') ==> items[i].quoted
      ensures forall i :: 0 <= i < |items| - 1 ==>
        !(items[i].ch == Ch(' ') && !items[i].quoted && items[i + 1].ch == Ch(' '))
    {
      hide Newlines, NewlinesOf, Solid, Valid, AfterSpace, EndsLine, QuotedNewline, NoMarkers, Unmarked, Stringless,
           NoneCut, Blankless, Count, Outlook, Forecast, Shown, MarkerBegun, MarkerNamed, StartsNumber, FromNewline,
           TailOf, QuotedLast, IsSymbolComponent, CurrentMode, InQuotes;
      items, hangs := [], false;
      NoItems();
      NothingPlus(Outlook());
      assert NoneCut(items) by { NothingCut(); }
      while |items| < calls
        invariant Valid() && |items| <= calls
        invariant NewlinesOf(items) + Balance() == old(Balance())
        invariant old(EndsLine()) ==> EndsLine() && cutComments == old(cutComments)
        invariant !QuotedNewline(old(rest)) ==> !QuotedNewline(rest) && swallowed == old(swallowed)
        invariant '"' !in old(rest) && old(Stringless()) ==>
          '"' !in rest && Stringless() && cutStrings == old(cutStrings)
        invariant cutStrings >= old(cutStrings)
        invariant cutStrings == old(cutStrings) <==> NoneCut(items)
        invariant NoMarkers(old(rest)) && old(Unmarked()) ==>
          && NoMarkers(rest) && Unmarked() && Plus(Outlook(), Solid(items), NewlinesOf(items), 0, 0) == old(Outlook())
          && (items != [] && items[|items| - 1].ch == Eof ==> rest == "" && CurrentMode() == Code && state != Emitting)
        invariant NoMarkers(old(rest)) && old(Unmarked()) && old(Blankless()) ==>
          && Blankless()
          && forall i :: 0 <= i < |items| && items[i].ch == Ch(' ') ==> items[i].quoted
        invariant items != [] && items[|items| - 1].ch == Ch(' ') && !items[|items| - 1].quoted ==> AfterSpace()
        invariant forall i :: 0 <= i < |items| - 1 ==>
          !(items[i].ch == Ch(' ') && !items[i].quoted && items[i + 1].ch == Ch(' '))
        decreases calls - |items|
      {
        var quoted, cut := InQuotes(state), state == InString && rest == "";
        var r := NextChar();
        if r == Hangs {
          return items, true;
        }
        OneMoreItem(items, Item(r.ch, quoted, cut), Outlook(), NewlinesOf(items));
        items := items + [Item(r.ch, quoted, cut)];
      }
      if rest == "" && CurrentMode() == Code && state != Emitting {
        NothingLeft();
      }
    }

    lemma NothingLeft()
      requires rest == "" && CurrentMode() == Code && state != Emitting
      ensures Outlook() == Tally("", 0, addNewlines, swallowed, cutStrings, cutComments)
    {
      CountEnd(addNewlines);
    }
  }
}
