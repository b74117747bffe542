/** The lexical side of expressions: constants, names, operators. */
module ExprText {
  import opened CString
  import opened Int64

  predicate IsHighBit(c: char) {
    128 <= c as int < 256
  }

  predicate IsNameBeginner(c: char) {
    'a' <= c <= 'z' || 'A' <= c <= 'Z' || c in "_$.{" || IsHighBit(c)
  }

  predicate IsPartOfName(c: char) {
    IsNameBeginner(c) || IsDigit(c)
  }

  const NOT_A_DIGIT: nat := 42

  function HexValue(c: char): nat {
    if IsDigit(c) then c as int - '0' as int
    else if 'a' <= c <= 'f' then c as int - 'a' as int + 10
    else if 'A' <= c <= 'F' then c as int - 'A' as int + 10
    else NOT_A_DIGIT
  }

  /** The value of a character constant: a `char` is signed. */
  function SignedChar(c: char): int {
    if c as int < 128 then c as int else c as int - 256
  }

  function NameEnd(text: string, pos: nat): (end: nat)
    ensures pos <= end && (pos <= |text| ==> end <= |text|)
    decreases |text| - pos
  {
    if pos < |text| && IsPartOfName(text[pos]) then NameEnd(text, pos + 1) else pos
  }

  method FindNameEnd(text: string, pos: nat) returns (end: nat)
    ensures end == NameEnd(text, pos)
  {
    end := pos;
    while IsPartOfName(CharAt(text, end))
      invariant NameEnd(text, pos) == NameEnd(text, end)
      decreases |text| - end
    {
      end := end + 1;
    }
  }

  /** How a constant is written: its base, the digits it may use, where they
      start, and how many of them make it a bignum. An octal constant may use
      the digits 8 and 9. */
  datatype Form = Form(radix: nat, maxDigit: nat, start: nat, limit: nat)

  function FormAt(text: string, pos: nat): Form {
    if CharAt(text, pos) != '0' then Form(10, 10, pos, 22)
    else if CharAt(text, pos + 1) in "xX" then Form(16, 16, pos + 2, 18)
    else Form(8, 10, pos + 1, 22)
  }

  function DigitRun(text: string, pos: nat, maxDigit: nat): (end: nat)
    requires maxDigit <= 16
    ensures pos <= end && (pos <= |text| ==> end <= |text|)
    decreases |text| - pos
  {
    if pos < |text| && HexValue(text[pos]) < maxDigit then DigitRun(text, pos + 1, maxDigit) else pos
  }

  function NumberIn(text: string, start: nat, end: nat, radix: nat): int
    requires start <= end
    decreases end - start
  {
    if start == end then 0
    else Wrap(Wrap(NumberIn(text, start, end - 1, radix) * radix) + HexValue(CharAt(text, end - 1)))
  }

  method ScanNumber(text: string, form: Form) returns (number: int, end: nat)
    requires form.maxDigit <= 16
    ensures end == DigitRun(text, form.start, form.maxDigit)
    ensures number == NumberIn(text, form.start, end, form.radix)
  {
    number, end := 0, form.start;
    var digit := HexValue(CharAt(text, end));
    while digit < form.maxDigit
      invariant form.start <= end && digit == HexValue(CharAt(text, end))
      invariant DigitRun(text, form.start, form.maxDigit) == DigitRun(text, end, form.maxDigit)
      invariant number == NumberIn(text, form.start, end, form.radix)
      decreases |text| - end
    {
      number := Wrap(Wrap(number * form.radix) + digit);
      end := end + 1;
      digit := HexValue(CharAt(text, end));
    }
  }

  /** The suffix LL or ULL. */
  function SuffixEnd(text: string, pos: nat): (end: nat)
    ensures pos <= end <= pos + 3
  {
    if CharAt(text, pos) == 'U' && CharAt(text, pos + 1) == 'L' && CharAt(text, pos + 2) == 'L' then pos + 3
    else if CharAt(text, pos) == 'L' && CharAt(text, pos + 1) == 'L' then pos + 2
    else pos
  }

  /** `c` is at `pos`, and the input pointer after it. */
  method IgnoreSuffix(text: string, pos: nat) returns (end: nat)
    ensures end == SuffixEnd(text, pos) + 1
  {
    end := pos + 1;
    var c := CharAt(text, pos);
    var read := 0;
    if c != 'U' && c != 'L' {
      return;
    }
    if c == 'U' {
      c := CharAt(text, end);
      end, read := end + 1, read + 1;
    }
    if c == 'L' {
      c := CharAt(text, end);
      end, read := end + 1, read + 1;
    }
    if c == 'L' {
      end := end + 1;
    } else {
      end := end - read;
    }
  }

  datatype Operator =
    | Multiply | Divide | Modulus | Add | Subtract | RightShift | LeftShift
    | LessThan | GreaterThan | LessOrEqual | GreaterOrEqual | Equal | NotEqual
    | BitAnd | BitXor | BitOr | LogicalAnd | LogicalOr

  datatype Encoding = Illegal | Operation(op: Operator)

  function OpSize(op: Operator): (size: nat)
    ensures 1 <= size <= 2
  {
    match op
    case RightShift | LeftShift | LessOrEqual | GreaterOrEqual | Equal | NotEqual | LogicalAnd | LogicalOr => 2
    case _ => 1
  }

  function OpRank(op: Operator): (rank: nat)
    ensures 1 <= rank <= 10
  {
    match op
    case Multiply | Divide | Modulus => 10
    case Add | Subtract => 9
    case RightShift | LeftShift => 8
    case LessThan | GreaterThan | LessOrEqual | GreaterOrEqual => 7
    case Equal | NotEqual => 6
    case BitAnd => 5
    case BitXor => 4
    case BitOr => 3
    case LogicalAnd => 2
    case LogicalOr => 1
  }

  /** A lone `!` is encoded as the two characters of `!=`. */
  function TwoCharOp(first: char, second: char): Encoding {
    if first == '<' then
      if second == '<' then Operation(LeftShift)
      else if second == '=' then Operation(LessOrEqual)
      else if second == '>' then Operation(NotEqual)
      else Operation(LessThan)
    else if first == '>' then
      if second == '>' then Operation(RightShift)
      else if second == '=' then Operation(GreaterOrEqual)
      else Operation(GreaterThan)
    else if first == '=' then
      if second == '=' then Operation(Equal) else Illegal
    else if first == '!' then Operation(NotEqual)
    else if first == '&' then
      if second == '&' then Operation(LogicalAnd) else Operation(BitAnd)
    else if first == '|' then
      if second == '|' then Operation(LogicalOr) else Operation(BitOr)
    else Illegal
  }

  function OpAt(text: string, pos: nat): (e: Encoding)
    ensures e.Operation? ==> pos < |text|
  {
    var c := CharAt(text, pos);
    if c == '*' then Operation(Multiply)
    else if c == '/' then Operation(Divide)
    else if c == '%' then Operation(Modulus)
    else if c == '+' then Operation(Add)
    else if c == '-' then Operation(Subtract)
    else if c == '^' then Operation(BitXor)
    else TwoCharOp(c, CharAt(text, pos + 1))
  }

  function SkipSpace(text: string, pos: nat): nat {
    if CharAt(text, pos) == ' ' then pos + 1 else pos
  }
}
