/** The parser itself: it advances the input pointer and overwrites the fields
    of the result it is given. */
module ExprParser {
  import opened CString
  import opened Int64
  import opened ExprText
  import opened ExprArithmetic
  import opened ExprQuantity
  import opened ExprGrammar

  class Expression {
    var add: Symbol
    var subtract: Symbol
    var number: int
    var segment: Segment

    constructor ()
    {
      add, subtract, number, segment := None, None, 0, Absent;
    }

    function Get(): Quantity
      reads this
    {
      Quantity(add, subtract, number, segment)
    }

    method MakeZero()
      modifies this
      ensures Get() == Zero()
    {
      number, subtract, add, segment := 0, None, None, Absolute;
    }

    method CleanUp()
      modifies this
      ensures Get() == CleanedUp(old(Get()))
    {
      match segment {
        case Absent => add, subtract, number := None, None, 0;
        case Big => subtract, add := None, None;
        case Absolute => subtract, add := None, None;
        case Section => subtract := None;
        case Unknown => subtract := None;
        case Difference =>
          if subtract == add {
            subtract, add, segment := None, None, Absolute;
          }
      }
    }
  }

  class Parser {
    const input: Input
    var pos: nat
    var warnings: seq<Warning>

    constructor (input: Input, pos: nat)
      ensures this.input == input && this.pos == pos && warnings == []
    {
      this.input, this.pos, warnings := input, pos, [];
    }

    function Read(r: Expression): Parsed
      reads this, r
    {
      Parsed(r.Get(), pos, warnings)
    }

    method Warn(w: Warning)
      modifies `warnings
      ensures warnings == old(warnings) + [w]
    {
      warnings := warnings + [w];
    }

    method SkipWhitespace()
      modifies `pos
      ensures pos == SkipSpace(input.text, old(pos))
    {
      if CharAt(input.text, pos) == ' ' {
        pos := pos + 1;
      }
    }

    /** One more symbol in one place of a result. */
    method CombinePart(first: Symbol, second: Symbol) returns (part: Part)
      modifies `warnings
      ensures part == ExprPart(input.symbols, first, second)
      ensures warnings == old(warnings) + PartWarnings(input.symbols, first, second)
    {
      if first != None {
        if KindOf(input.symbols, first.name) == Undefined {
          part := if second != None then NoPart else Part(first, Unknown);
        } else if second != None {
          if KindOf(input.symbols, second.name) == Undefined {
            part := NoPart;
          } else {
            Warn(SymbolsForgotten(first.name, second.name));
            part := Part(None, Absolute);
          }
        } else {
          part := Part(first, SegmentOf(KindOf(input.symbols, first.name)));
        }
      } else if second != None {
        part := Part(second, SegmentOf(KindOf(input.symbols, second.name)));
      } else {
        part := Part(None, Absolute);
      }
    }

    method AddTo(r: Expression, right: Expression)
      requires r != right
      modifies `warnings, r, right
      ensures Outcome(r.Get(), warnings) == Sum(input.symbols, Outcome(old(r.Get()), old(warnings)), old(right.Get()))
    {
      right.CleanUp();
      r.CleanUp();
      var part1 := CombinePart(r.add, right.add);
      r.add := if part1.Part? then part1.symbol else None;
      var part2 := CombinePart(r.subtract, right.subtract);
      r.subtract := if part2.Part? then part2.symbol else None;
      if part1.NoPart? || part2.NoPart? {
        Warn(CannotRelocate);
        r.segment, r.number := Absolute, 0;
      } else if part2.segment == Absolute {
        r.segment := part1.segment;
      } else {
        r.segment := Difference;
      }
      r.number := Wrap(r.number + right.number);
      r.CleanUp();
    }

    method Apply(op: Operator, r: Expression, right: Expression)
      requires r != right && op != Add && op != Subtract
      modifies `warnings, r
      ensures Outcome(r.Get(), warnings) == Applied(op, Outcome(old(r.Get()), old(warnings)), old(right.Get()))
      ensures
        && old(r.segment) == Absolute == old(right.segment)
        && InRange(old(r.number)) && InRange(old(right.number))
        ==> r.segment == Absolute && Yields(op, old(r.number), old(right.number), r.number)
    {
      hide Calculate, Sum, CleanedUp, Yields;
      if InRange(r.number) && InRange(right.number) {
        CalculateYields(op, r.number, right.number);
      }
      if r.segment == Unknown || right.segment == Unknown {
        Warn(CannotRelocate);
        r.segment, r.number := Absolute, 0;
        return;
      }
      if r.segment == Difference && right.segment == Absolute && op == Divide && right.number == 2 {
        return;
      }
      r.subtract, r.add := None, None;
      if r.segment != Absolute || right.segment != Absolute {
        Warn(RelocationError);
        r.segment, r.number := Absolute, 0;
      } else if (op == Modulus || op == Divide) && right.number == 0 {
        Warn(DivisionByZero);
        ByZero(op, r.number);
        r.number := 0;
      } else {
        r.number := Calculate(op, r.number, right.number);
      }
    }

    method MakeUsable(r: Expression, right: Expression)
      requires r != right
      modifies `warnings, r, right
      ensures Operands(r.Get(), right.Get(), warnings)
           == Usable(old(r.Get()), Outcome(old(right.Get()), old(warnings)))
    {
      if right.segment == Absent {
        Warn(MissingOperand);
        r.MakeZero();
      }
      if r.segment == Big {
        Warn(LeftBig);
        r.MakeZero();
      }
      if right.segment == Big {
        Warn(RightBig);
        right.MakeZero();
      }
    }

    /** Both operands are in hand: join them. */
    method Join(op: Operator, r: Expression, right: Expression)
      requires r != right
      modifies `warnings, r, right
      ensures Outcome(r.Get(), warnings)
           == Combined(input.symbols, op, old(r.Get()), Outcome(old(right.Get()), old(warnings)))
    {
      hide Calculate, Sum, Applied, CleanedUp, Usable;
      MakeUsable(r, right);
      if op == Subtract {
        right.number := Wrap(-right.number);
        right.add, right.subtract := right.subtract, right.add;
        if right.subtract != None {
          right.segment := Difference;
        }
        AddTo(r, right);
      } else if op == Add {
        AddTo(r, right);
      } else {
        Apply(op, r, right);
      }
    }

    /** After Expr(rank, r) the input pointer is at an operator of rank at
        most `rank`, or at none. */
    method Expr(rank: nat, r: Expression)
      modifies `pos, `warnings, r
      ensures Read(r) == ParseExpr(input, old(pos), rank, old(warnings))
      decreases Remaining(input, pos), 3
    {
      hide Combined, OpAt, ParseOperand;
      Operand(r);
      var op := OpAt(input.text, pos);
      while op.Operation? && OpRank(op.op) > rank
        invariant op == OpAt(input.text, pos) && pos >= old(pos)
        invariant Loop(input, Read(r), rank) == ParseExpr(input, old(pos), rank, old(warnings))
        decreases Remaining(input, pos)
      {
        ghost var left := Read(r);
        pos := pos + OpSize(op.op);
        var right := new Expression();
        Expr(OpRank(op.op), right);
        Join(op.op, r, right);
        assert Read(r) == Joined(input, op.op, left,
          ParseExpr(input, left.pos + OpSize(op.op), OpRank(op.op), left.warnings));
        op := OpAt(input.text, pos);
      }
    }

    /** An operand, and a space on either side of it; its segment is Absent
        when there is none. */
    method Operand(r: Expression)
      modifies `pos, `warnings, r
      ensures Read(r) == ParseOperand(input, old(pos), old(warnings))
      decreases Remaining(input, pos), 2
    {
      hide OperandAt, CleanedUp;
      SkipWhitespace();
      OperandCore(r);
      r.CleanUp();
      SkipWhitespace();
    }

    method OperandCore(r: Expression)
      modifies `pos, `warnings, r
      ensures Read(r) == OperandAt(input, old(pos), old(warnings))
      decreases Remaining(input, pos), 1
    {
      hide IsOtherLiteral, NumberIn, DigitRun, Unary, Whole, ParseExpr, ParseOperand, Loop;
      var c := CharAt(input.text, pos);
      if IsOtherLiteral(input.text, pos) {
        var literal := input.literals(pos);
        r.add, r.subtract, r.number, r.segment :=
          literal.q.add, literal.q.subtract, literal.q.number, literal.q.segment;
        pos := pos + 1 + literal.length;
      } else if IsDigit(c) {
        var number, end := ScanNumber(input.text, FormAt(input.text, pos));
        SetConstant(r, number);
        var after := IgnoreSuffix(input.text, end);
        pos := after - 1;
      } else if IsNameBeginner(c) {
        Name(r);
      } else if c == '(' {
        pos := pos + 1;
        var segment := WholeExpression(r);
        if CharAt(input.text, pos) != ')' {
          Warn(MissingParenthesis);
        } else {
          pos := pos + 1;
        }
      } else if c == '~' || c == '-' || c == '!' {
        pos := pos + 1;
        Operand(r);
        ApplyUnaryTo(UnaryOpOf(c), r);
      } else if c == '\'' {
        SetConstant(r, SignedChar(CharAt(input.text, pos + 1)));
        pos := pos + 2;
      } else {
        r.add, r.subtract, r.number, r.segment := None, None, 0, Absent;
      }
    }

    method SetConstant(r: Expression, number: int)
      modifies r
      ensures r.Get() == Constantly(number)
    {
      r.add, r.subtract, r.number, r.segment := None, None, number, Absolute;
    }

    method Name(r: Expression)
      modifies `pos, r
      ensures pos == NameEnd(input.text, old(pos))
      ensures r.Get() == SymbolQuantity(input.symbols, NameAt(input.text, old(pos), pos))
    {
      var start := pos;
      pos := FindNameEnd(input.text, pos);
      var name := NameAt(input.text, start, pos);
      match KindOf(input.symbols, name) {
        case Constant(value) => SetConstant(r, value);
        case Undefined => r.add, r.subtract, r.number, r.segment := Some(name), None, 0, Unknown;
        case InSection => r.add, r.subtract, r.number, r.segment := Some(name), None, 0, Section;
      }
    }

    method ApplyUnaryTo(op: UnaryOperator, r: Expression)
      modifies `warnings, r
      ensures Outcome(r.Get(), warnings) == Unary(op, Outcome(old(r.Get()), old(warnings)))
      ensures old(r.segment) == Absolute && InRange(old(r.number)) ==>
        r.segment == Absolute && UnaryYields(op, old(r.number), r.number)
    {
      hide ApplyUnary, UnaryYields;
      if InRange(r.number) {
        UnaryIsRight(op, r.number);
      }
      if r.segment == Absolute {
        r.number := ApplyUnary(op, r.number);
      } else if (r.segment == Section || r.segment == Unknown) && op == Minus {
        r.subtract, r.add, r.segment := r.add, None, Difference;
      } else {
        Warn(UnaryIgnored);
      }
    }

    /** The expression; the segment reported differs from the one in the
        result when only a defined symbol is subtracted. */
    method WholeExpression(r: Expression) returns (segment: Segment)
      modifies `pos, `warnings, r
      ensures var p := ParseExpr(input, old(pos), 0, old(warnings));
        && pos == p.pos
        && Outcome(r.Get(), warnings) == Whole(input.symbols, Outcome(p.q, p.warnings))
        && segment == if IsTooHard(input.symbols, p.q) then Absolute else p.q.segment
      decreases Remaining(input, pos), 4
    {
      hide ParseExpr;
      Expr(0, r);
      segment := r.segment;
      if segment == Difference && r.add == None && r.subtract != None
         && KindOf(input.symbols, r.subtract.name) != Undefined {
        Warn(TooHard(r.subtract.name));
        segment := Absolute;
      }
    }
  }
}
