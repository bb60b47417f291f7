/** How the expression grammar reads (src/parser.c:91-295), operator by operator: what binds
    more tightly than what, and what the primaries stand for. */
module Precedence {
  import opened Pages
  import opened Values
  import opened Expressions
  import opened Parsers

  // ---------- operands ----------

  /** Tokens that cannot continue an operand. */
  predicate Stops(rest: Tokens) {
    rest == [] || (rest[0] != Dot && rest[0] != LParen)
  }

  /** Tokens that cannot continue an expression. */
  predicate Ends(rest: Tokens) {
    rest == [] || (rest[0] != Dot && rest[0] != LParen && !rest[0].Infix?)
  }

  /** The tokens are an operand without operators outside parentheses, and stand for x. */
  ghost predicate Operand(sub: SubParser, t: Tokens, x: Expr) {
    forall rest :: Stops(rest) ==> ReadsAs(sub, t, rest, x)
  }

  ghost predicate ReadsAs(sub: SubParser, t: Tokens, rest: Tokens, x: Expr) {
    ParsePrimary(sub, t + rest) == Some(Parsed(x, rest))
  }

  /** The tokens are an expression and stand for x. */
  ghost predicate Whole(sub: SubParser, t: Tokens, x: Expr) {
    t != [] && forall rest :: Ends(rest) ==> ParsesAs(sub, t, rest, x)
  }

  ghost predicate ParsesAs(sub: SubParser, t: Tokens, rest: Tokens, x: Expr) {
    Parse(sub, OR, t + rest) == Some(Parsed(x, rest))
  }

  /** A whole expression before a closing parenthesis. */
  lemma WholeCloses(sub: SubParser, t: Tokens, x: Expr, rest: Tokens, inner: Tokens)
    requires Whole(sub, t, x) && inner == t + ([RParen] + rest)
    ensures Parse(sub, OR, inner) == Some(Parsed(x, [RParen] + rest)) && inner != [] && inner[0] == t[0]
    ensures Closed(Some(Parsed(x, [RParen] + rest))) == Some(Parsed(x, rest))
  {
    assert ParsesAs(sub, t, [RParen] + rest, x);
    assert ([RParen] + rest)[1..] == rest;
  }

  /** Literals stand for themselves. */
  lemma LiteralsAreOperands(sub: SubParser, i: Int64, bits: Bits64, text: seq<Byte>)
    ensures Operand(sub, [IntLit(i)], Literal(Int(i))) && Operand(sub, [RealLit(bits)], Literal(Real(bits)))
    ensures Operand(sub, [StringLit(text)], Literal(Text(text))) && Operand(sub, [NullKw], Literal(Null))
  {
    forall first: Token, rest ensures ([first] + rest)[0] == first && ([first] + rest)[1..] == rest {}
  }

  /** A name is a column, two names with a dot are a column of a table; of a name 63 characters
      count. */
  lemma NamesAreOperands(sub: SubParser, table: string, column: string)
    requires table != ""
    ensures Operand(sub, [Ident(column)], Column("", if |column| < 64 then column else column[..63]))
    ensures Operand(sub, [Ident(table), Dot, Ident(column)],
                    Column(if |table| < 64 then table else table[..63], if |column| < 64 then column else column[..63]))
  {
    forall rest | Stops(rest)
      ensures ReadsAs(sub, [Ident(column)], rest, Column("", Truncated(column)))
      ensures ReadsAs(sub, [Ident(table), Dot, Ident(column)], rest, Column(Truncated(table), Truncated(column)))
    {
      var one, three := [Ident(column)] + rest, [Ident(table), Dot, Ident(column)] + rest;
      assert one[1..] == rest && three[3..] == rest;
      assert rest != [] ==> one[1] == rest[0];
    }
  }

  /** An expression in parentheses is an operand. */
  lemma ParenthesesAreOperands(sub: SubParser, t: Tokens, x: Expr)
    requires Whole(sub, t, x) && t[0] != SelectKw
    ensures Operand(sub, [LParen] + t + [RParen], x)
  {
    forall rest | Stops(rest) ensures ReadsAs(sub, [LParen] + t + [RParen], rest, x) {
      hide Parse, Whole;
      var inner := t + ([RParen] + rest);
      WholeCloses(sub, t, x, rest, inner);
      ParenthesisOpens(sub, inner);
      assert [LParen] + t + [RParen] + rest == [LParen] + inner;
    }
  }

  lemma ParenthesisOpens(sub: SubParser, inner: Tokens)
    requires inner != [] && inner[0] != SelectKw
    ensures ParsePrimary(sub, [LParen] + inner) == Closed(Parse(sub, OR, inner))
  {
    assert ([LParen] + inner)[1..] == inner;
  }

  /** So is every printed operand, and every printed expression is whole. */
  lemma PrintedIsOperand(sub: SubParser, x: Expr)
    requires Printable(x)
    ensures Operand(sub, Print(x, PRIMARY), x) && Whole(sub, Print(x, OR), x)
  {
    FirstToken(x, OR);
    forall rest | Stops(rest) ensures ReadsAs(sub, Print(x, PRIMARY), rest, x) {
      PrimaryParses(sub, x, rest);
    }
    forall rest | Ends(rest) ensures ParsesAs(sub, Print(x, OR), rest, x) {
      PrintedExpressionParses(sub, x, rest);
    }
  }

  /** Two names are the same but for case. */
  predicate SameName(a: string, b: string) {
    |a| == |b| && forall i :: 0 <= i < |a| ==> SmallLetter(a[i]) == SmallLetter(b[i])
  }

  function SmallLetter(c: char): char {
    if 'A' <= c <= 'Z' then c + ' ' else c
  }

  lemma {:induction false} LowerLetters(s: string)
    ensures |Lower(s)| == |s| && forall i :: 0 <= i < |s| ==> Lower(s)[i] == SmallLetter(s[i])
  {
    if s != "" {
      LowerLetters(s[1..]);
    }
  }

  lemma SameLower(a: string, b: string)
    ensures Lower(a) == Lower(b) <==> SameName(a, b)
  {
    LowerLetters(a);
    LowerLetters(b);
    if SameName(a, b) {
      assert forall i :: 0 <= i < |a| ==> Lower(a)[i] == Lower(b)[i];
    } else if |a| == |b| {
      var i :| 0 <= i < |a| && SmallLetter(a[i]) != SmallLetter(b[i]);
      assert Lower(a)[i] != Lower(b)[i];
    }
  }

  /** The five aggregates by name, in any case. */
  lemma AggregateNames(name: string)
    ensures FuncOf(name) == Some(Count) <==> SameName(name, "COUNT")
    ensures FuncOf(name) == Some(Sum) <==> SameName(name, "SUM")
    ensures FuncOf(name) == Some(Avg) <==> SameName(name, "AVG")
    ensures FuncOf(name) == Some(Min) <==> SameName(name, "MIN")
    ensures FuncOf(name) == Some(Max) <==> SameName(name, "MAX")
  {
    SameLower(name, "COUNT");
    SameLower(name, "SUM");
    SameLower(name, "AVG");
    SameLower(name, "MIN");
    SameLower(name, "MAX");
    LowerNames();
  }

  /** An aggregate call, and COUNT(*). */
  lemma CallsAreOperands(sub: SubParser, name: string, fn: FuncKind, t: Tokens, x: Expr)
    requires FuncOf(name) == Some(fn) && Whole(sub, t, x) && t[0] != Infix(Mul)
    ensures Operand(sub, [Ident(name), LParen] + t + [RParen], Func(fn, false, Some(x)))
  {
    forall rest | Stops(rest) ensures ReadsAs(sub, [Ident(name), LParen] + t + [RParen], rest, Func(fn, false, Some(x))) {
      hide *;
      var inner := t + ([RParen] + rest);
      WholeCloses(sub, t, x, rest, inner);
      CallOpens(sub, name, fn, inner);
      CallReads(sub, name, fn, t, x, rest, inner);
    }
  }

  lemma CallOpens(sub: SubParser, name: string, fn: FuncKind, inner: Tokens)
    requires FuncOf(name) == Some(fn) && inner != [] && inner[0] != Infix(Mul)
    ensures ParsePrimary(sub, [Ident(name), LParen] + inner) == Call(fn, Parse(sub, OR, inner))
  {
    hide Parse, ParsePrimary, FuncOf;
    var all := [Ident(name), LParen] + inner;
    assert all[2..] == inner && all[2] == inner[0];
    OpenFunc(sub, fn, all);
  }

  lemma CallReads(sub: SubParser, name: string, fn: FuncKind, t: Tokens, x: Expr, rest: Tokens, inner: Tokens)
    requires inner == t + ([RParen] + rest) && ParsePrimary(sub, [Ident(name), LParen] + inner) == Call(fn, Parse(sub, OR, inner))
    requires Parse(sub, OR, inner) == Some(Parsed(x, [RParen] + rest))
    ensures ReadsAs(sub, [Ident(name), LParen] + t + [RParen], rest, Func(fn, false, Some(x)))
  {
    hide Parse, ParsePrimary;
    assert [Ident(name), LParen] + t + [RParen] + rest == [Ident(name), LParen] + inner;
    assert ([RParen] + rest)[1..] == rest;
  }

  lemma CountStarIsOperand(sub: SubParser, name: string)
    requires FuncOf(name) == Some(Count)
    ensures Operand(sub, [Ident(name), LParen, Infix(Mul), RParen], Func(Count, true, None))
  {
    forall rest | Stops(rest) ensures ReadsAs(sub, [Ident(name), LParen, Infix(Mul), RParen], rest, Func(Count, true, None)) {
      var star := [Ident(name), LParen, Infix(Mul), RParen] + rest;
      assert star[3..] == [RParen] + rest;
      assert ([RParen] + rest)[1..] == rest;
    }
  }

  // ---------- two operators ----------

  predicate Comparison(op: Op) {
    op in {Eq, Neq, Lt, Le, Gt, Ge}
  }

  predicate InfixOp(op: Op) {
    op in {Or, And, Add, Sub, Mul, Div} || Comparison(op)
  }

  /** op binds less tightly than other: OR, AND, the comparisons, + and -, * and / in turn. */
  predicate Looser(op: Op, other: Op) {
    || (op == Or && other != Or)
    || (op == And && other !in {Or, And})
    || (Comparison(op) && other in {Add, Sub, Mul, Div})
    || (op in {Add, Sub} && other in {Mul, Div})
  }

  lemma LevelsAre(o1: Op, o2: Op)
    requires InfixOp(o1) && InfixOp(o2)
    ensures OpLevel(o1) < OpLevel(o2) <==> Looser(o1, o2)
    ensures OpLevel(o1) == OpLevel(o2) == COMPARISON <==> Comparison(o1) && Comparison(o2)
    ensures OpLevel(o1) !in {NOT, UNARY, PRIMARY} && (OpLevel(o1) < NOT <==> o1 in {Or, And})
  {}

  lemma FirstOfOperand(sub: SubParser, t: Tokens, x: Expr, rest: Tokens)
    requires Operand(sub, t, x) && Stops(rest)
    ensures t != [] && (t + rest)[0] == t[0] && t[0] != NotKw && !t[0].Infix?
    ensures ParsePrimary(sub, t + rest) == Some(Parsed(x, rest))
  {
    assert ReadsAs(sub, t, rest, x) && ReadsAs(sub, t, [], x);
  }

  /** The next token continues an expression at none of the levels from k to below l. */
  predicate Clear(rest: Tokens, k: Level, l: nat) {
    rest != [] && rest[0].Infix? ==> OpLevel(rest[0].op) < k || OpLevel(rest[0].op) >= l
  }

  /** What is complete at one level is so at all looser ones that no operator continues. */
  lemma {:induction false} Climb(sub: SubParser, t: Tokens, from: Level, to: Level, e: Expr, rest: Tokens)
    requires Parse(sub, from, t) == Some(Parsed(e, rest)) && to <= from && Clear(rest, to, from)
    requires t != [] && (to <= UNARY < from ==> t[0] != Infix(Sub)) && (to <= NOT < from ==> t[0] != NotKw)
    ensures Parse(sub, to, t) == Some(Parsed(e, rest))
    decreases from - to
  {
    hide Parse;
    if to < from {
      Climb(sub, t, from, to + 1, e, rest);
      OneUp(sub, t, to, e, rest);
    }
  }

  lemma OneUp(sub: SubParser, t: Tokens, k: Level, e: Expr, rest: Tokens)
    requires k < PRIMARY && Parse(sub, k + 1, t) == Some(Parsed(e, rest)) && Clear(rest, k, k + 1)
    requires t != [] && (k == UNARY ==> t[0] != Infix(Sub)) && (k == NOT ==> t[0] != NotKw)
    ensures Parse(sub, k, t) == Some(Parsed(e, rest))
  {
    hide ParsePrimary;
    TailStops(sub, k, e, rest);
  }

  lemma OperandAt(sub: SubParser, t: Tokens, x: Expr, k: Level, rest: Tokens)
    requires Operand(sub, t, x) && Stops(rest) && Clear(rest, k, PRIMARY)
    ensures Parse(sub, k, t + rest) == Some(Parsed(x, rest))
    ensures t != [] && (t + rest)[0] == t[0] && t[0] != NotKw && !t[0].Infix?
  {
    FirstOfOperand(sub, t, x, rest);
    Climb(sub, t + rest, PRIMARY, k, x, rest);
  }

  /** An operator after its left operand, with its right operand. */
  lemma Takes(sub: SubParser, t: Tokens, left: Expr, o: Op, right: Tokens, x: Expr, rest: Tokens)
    requires InfixOp(o) && t != [] && Parse(sub, OpLevel(o) + 1, t) == Some(Parsed(left, [Infix(o)] + right))
    requires Parse(sub, OpLevel(o) + 1, right) == Some(Parsed(x, rest))
    ensures Parse(sub, OpLevel(o), t)
            == if Comparison(o) then Some(Parsed(Binary(o, left, x), rest)) else Tail(sub, OpLevel(o), Binary(o, left, x), rest)
  {
    LevelsAre(o, o);
    TailTakes(sub, left, o, right, x, rest);
  }

  lemma TailTakes(sub: SubParser, left: Expr, o: Op, right: Tokens, x: Expr, rest: Tokens)
    requires InfixOp(o) && Parse(sub, OpLevel(o) + 1, right) == Some(Parsed(x, rest))
    ensures Tail(sub, OpLevel(o), left, [Infix(o)] + right)
            == if Comparison(o) then Some(Parsed(Binary(o, left, x), rest)) else Tail(sub, OpLevel(o), Binary(o, left, x), rest)
  {
    LevelsAre(o, o);
    assert ([Infix(o)] + right)[1..] == right;
  }

  lemma TailStops(sub: SubParser, k: Level, e: Expr, rest: Tokens)
    requires Clear(rest, k, k + 1)
    ensures Tail(sub, k, e, rest) == Some(Parsed(e, rest))
  {}

  /** x o y at a level no tighter than o. */
  lemma OneOperator(sub: SubParser, tx: Tokens, x: Expr, o: Op, ty: Tokens, y: Expr, k: Level, rest: Tokens)
    requires InfixOp(o) && Operand(sub, tx, x) && Operand(sub, ty, y) && k <= OpLevel(o) && Stops(rest)
    requires Clear(rest, k, if Comparison(o) then OpLevel(o) else PRIMARY) && Clear(rest, OpLevel(o) + 1, PRIMARY)
    ensures Parse(sub, k, tx + ([Infix(o)] + (ty + rest))) == Some(Parsed(Binary(o, x, y), rest))
  {
    hide Parse, Operand;
    var l, after := OpLevel(o), [Infix(o)] + (ty + rest);
    LevelsAre(o, o);
    OperandAt(sub, tx, x, l + 1, after);
    OperandAt(sub, ty, y, l + 1, rest);
    Takes(sub, tx + after, x, o, ty + rest, y, rest);
    if !Comparison(o) {
      TailStops(sub, l, Binary(o, x, y), rest);
    }
    Climb(sub, tx + after, l, k, Binary(o, x, y), rest);
  }

  /** Two operators between three operands: the tighter binds first, of equal ones the left;
      a comparison does not continue after another. */
  lemma TwoOperators(sub: SubParser, tx: Tokens, x: Expr, o1: Op, ty: Tokens, y: Expr, o2: Op, tz: Tokens, z: Expr, rest: Tokens)
    requires InfixOp(o1) && InfixOp(o2) && Operand(sub, tx, x) && Operand(sub, ty, y) && Operand(sub, tz, z) && Ends(rest)
    ensures Parse(sub, OR, tx + ([Infix(o1)] + (ty + ([Infix(o2)] + (tz + rest)))))
            == if Looser(o1, o2) then Some(Parsed(Binary(o1, x, Binary(o2, y, z)), rest))
               else if Comparison(o1) && Comparison(o2) then Some(Parsed(Binary(o1, x, y), [Infix(o2)] + (tz + rest)))
               else Some(Parsed(Binary(o2, Binary(o1, x, y), z), rest))
  {
    hide Parse, Operand;
    LevelsAre(o1, o2);
    LevelsAre(o2, o1);
    if Looser(o1, o2) {
      RightFirst(sub, tx, x, o1, ty, y, o2, tz, z, rest);
    } else if Comparison(o1) && Comparison(o2) {
      OneOperator(sub, tx, x, o1, ty, y, OR, [Infix(o2)] + (tz + rest));
    } else {
      LeftFirst(sub, tx, x, o1, ty, y, o2, tz, z, rest);
    }
  }

  lemma RightFirst(sub: SubParser, tx: Tokens, x: Expr, o1: Op, ty: Tokens, y: Expr, o2: Op, tz: Tokens, z: Expr, rest: Tokens)
    requires InfixOp(o1) && InfixOp(o2) && Looser(o1, o2) && Operand(sub, tx, x) && Operand(sub, ty, y) && Operand(sub, tz, z) && Ends(rest)
    ensures Parse(sub, OR, tx + ([Infix(o1)] + (ty + ([Infix(o2)] + (tz + rest))))) == Some(Parsed(Binary(o1, x, Binary(o2, y, z)), rest))
  {
    hide Parse, Operand;
    var k, right := OpLevel(o1), ty + ([Infix(o2)] + (tz + rest));
    var t, e := tx + ([Infix(o1)] + right), Binary(o1, x, Binary(o2, y, z));
    LevelsAre(o1, o2);
    OperandAt(sub, tx, x, k + 1, [Infix(o1)] + right);
    OneOperator(sub, ty, y, o2, tz, z, k + 1, rest);
    Takes(sub, t, x, o1, right, Binary(o2, y, z), rest);
    TailStops(sub, k, e, rest);
    Climb(sub, t, k, OR, e, rest);
  }

  lemma LeftFirst(sub: SubParser, tx: Tokens, x: Expr, o1: Op, ty: Tokens, y: Expr, o2: Op, tz: Tokens, z: Expr, rest: Tokens)
    requires InfixOp(o1) && InfixOp(o2) && !Looser(o1, o2) && !(Comparison(o1) && Comparison(o2))
    requires Operand(sub, tx, x) && Operand(sub, ty, y) && Operand(sub, tz, z) && Ends(rest)
    ensures Parse(sub, OR, tx + ([Infix(o1)] + (ty + ([Infix(o2)] + (tz + rest))))) == Some(Parsed(Binary(o2, Binary(o1, x, y), z), rest))
  {
    hide Parse, Operand;
    var k, right := OpLevel(o2), tz + rest;
    var last := [Infix(o2)] + right;
    var t, e := tx + ([Infix(o1)] + (ty + last)), Binary(o2, Binary(o1, x, y), z);
    LevelsAre(o1, o2);
    LevelsAre(o2, o1);
    OperandAt(sub, tx, x, PRIMARY, [Infix(o1)] + (ty + last));
    OperandAt(sub, tz, z, k + 1, rest);
    TailStops(sub, k, e, rest);
    if OpLevel(o1) == k {
      OperandAt(sub, tx, x, k + 1, [Infix(o1)] + (ty + last));
      OperandAt(sub, ty, y, k + 1, last);
      Takes(sub, t, x, o1, ty + last, y, last);
      TailTakes(sub, Binary(o1, x, y), o2, right, z, rest);
    } else {
      OneOperator(sub, tx, x, o1, ty, y, k + 1, last);
      Takes(sub, t, Binary(o1, x, y), o2, right, z, rest);
    }
    Climb(sub, t, k, OR, e, rest);
  }

  // ---------- NOT and unary minus ----------

  /** NOT takes a comparison, but neither AND nor OR; unary minus takes one operand. */
  lemma PrefixThenInfix(sub: SubParser, tx: Tokens, x: Expr, o: Op, ty: Tokens, y: Expr, rest: Tokens)
    requires InfixOp(o) && Operand(sub, tx, x) && Operand(sub, ty, y) && Ends(rest)
    ensures var t := tx + ([Infix(o)] + (ty + rest));
            && Parse(sub, OR, [NotKw] + t)
               == Some(Parsed(if o in {Or, And} then Binary(o, Unary(Not, x), y) else Unary(Not, Binary(o, x, y)), rest))
            && Parse(sub, OR, [Infix(Sub)] + t) == Some(Parsed(Binary(o, Unary(Neg, x), y), rest))
  {
    NotThenInfix(sub, tx, x, o, ty, y, rest);
    MinusThenInfix(sub, tx, x, o, ty, y, rest);
  }

  lemma NotThenInfix(sub: SubParser, tx: Tokens, x: Expr, o: Op, ty: Tokens, y: Expr, rest: Tokens)
    requires InfixOp(o) && Operand(sub, tx, x) && Operand(sub, ty, y) && Ends(rest)
    ensures Parse(sub, OR, [NotKw] + (tx + ([Infix(o)] + (ty + rest))))
            == Some(Parsed(if o in {Or, And} then Binary(o, Unary(Not, x), y) else Unary(Not, Binary(o, x, y)), rest))
  {
    hide Parse, Operand;
    var k, after := OpLevel(o), [Infix(o)] + (ty + rest);
    var t := [NotKw] + (tx + after);
    LevelsAre(o, o);
    if o in {Or, And} {
      var e := Binary(o, Unary(Not, x), y);
      OperandAt(sub, tx, x, NOT, after);
      PrefixesRepeat(sub, tx + after, after, x);
      Climb(sub, t, NOT, k + 1, Unary(Not, x), after);
      OperandAt(sub, ty, y, k + 1, rest);
      Takes(sub, t, Unary(Not, x), o, ty + rest, y, rest);
      TailStops(sub, k, e, rest);
      Climb(sub, t, k, OR, e, rest);
    } else {
      OneOperator(sub, tx, x, o, ty, y, NOT, rest);
      PrefixesRepeat(sub, tx + after, rest, Binary(o, x, y));
      Climb(sub, t, NOT, OR, Unary(Not, Binary(o, x, y)), rest);
    }
  }

  lemma MinusThenInfix(sub: SubParser, tx: Tokens, x: Expr, o: Op, ty: Tokens, y: Expr, rest: Tokens)
    requires InfixOp(o) && Operand(sub, tx, x) && Operand(sub, ty, y) && Ends(rest)
    ensures Parse(sub, OR, [Infix(Sub)] + (tx + ([Infix(o)] + (ty + rest)))) == Some(Parsed(Binary(o, Unary(Neg, x), y), rest))
  {
    hide Parse, Operand;
    var k, after := OpLevel(o), [Infix(o)] + (ty + rest);
    var t, e := [Infix(Sub)] + (tx + after), Binary(o, Unary(Neg, x), y);
    LevelsAre(o, o);
    OperandAt(sub, tx, x, UNARY, after);
    PrefixesRepeat(sub, tx + after, after, x);
    Climb(sub, t, UNARY, k + 1, Unary(Neg, x), after);
    OperandAt(sub, ty, y, k + 1, rest);
    Takes(sub, t, Unary(Neg, x), o, ty + rest, y, rest);
    TailStops(sub, k, e, rest);
    Climb(sub, t, k, OR, e, rest);
  }

  /** After an operator: unary minus always, NOT only after AND and OR; elsewhere it does not
      parse. */
  lemma InfixThenPrefix(sub: SubParser, tx: Tokens, x: Expr, o: Op, ty: Tokens, y: Expr, rest: Tokens)
    requires InfixOp(o) && Operand(sub, tx, x) && Operand(sub, ty, y) && Ends(rest)
    ensures Parse(sub, OR, tx + ([Infix(o)] + ([Infix(Sub)] + (ty + rest)))) == Some(Parsed(Binary(o, x, Unary(Neg, y)), rest))
    ensures Parse(sub, OR, tx + ([Infix(o)] + ([NotKw] + (ty + rest))))
            == if o in {Or, And} then Some(Parsed(Binary(o, x, Unary(Not, y)), rest)) else None
  {
    MinusAfter(sub, tx, x, o, ty, y, rest);
    NotAfter(sub, tx, x, o, ty, y, rest);
  }

  lemma MinusAfter(sub: SubParser, tx: Tokens, x: Expr, o: Op, ty: Tokens, y: Expr, rest: Tokens)
    requires InfixOp(o) && Operand(sub, tx, x) && Operand(sub, ty, y) && Ends(rest)
    ensures Parse(sub, OR, tx + ([Infix(o)] + ([Infix(Sub)] + (ty + rest)))) == Some(Parsed(Binary(o, x, Unary(Neg, y)), rest))
  {
    hide Parse, Operand;
    var k, inner, e := OpLevel(o), [Infix(Sub)] + (ty + rest), Binary(o, x, Unary(Neg, y));
    LevelsAre(o, o);
    OperandAt(sub, ty, y, UNARY, rest);
    PrefixesRepeat(sub, ty + rest, rest, y);
    Climb(sub, inner, UNARY, k + 1, Unary(Neg, y), rest);
    OperandAt(sub, tx, x, k + 1, [Infix(o)] + inner);
    Takes(sub, tx + ([Infix(o)] + inner), x, o, inner, Unary(Neg, y), rest);
    TailStops(sub, k, e, rest);
    Climb(sub, tx + ([Infix(o)] + inner), k, OR, e, rest);
  }

  lemma NotAfter(sub: SubParser, tx: Tokens, x: Expr, o: Op, ty: Tokens, y: Expr, rest: Tokens)
    requires InfixOp(o) && Operand(sub, tx, x) && Operand(sub, ty, y) && Ends(rest)
    ensures Parse(sub, OR, tx + ([Infix(o)] + ([NotKw] + (ty + rest))))
            == if o in {Or, And} then Some(Parsed(Binary(o, x, Unary(Not, y)), rest)) else None
  {
    hide Parse, Operand;
    var k, inner, e := OpLevel(o), [NotKw] + (ty + rest), Binary(o, x, Unary(Not, y));
    var t := tx + ([Infix(o)] + inner);
    LevelsAre(o, o);
    OperandAt(sub, tx, x, k + 1, [Infix(o)] + inner);
    if o in {Or, And} {
      OperandAt(sub, ty, y, NOT, rest);
      PrefixesRepeat(sub, ty + rest, rest, y);
      Climb(sub, inner, NOT, k + 1, Unary(Not, y), rest);
      Takes(sub, t, x, o, inner, Unary(Not, y), rest);
      TailStops(sub, k, e, rest);
      Climb(sub, t, k, OR, e, rest);
    } else {
      NoNot(sub, inner, k + 1);
      NothingTaken(sub, t, x, o, inner);
      NoneAbove(sub, t, k);
    }
  }

  lemma NothingTaken(sub: SubParser, t: Tokens, left: Expr, o: Op, right: Tokens)
    requires InfixOp(o) && t != [] && Parse(sub, OpLevel(o) + 1, t) == Some(Parsed(left, [Infix(o)] + right))
    requires Parse(sub, OpLevel(o) + 1, right).None?
    ensures Parse(sub, OpLevel(o), t).None?
  {
    LevelsAre(o, o);
    assert ([Infix(o)] + right)[1..] == right;
  }

  /** Below the level of NOT nothing begins with NOT. */
  lemma {:induction false} NoNot(sub: SubParser, t: Tokens, k: Level)
    requires t != [] && t[0] == NotKw && k > NOT
    ensures Parse(sub, k, t).None?
    decreases PRIMARY - k
  {
    if k < PRIMARY {
      NoNot(sub, t, k + 1);
    }
  }

  lemma {:induction false} NoneAbove(sub: SubParser, t: Tokens, k: Level)
    requires Parse(sub, k, t).None? && k <= UNARY && t != [] && t[0] != NotKw && t[0] != Infix(Sub)
    ensures Parse(sub, OR, t).None?
    decreases k
  {
    if k > OR {
      NoneAbove(sub, t, k - 1);
    }
  }

  /** NOT and minus repeat. */
  lemma PrefixesRepeat(sub: SubParser, t: Tokens, rest: Tokens, e: Expr)
    ensures Parse(sub, NOT, t) == Some(Parsed(e, rest)) ==> Parse(sub, NOT, [NotKw] + t) == Some(Parsed(Unary(Not, e), rest))
    ensures Parse(sub, UNARY, t) == Some(Parsed(e, rest)) ==> Parse(sub, UNARY, [Infix(Sub)] + t) == Some(Parsed(Unary(Neg, e), rest))
  {
    assert ([NotKw] + t)[1..] == t && ([Infix(Sub)] + t)[1..] == t;
  }
}
