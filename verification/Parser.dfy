/** The expression grammar of parser.c (src/parser.c:91-295) on tokens, and a printer with
    as few parentheses as the grammar allows. */
module Parsers {
  import opened Pages
  import opened Values
  import opened Expressions

  datatype Token =
    | IntLit(i: Int64) | RealLit(bits: Bits64) | StringLit(text: seq<Byte>) | NullKw
    | Ident(name: string)
    | LParen | RParen | Dot | SelectKw
    | Infix(op: Op)    // OR, AND, the comparisons, + - * /
    | NotKw
    | Other(code: nat) // tokens no expression contains

  type Tokens = seq<Token>

  /** What parse_select makes of the tokens after "( SELECT", left open: a subquery and the
      number of its tokens. */
  type SubParser = Tokens -> Option<(nat, nat)>

  datatype Parsed = Parsed(e: Expr, rest: Tokens)

  const MAX_NAME := 64

  /** copy_ident */
  function Truncated(name: string): string {
    if |name| < MAX_NAME then name else name[..MAX_NAME - 1]
  }

  function Lower(s: string): string {
    if s == "" then ""
    else [if 'A' <= s[0] <= 'Z' then s[0] + ' ' else s[0]] + Lower(s[1..])
  }

  function FuncName(fn: FuncKind): string {
    match fn
    case Count => "COUNT"
    case Sum => "SUM"
    case Avg => "AVG"
    case Min => "MIN"
    case Max => "MAX"
  }

  /** ident_is against the five aggregate names. */
  function FuncOf(name: string): Option<FuncKind> {
    if Lower(name) == Lower("COUNT") then Some(Count)
    else if Lower(name) == Lower("SUM") then Some(Sum)
    else if Lower(name) == Lower("AVG") then Some(Avg)
    else if Lower(name) == Lower("MIN") then Some(Min)
    else if Lower(name) == Lower("MAX") then Some(Max)
    else None
  }

  // ---------- precedence ----------

  /** The grammar's levels: OR, AND, NOT, comparison, additive, term, unary, primary. */
  const OR := 0
  const AND := 1
  const NOT := 2
  const COMPARISON := 3
  const ADDITIVE := 4
  const TERM := 5
  const UNARY := 6
  const PRIMARY := 7

  type Level = k: nat | k <= PRIMARY

  function OpLevel(op: Op): Level {
    match op
    case Or => OR
    case And => AND
    case Eq | Neq | Lt | Le | Gt | Ge => COMPARISON
    case Add | Sub => ADDITIVE
    case Mul | Div => TERM
    case Neg => UNARY
    case Not => NOT
  }

  /** Is the next token an operator of this level? */
  predicate AtOp(t: Tokens, k: Level) {
    t != [] && t[0].Infix? && OpLevel(t[0].op) == k
  }

  // ---------- parsing ----------

  /** The eight parse functions by level. */
  function Parse(sub: SubParser, k: Level, t: Tokens): (r: Option<Parsed>)
    ensures r.Some? ==> |r.value.rest| < |t|
    decreases |t|, PRIMARY - k, 1
  {
    if k == PRIMARY then ParsePrimary(sub, t)
    else if k == UNARY && t != [] && t[0] == Infix(Sub) then
      var r := Parse(sub, UNARY, t[1..]);
      if r.None? then None else Some(Parsed(Unary(Neg, r.value.e), r.value.rest))
    else if k == NOT && t != [] && t[0] == NotKw then
      var r := Parse(sub, NOT, t[1..]);
      if r.None? then None else Some(Parsed(Unary(Not, r.value.e), r.value.rest))
    else
      var first := Parse(sub, k + 1, t);
      if first.None? then None else Tail(sub, k, first.value.e, first.value.rest)
  }

  /** What follows the first operand: the loops of the left-associative levels, one operator
      at most for a comparison. */
  function Tail(sub: SubParser, k: Level, left: Expr, t: Tokens): (r: Option<Parsed>)
    ensures r.Some? ==> |r.value.rest| <= |t|
    decreases |t|, PRIMARY - k
  {
    if k == NOT || k >= UNARY || !AtOp(t, k) then Some(Parsed(left, t))
    else
      var r := Parse(sub, k + 1, t[1..]);
      if r.None? then None
      else
        var e := Binary(t[0].op, left, r.value.e);
        if k == COMPARISON then Some(Parsed(e, r.value.rest)) else Tail(sub, k, e, r.value.rest)
  }

  function ParsePrimary(sub: SubParser, t: Tokens): (r: Option<Parsed>)
    ensures r.Some? ==> |r.value.rest| < |t|
    decreases |t|, 0, 0
  {
    if t == [] then None
    else match t[0]
      case IntLit(i) => Some(Parsed(Literal(Int(i)), t[1..]))
      case RealLit(bits) => Some(Parsed(Literal(Real(bits)), t[1..]))
      case StringLit(text) => Some(Parsed(Literal(Text(text)), t[1..]))
      case NullKw => Some(Parsed(Literal(Null), t[1..]))
      case LParen =>
        if |t| > 1 && t[1] == SelectKw then
          var s := sub(t[2..]);
          if s.None? || s.value.1 > |t| - 2 then None else Closed(Some(Parsed(Subquery(s.value.0), t[2 + s.value.1..])))
        else
          Closed(Parse(sub, OR, t[1..]))
      case Ident(name) =>
        var fn := FuncOf(name);
        if fn.Some? && |t| > 1 && t[1] == LParen then
          if fn.value == Count && |t| > 2 && t[2] == Infix(Mul) then Closed(Some(Parsed(Func(Count, true, None), t[3..])))
          else Call(fn.value, Parse(sub, OR, t[2..]))
        else if |t| > 1 && t[1] == Dot then
          if |t| > 2 && t[2].Ident? then Some(Parsed(Column(Truncated(name), Truncated(t[2].name)), t[3..]))
          else None
        else Some(Parsed(Column("", Truncated(name)), t[1..]))
      case _ => None
  }

  /** An aggregate call after its argument. */
  function Call(fn: FuncKind, arg: Option<Parsed>): (c: Option<Parsed>)
    ensures c.Some? ==> arg.Some? && c.value.e == Func(fn, false, Some(arg.value.e)) && arg.value.rest == [RParen] + c.value.rest
  {
    if arg.None? then None else Closed(Some(Parsed(Func(fn, false, Some(arg.value.e)), arg.value.rest)))
  }

  /** A closing parenthesis is expected. */
  function Closed(r: Option<Parsed>): (c: Option<Parsed>)
    ensures c.Some? ==> r.Some? && c.value.e == r.value.e && r.value.rest == [RParen] + c.value.rest
  {
    if r.Some? && r.value.rest != [] && r.value.rest[0] == RParen then Some(Parsed(r.value.e, r.value.rest[1..]))
    else None
  }

  // ---------- printing ----------

  function LevelOf(e: Expr): Level {
    match e
    case Binary(op, _, _) => OpLevel(op)
    case Unary(op, _) => OpLevel(op)
    case _ => PRIMARY
  }

  /** As an operand of level k: in parentheses when the expression binds less tightly. */
  function Print(e: Expr, k: Level): Tokens
    decreases e, 1
  {
    if LevelOf(e) < k then [LParen] + Body(e) + [RParen] else Body(e)
  }

  function Body(e: Expr): Tokens
    decreases e, 0
  {
    match e
    case Literal(v) =>
      (match v
       case Int(i) => [IntLit(i)]
       case Real(bits) => [RealLit(bits)]
       case Text(text) => [StringLit(text)]
       case Null => [NullKw])
    case Column(table, column) => if table == "" then [Ident(column)] else [Ident(table), Dot, Ident(column)]
    case Unary(op, x) => [if op == Neg then Infix(Sub) else NotKw] + Print(x, LevelOf(e))
    case Binary(op, l, r) => Print(l, LeftLevel(op)) + ([Infix(op)] + Print(r, RightLevel(op)))
    case Func(fn, star, arg) =>
      [Ident(FuncName(fn)), LParen] + (if arg.Some? then Print(arg.value, OR) else [Infix(Mul)]) + [RParen]
    case Subquery(_) => []
  }

  /** Left-associative, but comparisons do not associate. */
  function LeftLevel(op: Op): Level {
    if OpLevel(op) == COMPARISON then ADDITIVE else OpLevel(op)
  }

  function RightLevel(op: Op): Level {
    if OpLevel(op) < PRIMARY then OpLevel(op) + 1 else PRIMARY
  }

  /** The expressions the grammar produces, subqueries apart. */
  predicate Printable(e: Expr) {
    match e
    case Literal(_) => true
    case Column(table, column) => |table| < MAX_NAME && |column| < MAX_NAME
    case Unary(op, x) => op in {Neg, Not} && Printable(x)
    case Binary(op, l, r) => op !in {Neg, Not} && Printable(l) && Printable(r)
    case Func(fn, star, arg) => if star then fn == Count && arg.None? else arg.Some? && Printable(arg.value)
    case Subquery(_) => false
  }

  /** What may follow an operand of level k: no operator that binds more tightly, and
      nothing that would continue a name. */
  predicate Follows(t: Tokens, k: Level) {
    t != [] ==>
      && t[0] != Dot && t[0] != LParen
      && (t[0].Infix? ==> OpLevel(t[0].op) <= if k == COMPARISON then NOT else k)
  }

  lemma {:induction false} FirstToken(e: Expr, k: Level)
    requires Printable(e)
    ensures Print(e, k) != []
    ensures Print(e, k)[0] != SelectKw && Print(e, k)[0] != Infix(Mul)
    ensures k > NOT ==> Print(e, k)[0] != NotKw
    ensures k > UNARY ==> Print(e, k)[0] != Infix(Sub)
    decreases e
  {
    if LevelOf(e) >= k && e.Binary? {
      FirstToken(e.left, LeftLevel(e.op));
    }
  }

  lemma FuncNames(fn: FuncKind)
    ensures FuncOf(FuncName(fn)) == Some(fn)
  {
    LowerNames();
  }

  lemma LowerNames()
    ensures Lower("COUNT") == "count" && Lower("SUM") == "sum" && Lower("AVG") == "avg" && Lower("MIN") == "min" && Lower("MAX") == "max"
  {}

  /** Printing at any level and parsing at that level gives the expression back and goes on
      with the tokens that follow. */
  lemma {:induction false} PrintParses(sub: SubParser, e: Expr, k: Level, rest: Tokens)
    requires Printable(e) && Follows(rest, k)
    ensures Parse(sub, k, Print(e, k) + rest) == Tail(sub, k, e, rest)
    decreases e, if LevelOf(e) < k then 1 else 0, PRIMARY - k, 1
  {
    var t := Print(e, k) + rest;
    if k == PRIMARY {
      PrimaryParses(sub, e, rest);
    } else if LevelOf(e) == k && e.Unary? {
      PrintParses(sub, e.operand, k, rest);
      UnaryParses(sub, e.op, e.operand, rest);
    } else if LevelOf(e) == k {
      var right := Print(e.right, RightLevel(e.op)) + rest;
      var after := [Infix(e.op)] + right;
      BinaryPrinted(e, rest);
      PrintParses(sub, e.left, LeftLevel(e.op), after);
      PrintParses(sub, e.right, RightLevel(e.op), rest);
      BinaryParses(sub, e.op, e.left, e.right, t, after, rest);
    } else {
      assert Print(e, k + 1) == Print(e, k);
      PrintParses(sub, e, k + 1, rest);
      FirstToken(e, k + 1);
      assert t[0] == Print(e, k + 1)[0];
      TighterParses(sub, k, e, t, rest);
    }
  }

  lemma BinaryPrinted(e: Expr, rest: Tokens)
    requires Printable(e) && e.Binary?
    ensures Print(e, LevelOf(e)) + rest == Print(e.left, LeftLevel(e.op)) + ([Infix(e.op)] + (Print(e.right, RightLevel(e.op)) + rest))
  {}

  /** An operand that binds more tightly than the level. */
  lemma TighterParses(sub: SubParser, k: Level, e: Expr, t: Tokens, rest: Tokens)
    requires k < PRIMARY && Follows(rest, k) && Parse(sub, k + 1, t) == Tail(sub, k + 1, e, rest)
    requires t != [] && (k == UNARY ==> t[0] != Infix(Sub)) && (k == NOT ==> t[0] != NotKw)
    ensures Parse(sub, k, t) == Tail(sub, k, e, rest)
  {
    assert Tail(sub, k + 1, e, rest) == Some(Parsed(e, rest));
  }

  lemma {:induction false} UnaryParses(sub: SubParser, op: Op, x: Expr, rest: Tokens)
    requires op in {Neg, Not} && Follows(rest, OpLevel(op))
    requires Parse(sub, OpLevel(op), Print(x, OpLevel(op)) + rest) == Tail(sub, OpLevel(op), x, rest)
    ensures Parse(sub, OpLevel(op), Print(Unary(op, x), OpLevel(op)) + rest) == Tail(sub, OpLevel(op), Unary(op, x), rest)
  {
    var first, inner := if op == Neg then Infix(Sub) else NotKw, Print(x, OpLevel(op));
    var t := [first] + (inner + rest);
    assert Print(Unary(op, x), OpLevel(op)) + rest == t by {
      assert Print(Unary(op, x), OpLevel(op)) == Body(Unary(op, x)) == [first] + inner;
    }
    assert t[1..] == inner + rest;
  }

  lemma BinaryParses(sub: SubParser, op: Op, left: Expr, right: Expr, t: Tokens, after: Tokens, rest: Tokens)
    requires op !in {Neg, Not} && Follows(rest, OpLevel(op)) && after != [] && after[0] == Infix(op)
    requires Parse(sub, LeftLevel(op), t) == Tail(sub, LeftLevel(op), left, after)
    requires Parse(sub, RightLevel(op), after[1..]) == Tail(sub, RightLevel(op), right, rest)
    ensures Parse(sub, OpLevel(op), t) == Tail(sub, OpLevel(op), Binary(op, left, right), rest)
  {
    var k := OpLevel(op);
    assert Tail(sub, k + 1, right, rest) == Some(Parsed(right, rest));
    assert AtOp(after, k);
    if k == COMPARISON {
      assert Tail(sub, ADDITIVE, left, after) == Some(Parsed(left, after));
    }
  }

  lemma {:induction false} PrimaryParses(sub: SubParser, e: Expr, rest: Tokens)
    requires Printable(e) && Follows(rest, PRIMARY)
    ensures ParsePrimary(sub, Print(e, PRIMARY) + rest) == Some(Parsed(e, rest))
    decreases e, if LevelOf(e) < PRIMARY then 1 else 0, 0, 0
  {
    var t := Print(e, PRIMARY) + rest;
    if LevelOf(e) < PRIMARY {
      PrintParses(sub, e, OR, [RParen] + rest);
      ParenParses(sub, e, rest);
    } else if e.Func? {
      if e.star {
        CountStarParses(sub, rest);
      } else {
        PrintParses(sub, e.arg.value, OR, [RParen] + rest);
        FuncParses(sub, e.fn, e.arg.value, rest);
      }
    } else {
      assert t[|Body(e)|..] == rest;
    }
  }

  lemma ParenParses(sub: SubParser, e: Expr, rest: Tokens)
    requires Printable(e) && LevelOf(e) < PRIMARY
    requires Parse(sub, OR, Print(e, OR) + ([RParen] + rest)) == Some(Parsed(e, [RParen] + rest))
    ensures ParsePrimary(sub, Print(e, PRIMARY) + rest) == Some(Parsed(e, rest))
  {
    var inner := Print(e, OR) + ([RParen] + rest);
    var t := [LParen] + inner;
    FirstToken(e, OR);
    assert t[1..] == inner && t[1] == Print(e, OR)[0];
    assert t == Print(e, PRIMARY) + rest;
    assert ([RParen] + rest)[1..] == rest;
  }

  lemma CountStarParses(sub: SubParser, rest: Tokens)
    ensures ParsePrimary(sub, Print(Func(Count, true, None), PRIMARY) + rest) == Some(Parsed(Func(Count, true, None), rest))
  {
    var t := [Ident(FuncName(Count)), LParen] + [Infix(Mul)] + [RParen] + rest;
    FuncNames(Count);
    assert t[3..] == [RParen] + rest;
    assert t == Print(Func(Count, true, None), PRIMARY) + rest;
  }

  lemma FuncParses(sub: SubParser, fn: FuncKind, arg: Expr, rest: Tokens)
    requires Printable(arg) && Parse(sub, OR, Print(arg, OR) + ([RParen] + rest)) == Some(Parsed(arg, [RParen] + rest))
    ensures ParsePrimary(sub, Print(Func(fn, false, Some(arg)), PRIMARY) + rest) == Some(Parsed(Func(fn, false, Some(arg)), rest))
  {
    var inner := Print(arg, OR) + ([RParen] + rest);
    var t := [Ident(FuncName(fn)), LParen] + inner;
    assert t[2..] == inner;
    FirstToken(arg, OR);
    assert t[2] == Print(arg, OR)[0];
    FuncNames(fn);
    OpenFunc(sub, fn, t);
    assert ([RParen] + rest)[1..] == rest;
    FuncTokens(fn, arg, rest);
  }

  lemma FuncTokens(fn: FuncKind, arg: Expr, rest: Tokens)
    ensures Print(Func(fn, false, Some(arg)), PRIMARY) + rest == [Ident(FuncName(fn)), LParen] + (Print(arg, OR) + ([RParen] + rest))
  {
    var p, name := Print(arg, OR), FuncName(fn);
    assert Body(Func(fn, false, Some(arg))) == [Ident(name), LParen] + p + [RParen];
    assert ([Ident(name), LParen] + p + [RParen]) + rest == [Ident(name), LParen] + (p + ([RParen] + rest));
  }

  lemma {:induction false} OpenFunc(sub: SubParser, fn: FuncKind, t: Tokens)
    requires |t| > 1 && t[0].Ident? && FuncOf(t[0].name) == Some(fn) && t[1] == LParen
    requires !(fn == Count && |t| > 2 && t[2] == Infix(Mul))
    ensures ParsePrimary(sub, t) == Call(fn, Parse(sub, OR, t[2..]))
  {
  }

  lemma {:induction false} SubqueryReads(sub: SubParser, t: Tokens)
    requires |t| > 1 && t[0] == LParen && t[1] == SelectKw
    ensures var s := sub(t[2..]);
            Parse(sub, PRIMARY, t) == if s.None? || s.value.1 > |t| - 2 then None else Closed(Some(Parsed(Subquery(s.value.0), t[2 + s.value.1..])))
  {}

  /** parse_or on the printed tokens gives the same expression and consumes exactly those
      tokens, whatever follows that cannot continue an expression. */
  lemma PrintedExpressionParses(sub: SubParser, e: Expr, rest: Tokens)
    requires Printable(e) && (rest != [] ==> !rest[0].Infix? && rest[0] != Dot && rest[0] != LParen)
    ensures Parse(sub, OR, Print(e, OR) + rest) == Some(Parsed(e, rest))
  {
    PrintParses(sub, e, OR, rest);
  }

  /** No other expressions come out of the parser: an expression without subqueries is
      printable exactly if some tokens parse to it. */
  lemma {:induction false} ParsedIsPrintable(sub: SubParser, k: Level, t: Tokens)
    requires Parse(sub, k, t).Some? && NoSubquery(Parse(sub, k, t).value.e)
    ensures Printable(Parse(sub, k, t).value.e)
    decreases |t|, PRIMARY - k, 1
  {
    if k == PRIMARY {
      PrimaryIsPrintable(sub, t);
    } else if k == UNARY && t != [] && t[0] == Infix(Sub) {
      ParsedIsPrintable(sub, UNARY, t[1..]);
    } else if k == NOT && t != [] && t[0] == NotKw {
      ParsedIsPrintable(sub, NOT, t[1..]);
    } else {
      var first := Parse(sub, k + 1, t).value;
      TailKeepsLeft(sub, k, first.e, first.rest);
      ParsedIsPrintable(sub, k + 1, t);
      TailIsPrintable(sub, k, first.e, first.rest);
    }
  }

  lemma {:induction false} PrimaryIsPrintable(sub: SubParser, t: Tokens)
    requires ParsePrimary(sub, t).Some? && NoSubquery(ParsePrimary(sub, t).value.e)
    ensures Printable(ParsePrimary(sub, t).value.e)
    decreases |t|, 0, 0
  {
    if t[0].LParen? && !(|t| > 1 && t[1] == SelectKw) {
      ParsedIsPrintable(sub, OR, t[1..]);
    } else if t[0].Ident? && FuncOf(t[0].name).Some? && |t| > 1 && t[1] == LParen {
      if !(FuncOf(t[0].name).value == Count && |t| > 2 && t[2] == Infix(Mul)) {
        ParsedIsPrintable(sub, OR, t[2..]);
      }
    }
  }

  /** The first operand stays part of the expression. */
  lemma {:induction false} TailKeepsLeft(sub: SubParser, k: Level, left: Expr, t: Tokens)
    requires Tail(sub, k, left, t).Some? && NoSubquery(Tail(sub, k, left, t).value.e)
    ensures NoSubquery(left)
    decreases |t|
  {
    if !(k == NOT || k >= UNARY || !AtOp(t, k)) && k != COMPARISON {
      var r := Parse(sub, k + 1, t[1..]).value;
      TailKeepsLeft(sub, k, Binary(t[0].op, left, r.e), r.rest);
    }
  }

  lemma {:induction false} TailIsPrintable(sub: SubParser, k: Level, left: Expr, t: Tokens)
    requires Tail(sub, k, left, t).Some? && NoSubquery(Tail(sub, k, left, t).value.e) && Printable(left)
    ensures Printable(Tail(sub, k, left, t).value.e)
    decreases |t|, PRIMARY - k
  {
    if !(k == NOT || k >= UNARY || !AtOp(t, k)) {
      var r := Parse(sub, k + 1, t[1..]).value;
      var e := Binary(t[0].op, left, r.e);
      if k != COMPARISON {
        TailKeepsLeft(sub, k, e, r.rest);
      }
      ParsedIsPrintable(sub, k + 1, t[1..]);
      if k != COMPARISON {
        TailIsPrintable(sub, k, e, r.rest);
      }
    }
  }

  // ---------- string literals ----------

  const QUOTE: Byte := 39

  /** A text between the quotes of a literal: quotes doubled. */
  function Quoted(text: seq<Byte>): seq<Byte> {
    if text == [] then []
    else (if text[0] == QUOTE then [QUOTE, QUOTE] else [text[0]]) + Quoted(text[1..])
  }

  /** unescape_string on what stands between the quotes. */
  function Unescape(src: seq<Byte>): seq<Byte> {
    if src == [] then []
    else if src[0] == QUOTE && |src| > 1 && src[1] == QUOTE then [QUOTE] + Unescape(src[2..])
    else [src[0]] + Unescape(src[1..])
  }

  /** Any text survives quoting and reading back. */
  lemma {:induction false} UnescapeQuoted(text: seq<Byte>)
    ensures Unescape(Quoted(text)) == text
  {
    if text != [] {
      UnescapeQuoted(text[1..]);
      var head := if text[0] == QUOTE then [QUOTE, QUOTE] else [text[0]];
      assert Quoted(text)[|head|..] == Quoted(text[1..]);
    }
  }

  method UnescapeString(src: seq<Byte>) returns (out: seq<Byte>)
    ensures out == Unescape(src)
  {
    out := [];
    var i := 0;
    while i < |src|
      invariant i <= |src| && out + Unescape(src[i..]) == Unescape(src)
    {
      UnescapeStep(src, i, out);
      if src[i] == QUOTE && i + 1 < |src| && src[i + 1] == QUOTE {
        out := out + [QUOTE];
        i := i + 1;
      } else {
        out := out + [src[i]];
      }
      i := i + 1;
    }
  }

  lemma UnescapeStep(src: seq<Byte>, i: nat, out: seq<Byte>)
    requires i < |src|
    ensures var n := if src[i] == QUOTE && i + 1 < |src| && src[i + 1] == QUOTE then 2 else 1;
            out + Unescape(src[i..]) == out + [src[i]] + Unescape(src[i + n..])
  {
    assert src[i..][1..] == src[i + 1..];
    if src[i] == QUOTE && i + 1 < |src| && src[i + 1] == QUOTE {
      assert src[i..][2..] == src[i + 2..];
    }
    assert out + ([src[i]] + Unescape(src[i + 1..])) == out + [src[i]] + Unescape(src[i + 1..]);
  }

  // ---------- the parser ----------

  class Parser {
    const tokens: Tokens
    const sub: SubParser
    var pos: nat
    var failed: bool

    constructor (tokens: Tokens, sub: SubParser)
      ensures this.tokens == tokens && this.sub == sub && pos == 0 && !failed
    {
      this.tokens, this.sub, pos, failed := tokens, sub, 0, false;
    }

    predicate Valid()
      reads this
    {
      pos <= |tokens| && !failed
    }

    function Rest(): Tokens
      requires pos <= |tokens|
      reads this
    {
      tokens[pos..]
    }

    predicate Check(tok: Token)
      reads this
    {
      !failed && pos < |tokens| && tokens[pos] == tok
    }

    predicate CheckOp(k: Level)
      reads this
    {
      !failed && pos < |tokens| && tokens[pos].Infix? && OpLevel(tokens[pos].op) == k
    }

    method Advance()
      requires Valid() && pos < |tokens|
      modifies this
      ensures Valid() && Rest() == old(Rest())[1..] && pos == old(pos) + 1
    {
      pos := pos + 1;
    }

    method Expect(tok: Token) returns (ok: bool)
      requires Valid()
      modifies this
      ensures ok <==> old(Check(tok))
      ensures if ok then Valid() && Rest() == old(Rest())[1..] && pos == old(pos) + 1 else failed
    {
      ok := Check(tok);
      if ok {
        Advance();
      } else {
        failed := true;
      }
    }

    /** What a parse method has done: it agrees with the grammar on the tokens ahead. */
    ghost predicate Agrees(r: Option<Parsed>, e: Option<Expr>)
      reads this
    {
      && e.Some? == r.Some? && failed == e.None?
      && (e.Some? ==> pos <= |tokens| && r == Some(Parsed(e.value, Rest())))
    }

    method ParsePrimary() returns (e: Option<Expr>)
      requires Valid()
      modifies this
      decreases |tokens| - pos, 0
      ensures Agrees(Parse(sub, PRIMARY, old(Rest())), e)
    {
      if pos == |tokens| {
        failed := true;
        return None;
      }
      ghost var t := Rest();
      assert t[0] == tokens[pos] && |t| == |tokens| - pos;
      match tokens[pos] {
        case IntLit(i) =>
          Advance();
          e := Some(Literal(Int(i)));
        case RealLit(bits) =>
          Advance();
          e := Some(Literal(Real(bits)));
        case StringLit(text) =>
          Advance();
          e := Some(Literal(Text(text)));
        case NullKw =>
          Advance();
          e := Some(Literal(Null));
        case LParen =>
          e := ParseParenthesis();
        case Ident(name) =>
          if FuncOf(name).Some? && pos + 1 < |tokens| && tokens[pos + 1] == LParen {
            e := ParseFunc(FuncOf(name).value);
          } else {
            e := ParseColumn(name);
          }
        case _ =>
          failed := true;
          e := None;
      }
    }

    method ParseParenthesis() returns (e: Option<Expr>)
      requires Valid() && Check(LParen)
      modifies this
      decreases |tokens| - pos, 0, 1
      ensures Agrees(Parse(sub, PRIMARY, old(Rest())), e)
    {
      ghost var t := Rest();
      if pos + 1 < |tokens| && tokens[pos + 1] == SelectKw {
        e := ParseSubquery();
      } else {
        Advance();
        e := ParseOr();
        if e.Some? {
          var ok := Expect(RParen);
          e := if ok then e else None;
        }
      }
    }

    method ParseSubquery() returns (e: Option<Expr>)
      requires Valid() && |Rest()| > 1 && Rest()[0] == LParen && Rest()[1] == SelectKw
      modifies this
      ensures Agrees(Parse(sub, PRIMARY, old(Rest())), e)
    {
      ghost var t := Rest();
      SubqueryReads(sub, t);
      hide Parse, Tail;
      Advance();
      Advance();
      assert Rest() == t[2..];
      var s := sub(Rest());
      if s.None? || s.value.1 > |tokens| - pos {
        failed := true;
        return None;
      }
      pos := pos + s.value.1;
      assert Rest() == t[2 + s.value.1..];
      var ok := Expect(RParen);
      e := if ok then Some(Subquery(s.value.0)) else None;
    }

    method ParseFunc(fn: FuncKind) returns (e: Option<Expr>)
      requires Valid() && |Rest()| > 1 && Rest()[0].Ident? && FuncOf(Rest()[0].name) == Some(fn) && Rest()[1] == LParen
      modifies this
      decreases |tokens| - pos, 0, 1
      ensures Agrees(Parse(sub, PRIMARY, old(Rest())), e)
    {
      if fn == Count && pos + 2 < |tokens| && tokens[pos + 2] == Infix(Mul) {
        e := ParseCountStar();
      } else {
        OpenFunc(sub, fn, Rest());
        e := ParseCall(fn);
      }
    }

    /** The name, the parenthesis, the argument and the closing parenthesis. */
    method ParseCall(fn: FuncKind) returns (e: Option<Expr>)
      requires Valid() && |Rest()| > 1
      modifies this
      decreases |tokens| - pos, 0, 0
      ensures Agrees(Call(fn, Parse(sub, OR, old(Rest())[2..])), e)
    {
      ghost var t := Rest();
      Advance();
      Advance();
      assert Rest() == t[2..];
      var arg := ParseOr();
      if arg.None? {
        return None;
      }
      var ok := Expect(RParen);
      e := if ok then Some(Func(fn, false, arg)) else None;
    }

    method ParseCountStar() returns (e: Option<Expr>)
      requires Valid() && |Rest()| > 2 && Rest()[0].Ident? && FuncOf(Rest()[0].name) == Some(Count)
      requires Rest()[1] == LParen && Rest()[2] == Infix(Mul)
      modifies this
      ensures Agrees(Parse(sub, PRIMARY, old(Rest())), e)
    {
      ghost var t := Rest();
      Advance();
      Advance();
      Advance();
      assert Rest() == t[3..];
      var ok := Expect(RParen);
      e := if ok then Some(Func(Count, true, None)) else None;
    }

    method ParseColumn(name: string) returns (e: Option<Expr>)
      requires Valid() && pos < |tokens| && Rest()[0] == Ident(name)
      requires !(FuncOf(name).Some? && |Rest()| > 1 && Rest()[1] == LParen)
      modifies this
      ensures Agrees(Parse(sub, PRIMARY, old(Rest())), e)
    {
      ghost var t := Rest();
      Advance();
      if Check(Dot) {
        Advance();
        if pos == |tokens| || !tokens[pos].Ident? {
          failed := true;
          return None;
        }
        e := Some(Column(Truncated(name), Truncated(tokens[pos].name)));
        Advance();
        assert Rest() == t[3..];
      } else {
        e := Some(Column("", Truncated(name)));
      }
    }

    method ParseUnary() returns (e: Option<Expr>)
      requires Valid()
      modifies this
      decreases |tokens| - pos, 1
      ensures Agrees(Parse(sub, UNARY, old(Rest())), e)
    {
      if Check(Infix(Sub)) {
        Advance();
        var x := ParseUnary();
        e := if x.None? then None else Some(Unary(Neg, x.value));
      } else {
        e := ParsePrimary();
      }
    }

    method ParseTerm() returns (e: Option<Expr>)
      requires Valid()
      modifies this
      decreases |tokens| - pos, 2
      ensures Agrees(Parse(sub, TERM, old(Rest())), e)
    {
      e := ParseUnary();
      while e.Some? && CheckOp(TERM)
        invariant e.None? ==> failed && Parse(sub, TERM, old(Rest())).None?
        invariant e.Some? ==> Valid() && old(pos) < pos && Tail(sub, TERM, e.value, Rest()) == Parse(sub, TERM, old(Rest()))
        decreases e.Some?, |tokens| - pos
      {
        var op := tokens[pos].op;
        Advance();
        var right := ParseUnary();
        e := if right.None? then None else Some(Binary(op, e.value, right.value));
      }
    }

    method ParseAdditive() returns (e: Option<Expr>)
      requires Valid()
      modifies this
      decreases |tokens| - pos, 3
      ensures Agrees(Parse(sub, ADDITIVE, old(Rest())), e)
    {
      e := ParseTerm();
      while e.Some? && CheckOp(ADDITIVE)
        invariant e.None? ==> failed && Parse(sub, ADDITIVE, old(Rest())).None?
        invariant e.Some? ==> Valid() && old(pos) < pos && Tail(sub, ADDITIVE, e.value, Rest()) == Parse(sub, ADDITIVE, old(Rest()))
        decreases e.Some?, |tokens| - pos
      {
        var op := tokens[pos].op;
        Advance();
        var right := ParseTerm();
        e := if right.None? then None else Some(Binary(op, e.value, right.value));
      }
    }

    method ParseComparison() returns (e: Option<Expr>)
      requires Valid()
      modifies this
      decreases |tokens| - pos, 4
      ensures Agrees(Parse(sub, COMPARISON, old(Rest())), e)
    {
      e := ParseAdditive();
      if e.Some? && CheckOp(COMPARISON) {
        var op := tokens[pos].op;
        Advance();
        var right := ParseAdditive();
        e := if right.None? then None else Some(Binary(op, e.value, right.value));
      }
    }

    method ParseNot() returns (e: Option<Expr>)
      requires Valid()
      modifies this
      decreases |tokens| - pos, 5
      ensures Agrees(Parse(sub, NOT, old(Rest())), e)
    {
      if Check(NotKw) {
        Advance();
        var x := ParseNot();
        e := if x.None? then None else Some(Unary(Not, x.value));
      } else {
        e := ParseComparison();
      }
    }

    method ParseAnd() returns (e: Option<Expr>)
      requires Valid()
      modifies this
      decreases |tokens| - pos, 6
      ensures Agrees(Parse(sub, AND, old(Rest())), e)
    {
      e := ParseNot();
      while e.Some? && CheckOp(AND)
        invariant e.None? ==> failed && Parse(sub, AND, old(Rest())).None?
        invariant e.Some? ==> Valid() && old(pos) < pos && Tail(sub, AND, e.value, Rest()) == Parse(sub, AND, old(Rest()))
        decreases e.Some?, |tokens| - pos
      {
        Advance();
        var right := ParseNot();
        e := if right.None? then None else Some(Binary(And, e.value, right.value));
      }
    }

    /** parse_or and the levels below it, on the tokens ahead. */
    method ParseOr() returns (e: Option<Expr>)
      requires Valid()
      modifies this
      decreases |tokens| - pos, 7
      ensures Agrees(Parse(sub, OR, old(Rest())), e)
    {
      e := ParseAnd();
      while e.Some? && CheckOp(OR)
        invariant e.None? ==> failed && Parse(sub, OR, old(Rest())).None?
        invariant e.Some? ==> Valid() && old(pos) < pos && Tail(sub, OR, e.value, Rest()) == Parse(sub, OR, old(Rest()))
        decreases e.Some?, |tokens| - pos
      {
        Advance();
        var right := ParseAnd();
        e := if right.None? then None else Some(Binary(Or, e.value, right.value));
      }
    }
  }
}
