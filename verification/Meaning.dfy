/** What expressions mean (src/executor.c:63-235): comparisons by the order of the values,
    three-valued logic, arithmetic, names, and which condition an index serves. */
module Meanings {
  import opened Pages
  import opened Values
  import opened Expressions

  // ---------- comparisons ----------

  predicate SameType(a: Value, b: Value) {
    (a.Int? && b.Int?) || (a.Real? && b.Real?) || (a.Text? && b.Text?)
  }

  /** A condition without a value is kept, one that is NULL is not. */
  lemma ConditionsMean(m: Machine, e: Expr, ctx: Context)
    ensures Keeps(m, None, ctx) == Some(true)
    ensures Keeps(m, Some(e), ctx).None? <==> Eval(m, e, ctx).None?
    ensures Eval(m, e, ctx).Some? ==> Keeps(m, Some(e), ctx) == Some(IsTrue(Eval(m, e, ctx).value))
  {
    if Eval(m, e, ctx).Some? {
      TruthMeans(Eval(m, e, ctx).value);
    }
  }

  /** The six comparisons of two values of one type, by the order of integers, numbers and
      bytes. */
  lemma ComparisonsMean(m: Machine, l: Expr, r: Expr, ctx: Context, a: Value, b: Value)
    requires Eval(m, l, ctx) == Some(a) && Eval(m, r, ctx) == Some(b) && SameType(a, b)
    ensures Keeps(m, Some(Binary(Lt, l, r)), ctx) == Some(Less(a, b))
    ensures Keeps(m, Some(Binary(Gt, l, r)), ctx) == Some(Less(b, a))
    ensures Keeps(m, Some(Binary(Eq, l, r)), ctx) == Some(Same(a, b))
    ensures Keeps(m, Some(Binary(Neq, l, r)), ctx) == Some(!Same(a, b))
    ensures Keeps(m, Some(Binary(Le, l, r)), ctx) == Some(Less(a, b) || Same(a, b))
    ensures Keeps(m, Some(Binary(Ge, l, r)), ctx) == Some(Less(b, a) || Same(a, b))
    ensures forall op :: op in {Eq, Neq, Lt, Le, Gt, Ge} ==>
              Eval(m, Binary(op, l, r), ctx) == Some(Int(if Keeps(m, Some(Binary(op, l, r)), ctx) == Some(true) then 1 else 0))
  {
    hide Eval, Keeps;
    CompareMeans(a, b);
    forall op | op in {Eq, Neq, Lt, Le, Gt, Ge}
      ensures Eval(m, Binary(op, l, r), ctx) == Some(Int(if Holds(op, ValueCompare(a, b)) then 1 else 0))
      ensures Keeps(m, Some(Binary(op, l, r)), ctx) == Some(Holds(op, ValueCompare(a, b)))
    {
      ComparisonHolds(m, op, l, r, ctx, a, b);
    }
  }

  lemma ComparisonHolds(m: Machine, op: Op, l: Expr, r: Expr, ctx: Context, a: Value, b: Value)
    requires Eval(m, l, ctx) == Some(a) && Eval(m, r, ctx) == Some(b) && SameType(a, b) && op in {Eq, Neq, Lt, Le, Gt, Ge}
    ensures Eval(m, Binary(op, l, r), ctx) == Some(Int(if Holds(op, ValueCompare(a, b)) then 1 else 0))
    ensures Keeps(m, Some(Binary(op, l, r)), ctx) == Some(Holds(op, ValueCompare(a, b)))
  {
    hide Holds, ValueCompare;
  }

  // ---------- NULL and failure ----------

  /** What NULL does: no comparison with it is kept, and arithmetic with it is NULL. */
  lemma NullMeans(m: Machine, op: Op, l: Expr, r: Expr, ctx: Context)
    requires Eval(m, l, ctx).Some? && Eval(m, r, ctx).Some? && op !in {And, Or}
    requires Eval(m, l, ctx).value.Null? || Eval(m, r, ctx).value.Null?
    ensures Eval(m, Binary(op, l, r), ctx) == Some(Null)
    ensures Keeps(m, Some(Binary(op, l, r)), ctx) == Some(false)
  {}

  /** No operator hides the failure of an operand, AND and OR included. */
  lemma FailureMeans(m: Machine, op: Op, l: Expr, r: Expr, ctx: Context)
    requires Eval(m, l, ctx).None?
    ensures Eval(m, Unary(op, l), ctx).None? && Eval(m, Binary(op, l, r), ctx).None? && Eval(m, Binary(op, r, l), ctx).None?
    ensures Keeps(m, Some(Binary(op, l, r)), ctx).None?
  {}

  // ---------- truth ----------

  ghost predicate IsTrue(v: Value) {
    || (v.Int? && v.i != 0)
    || (v.Real? && (IsNan(v.bits) || Number(v.bits) != 0))
    || (v.Text? && v.text != [])
  }

  ghost predicate IsFalse(v: Value) {
    !v.Null? && !IsTrue(v)
  }

  lemma TruthMeans(v: Value)
    ensures Truthy(v) <==> IsTrue(v)
  {
    if v.Real? && !IsZero(v.bits) {
      MagnitudeGrows(0, Unsigned(v.bits));
    }
  }

  /** The three-valued tables of AND, OR and NOT. */
  lemma ConnectivesMean(m: Machine, l: Expr, r: Expr, ctx: Context, a: Value, b: Value)
    requires Eval(m, l, ctx) == Some(a) && Eval(m, r, ctx) == Some(b)
    ensures Eval(m, Binary(And, l, r), ctx)
            == Some(if IsTrue(a) && IsTrue(b) then Int(1) else if IsFalse(a) || IsFalse(b) then Int(0) else Null)
    ensures Eval(m, Binary(Or, l, r), ctx)
            == Some(if IsTrue(a) || IsTrue(b) then Int(1) else if IsFalse(a) && IsFalse(b) then Int(0) else Null)
    ensures Eval(m, Unary(Not, l), ctx) == Some(if IsTrue(a) then Int(0) else if IsFalse(a) then Int(1) else Null)
    ensures Keeps(m, Some(Binary(And, l, r)), ctx) == Some(IsTrue(a) && IsTrue(b))
    ensures Keeps(m, Some(Binary(Or, l, r)), ctx) == Some(IsTrue(a) || IsTrue(b))
    ensures Keeps(m, Some(Unary(Not, l)), ctx) == Some(IsFalse(a))
  {
    TruthMeans(a);
    TruthMeans(b);
  }

  // ---------- arithmetic ----------

  /** Where the exact result fits 64 bits it is the result; division is by truncation, and by
      zero it fails. */
  lemma IntArithmeticMeans(m: Machine, l: Expr, r: Expr, ctx: Context, a: Int64, b: Int64)
    requires Eval(m, l, ctx) == Some(Int(a)) && Eval(m, r, ctx) == Some(Int(b))
    ensures InRange(a + b) ==> Eval(m, Binary(Add, l, r), ctx) == Some(Int(a + b))
    ensures InRange(a - b) ==> Eval(m, Binary(Sub, l, r), ctx) == Some(Int(a - b))
    ensures InRange(a * b) ==> Eval(m, Binary(Mul, l, r), ctx) == Some(Int(a * b))
    ensures b == 0 ==> Eval(m, Binary(Div, l, r), ctx).None?
    ensures b != 0 && !(a == -TWO63 && b == -1) ==>
              exists q: Int64, rest: int ::
                Eval(m, Binary(Div, l, r), ctx) == Some(Int(q)) && IsQuotient(a, b, q, rest)
    ensures a != -TWO63 ==> exists n: Int64 :: n + a == 0 && Eval(m, Unary(Neg, l), ctx) == Some(Int(n))
  {
    if b != 0 && !(a == -TWO63 && b == -1) {
      var q := Quotient(a, b);
      QuotientMeans(a, b);
      QuotientFits(a, b, q);
      assert Eval(m, Binary(Div, l, r), ctx) == Some(Int(q)) && IsQuotient(a, b, q, a - q * b);
    }
    if a != -TWO63 {
      var n: Int64 := 0 - a;
      assert Eval(m, Unary(Neg, l), ctx) == Some(Int(n));
    }
  }

  /** The rest is smaller than the divisor and has the sign of the dividend. */
  ghost predicate IsQuotient(a: int, b: int, q: int, rest: int) {
    a == q * b + rest && Abs(rest) < Abs(b) && (rest != 0 ==> (rest < 0) == (a < 0))
  }

  lemma QuotientMeans(a: int, b: int)
    requires b != 0
    ensures IsQuotient(a, b, Quotient(a, b), a - Quotient(a, b) * b)
  {
    var n, d := Abs(a), Abs(b);
    var q: int := n / d;
    assert n == q * d + n % d;
    assert Quotient(a, b) * b == if a < 0 then 0 - q * d else q * d;
  }

  lemma QuotientFits(a: Int64, b: Int64, q: int)
    requires b != 0 && !(a == -TWO63 && b == -1) && q == Quotient(a, b)
    ensures InRange(q)
  {
    if Abs(b) >= 2 {
      Halves(Abs(a), Abs(b));
    }
  }

  lemma Halves(n: nat, d: nat)
    requires d >= 2
    ensures 2 * (n / d) <= n
  {
    var q, rest: nat := n / d, n % d;
    assert n == q * d + rest;
    assert q * d == 2 * q + q * (d - 2);
  }

  /** Dividing a number by a zero of any type fails. */
  lemma DivisionByZeroFails(m: Machine, l: Expr, r: Expr, ctx: Context, a: Value, b: Value)
    requires Eval(m, l, ctx) == Some(a) && Eval(m, r, ctx) == Some(b) && !a.Null?
    requires b == Int(0) || (b.Real? && !IsNan(b.bits) && Number(b.bits) == 0)
    ensures Eval(m, Binary(Div, l, r), ctx).None?
  {
    TruthMeans(b);
  }

  /** Unary minus of a REAL is exact. */
  lemma NegationMeans(m: Machine, e: Expr, ctx: Context, bits: Bits64)
    requires Eval(m, e, ctx) == Some(Real(bits)) && !IsNan(bits)
    ensures exists n: Bits64 :: Eval(m, Unary(Neg, e), ctx) == Some(Real(n)) && !IsNan(n) && Number(n) + Number(bits) == 0
  {
    var n: Bits64 := if Negative(bits) then bits - TWO63 else bits + TWO63;
    Flipped(bits, n);
    assert Eval(m, Unary(Neg, e), ctx) == Some(Real(n));
  }

  lemma Flipped(a: Bits64, b: Bits64)
    requires !IsNan(a) && b == if Negative(a) then a - TWO63 else a + TWO63
    ensures !IsNan(b) && Number(b) + Number(a) == 0
  {
    assert Unsigned(b) == Unsigned(a);
  }

  /** Arithmetic on TEXT fails, unless the other operand is NULL. */
  lemma TextArithmeticFails(m: Machine, op: Op, l: Expr, r: Expr, ctx: Context, a: Value, b: Value)
    requires Eval(m, l, ctx) == Some(a) && Eval(m, r, ctx) == Some(b) && op in {Add, Sub, Mul, Div}
    requires (a.Text? && !b.Null?) || (b.Text? && !a.Null?)
    ensures Eval(m, Binary(op, l, r), ctx).None?
    ensures a.Text? ==> Eval(m, Unary(Neg, l), ctx).None?
    ensures b.Text? ==> Eval(m, Unary(Neg, r), ctx).None?
  {}

  // ---------- names ----------

  /** Column c of the i-th table bound has the name. */
  ghost predicate Place(tables: seq<Bound>, i: nat, c: nat, name: string) {
    i < |tables| && c < |tables[i].schema.columns| && tables[i].schema.columns[c] == name
  }

  ghost predicate Placed(tables: seq<Bound>, name: string) {
    exists i, c :: Place(tables, i, c, name)
  }

  ghost predicate Aliased(tables: seq<Bound>, alias: string) {
    exists i :: 0 <= i < |tables| && tables[i].schema.alias == alias
  }

  /** The innermost context with such a column, or with such a table if the name is qualified. */
  ghost function Home(ctx: Context, table: string, column: string): Option<Context>
    decreases ctx
  {
    if if table == "" then Placed(ctx.tables, column) else Aliased(ctx.tables, table) then Some(ctx)
    else if ctx.outer.Some? then Home(ctx.outer.value, table, column)
    else None
  }

  ghost predicate AllShaped(ctx: Context)
    decreases ctx
  {
    Shaped(ctx.tables) && (ctx.outer.Some? ==> AllShaped(ctx.outer.value))
  }

  /** In its home, an unqualified name is the one column of the name and fails if there are two;
      a qualified one is the first such column of the first table of that alias and fails if
      there is none.  Without a home it fails. */
  ghost predicate IsColumn(v: Option<Value>, home: Option<Context>, table: string, column: string) {
    match home
    case None => v.None?
    case Some(ctx) => if table == "" then IsOnly(v, ctx.tables, column) else IsOf(v, ctx.tables, table, column)
  }

  ghost predicate IsOnly(v: Option<Value>, tables: seq<Bound>, name: string) {
    forall i: nat, c: nat :: Place(tables, i, c, name) && c < |tables[i].row| ==>
      if OtherPlace(tables, i, c, name) then v.None? else v == Some(tables[i].row[c])
  }

  ghost predicate OtherPlace(tables: seq<Bound>, i: nat, c: nat, name: string) {
    exists j, d :: Place(tables, j, d, name) && (j != i || d != c)
  }

  ghost predicate IsOf(v: Option<Value>, tables: seq<Bound>, alias: string, name: string) {
    forall i :: 0 <= i < |tables| && tables[i].schema.alias == alias && (forall j :: 0 <= j < i ==> tables[j].schema.alias != alias) ==>
      FirstOf(v, tables[i].schema.columns, tables[i].row, name)
  }

  ghost predicate FirstOf(v: Option<Value>, columns: seq<string>, row: seq<Value>, name: string) {
    && (name !in columns ==> v.None?)
    && forall c :: 0 <= c < |columns| && c < |row| && columns[c] == name && name !in columns[..c] ==> v == Some(row[c])
  }

  lemma {:induction false} ColumnMeans(m: Machine, ctx: Context, table: string, column: string)
    requires AllShaped(ctx)
    ensures IsColumn(Eval(m, Column(table, column), ctx), Home(ctx, table, column), table, column)
    decreases ctx
  {
    if table != "" && Aliased(ctx.tables, table) {
      QualifiedMeans(m, ctx, table, column);
    } else if table == "" && Placed(ctx.tables, column) {
      UnqualifiedMeans(m, ctx, column);
    } else {
      if table == "" {
        NowhereNamed(ctx.tables, column);
      }
      if ctx.outer.Some? {
        ColumnMeans(m, ctx.outer.value, table, column);
      }
    }
  }

  lemma QualifiedMeans(m: Machine, ctx: Context, table: string, column: string)
    requires Shaped(ctx.tables) && table != "" && Aliased(ctx.tables, table)
    ensures IsOf(Eval(m, Column(table, column), ctx), ctx.tables, table, column)
  {
    hide Named, NamedIn, FirstOf;
    var i := FindAlias(ctx.tables, table);
    FirstNamed(ctx.tables[i].schema.columns, ctx.tables[i].row, column);
  }

  lemma FirstNamed(columns: seq<string>, row: seq<Value>, name: string)
    requires |row| == |columns|
    ensures var found := Named(columns, row, name); FirstOf(if found == [] then None else Some(found[0]), columns, row, name)
  {
    NamedFirst(columns, row, name);
    forall c | 0 <= c < |columns| && columns[c] == name && name !in columns[..c] ensures c == ColumnIndex(columns, name) {
      EarlierIn(columns, ColumnIndex(columns, name), c);
    }
  }

  lemma UnqualifiedMeans(m: Machine, ctx: Context, column: string)
    requires Shaped(ctx.tables) && Placed(ctx.tables, column)
    ensures IsOnly(Eval(m, Column("", column), ctx), ctx.tables, column)
  {
    forall i: nat, c: nat | Place(ctx.tables, i, c, column) && c < |ctx.tables[i].row|
      ensures if OtherPlace(ctx.tables, i, c, column) then |NamedIn(ctx.tables, column)| > 1
              else NamedIn(ctx.tables, column) == [ctx.tables[i].row[c]]
    {
      if OtherPlace(ctx.tables, i, c, column) {
        var j, d :| Place(ctx.tables, j, d, column) && (j != i || d != c);
        TwiceNamed(ctx.tables, column, i, c, j, d);
      } else {
        OnceNamed(ctx.tables, column, i, c);
      }
    }
  }

  lemma {:induction false} NamedNone(columns: seq<string>, row: seq<Value>, name: string)
    requires name !in columns
    ensures Named(columns, row, name) == []
  {
    if columns != [] && row != [] {
      NamedNone(columns[1..], row[1..], name);
    }
  }

  lemma {:induction false} NamedOnce(columns: seq<string>, row: seq<Value>, name: string, c: nat)
    requires |row| == |columns| && c < |columns| && columns[c] == name
    requires forall d :: 0 <= d < |columns| && d != c ==> columns[d] != name
    ensures Named(columns, row, name) == [row[c]]
  {
    if c == 0 {
      NamedNone(columns[1..], row[1..], name);
    } else {
      NamedOnce(columns[1..], row[1..], name, c - 1);
    }
  }

  lemma {:induction false} NamedTwice(columns: seq<string>, row: seq<Value>, name: string, c: nat, d: nat)
    requires |row| == |columns| && c < d < |columns| && columns[c] == columns[d] == name
    ensures |Named(columns, row, name)| > 1
  {
    if c == 0 {
      NamedFirst(columns[1..], row[1..], name);
      assert columns[1..][d - 1] == name;
    } else {
      NamedTwice(columns[1..], row[1..], name, c - 1, d - 1);
    }
  }

  lemma {:induction false} NowhereNamed(tables: seq<Bound>, name: string)
    requires !Placed(tables, name)
    ensures NamedIn(tables, name) == []
  {
    if tables != [] {
      var front, last := tables[..|tables| - 1], tables[|tables| - 1];
      if Placed(front, name) {
        var i, c :| Place(front, i, c, name);
        assert Place(tables, i, c, name);
      }
      NowhereNamed(front, name);
      forall c | 0 <= c < |last.schema.columns| ensures last.schema.columns[c] != name {
        assert !Place(tables, |tables| - 1, c, name);
      }
      NamedNone(last.schema.columns, last.row, name);
    }
  }

  lemma {:induction false} OnceNamed(tables: seq<Bound>, name: string, i: nat, c: nat)
    requires Shaped(tables) && Place(tables, i, c, name) && !OtherPlace(tables, i, c, name)
    ensures NamedIn(tables, name) == [tables[i].row[c]]
  {
    var n := |tables| - 1;
    var front, last := tables[..n], tables[n];
    assert forall j, d :: Place(front, j, d, name) ==> Place(tables, j, d, name);
    if i == n {
      assert !Placed(front, name);
      NowhereNamed(front, name);
      assert forall d :: 0 <= d < |last.schema.columns| && last.schema.columns[d] == name ==> Place(tables, n, d, name);
      NamedOnce(last.schema.columns, last.row, name, c);
    } else {
      assert Place(front, i, c, name) && !OtherPlace(front, i, c, name);
      OnceNamed(front, name, i, c);
      LastDiffers(tables, name, i, c);
      NamedNone(last.schema.columns, last.row, name);
    }
  }

  lemma LastDiffers(tables: seq<Bound>, name: string, i: nat, c: nat)
    requires i < |tables| - 1 && !OtherPlace(tables, i, c, name)
    ensures name !in tables[|tables| - 1].schema.columns
  {
    var n := |tables| - 1;
    if d: nat :| d < |tables[n].schema.columns| && tables[n].schema.columns[d] == name {
      assert Place(tables, n, d, name);
    }
  }

  lemma {:induction false} TwiceNamed(tables: seq<Bound>, name: string, i: nat, c: nat, j: nat, d: nat)
    requires Shaped(tables) && Place(tables, i, c, name) && Place(tables, j, d, name) && (i != j || c != d)
    ensures |NamedIn(tables, name)| > 1
  {
    var n := |tables| - 1;
    var front, last := tables[..n], tables[n];
    if i == j == n {
      NamedTwice(last.schema.columns, last.row, name, if c < d then c else d, if c < d then d else c);
    } else if i == n || j == n {
      NamedFirst(last.schema.columns, last.row, name);
      var k, e := if i == n then j else i, if i == n then d else c;
      assert Place(front, k, e, name);
      NamedFirst(front[k].schema.columns, front[k].row, name);
      NamedInSome(front, k, name);
    } else {
      TwiceNamed(front, name, i, c, j, d);
    }
  }

  // ---------- which condition an index serves ----------

  /** The parts of a condition that AND connects. */
  function Conjuncts(cond: Expr): seq<Expr> {
    if cond.Binary? && cond.op == And then Conjuncts(cond.left) + Conjuncts(cond.right) else [cond]
  }

  /** The columns an expression names outside its subqueries. */
  ghost function ColumnsIn(e: Expr): set<(string, string)> {
    match e
    case Column(table, column) => {(table, column)}
    case Unary(_, x) => ColumnsIn(x)
    case Binary(_, l, r) => ColumnsIn(l) + ColumnsIn(r)
    case Func(_, _, arg) => if arg.Some? then ColumnsIn(arg.value) else {}
    case _ => {}
  }

  /** A column of this table: by its alias, or unqualified by its name. */
  ghost predicate OwnColumn(e: Expr, s: Schema) {
    e.Column? && if e.table == "" then e.column in s.columns else e.table == s.alias
  }

  /** The first column of the name has this index, and no earlier index is on it. */
  ghost predicate Serves(e: Expr, s: Schema, indexed: seq<nat>, i: nat) {
    && e.Column? && i < |indexed| && indexed[i] < |s.columns| && s.columns[indexed[i]] == e.column
    && e.column !in s.columns[..indexed[i]] && indexed[i] !in indexed[..i]
  }

  /** An equation of an indexed column of this table, on the left if both sides are of it, with
      an expression that names columns of the tables before only. */
  ghost predicate Usable(e: Expr, s: Schema, indexed: seq<nat>, before: seq<Schema>, p: Probe) {
    && e.Binary? && e.op == Eq
    && var ownLeft := OwnColumn(e.left, s);
       var column := if ownLeft then e.left else e.right;
       && OwnColumn(column, s) && p.value == (if ownLeft then e.right else e.left)
       && Serves(column, s, indexed, p.index)
       && forall c :: c in ColumnsIn(p.value) ==> Resolves(before, c.0, c.1)
  }

  ghost predicate AnyUsable(e: Expr, s: Schema, indexed: seq<nat>, before: seq<Schema>) {
    exists p :: Usable(e, s, indexed, before, p)
  }

  /** The first usable one of these conditions gives this probe; None if there is none. */
  ghost predicate FirstUsable(parts: seq<Expr>, s: Schema, indexed: seq<nat>, before: seq<Schema>, found: Option<Probe>) {
    if parts == [] then found.None?
    else if AnyUsable(parts[0], s, indexed, before) then found.Some? && Usable(parts[0], s, indexed, before, found.value)
    else FirstUsable(parts[1..], s, indexed, before, found)
  }

  lemma {:induction false} FirstOfBoth(a: seq<Expr>, b: seq<Expr>, s: Schema, indexed: seq<nat>, before: seq<Schema>, found: Option<Probe>, other: Option<Probe>)
    requires FirstUsable(a, s, indexed, before, found)
    requires found.None? ==> FirstUsable(b, s, indexed, before, other)
    ensures FirstUsable(a + b, s, indexed, before, if found.Some? then found else other)
  {
    if a == [] {
      assert a + b == b;
    } else {
      assert (a + b)[1..] == a[1..] + b;
      if !AnyUsable(a[0], s, indexed, before) {
        FirstOfBoth(a[1..], b, s, indexed, before, found, other);
      }
    }
  }

  /** The planner takes the first usable conjunct, and finds a probe exactly if there is one. */
  lemma {:induction false} ProbeFoundIff(cond: Expr, s: Schema, indexed: seq<nat>, before: seq<Schema>)
    ensures FirstUsable(Conjuncts(cond), s, indexed, before, FindProbe(cond, s, indexed, before))
  {
    if cond.Binary? && cond.op == And {
      ProbeFoundIff(cond.left, s, indexed, before);
      ProbeFoundIff(cond.right, s, indexed, before);
      FirstOfBoth(Conjuncts(cond.left), Conjuncts(cond.right), s, indexed, before,
                  FindProbe(cond.left, s, indexed, before), FindProbe(cond.right, s, indexed, before));
    } else {
      EquationUsable(cond, s, indexed, before);
    }
  }

  lemma EquationUsable(e: Expr, s: Schema, indexed: seq<nat>, before: seq<Schema>)
    requires !(e.Binary? && e.op == And)
    ensures var found := FindProbe(e, s, indexed, before);
            if found.Some? then Usable(e, s, indexed, before, found.value) else !AnyUsable(e, s, indexed, before)
  {
    if e.Binary? && e.op == Eq {
      OwnIs(e.left, s);
      OwnIs(e.right, s);
      RefersIs(e.left, before);
      RefersIs(e.right, before);
      if OwnColumn(e.left, s) {
        ServedIs(e.left, s, indexed);
      } else if OwnColumn(e.right, s) {
        ServedIs(e.right, s, indexed);
      }
    }
  }

  lemma OwnIs(e: Expr, s: Schema)
    ensures OfTable(e, s) <==> OwnColumn(e, s)
  {}

  lemma {:induction false} RefersIs(e: Expr, before: seq<Schema>)
    ensures RefsOnly(e, before) <==> forall c :: c in ColumnsIn(e) ==> Resolves(before, c.0, c.1)
  {
    match e
    case Unary(_, x) => RefersIs(x, before);
    case Binary(_, l, r) =>
      RefersIs(l, before);
      RefersIs(r, before);
    case Func(_, _, arg) =>
      if arg.Some? {
        RefersIs(arg.value, before);
      }
    case Column(table, column) =>
      assert ColumnsIn(e) == {(table, column)};
    case _ =>
  }

  lemma ServedIs(e: Expr, s: Schema, indexed: seq<nat>)
    requires e.Column?
    ensures var c := ColumnIndex(s.columns, e.column);
            var i := IndexOn(indexed, c);
            if c < |s.columns| && i < |indexed| then Serves(e, s, indexed, i) && forall j :: Serves(e, s, indexed, j) ==> j == i
            else forall j :: !Serves(e, s, indexed, j)
  {
    var c := ColumnIndex(s.columns, e.column);
    var i := IndexOn(indexed, c);
    IndexOnIsFirst(indexed, c);
    forall j: nat | Serves(e, s, indexed, j) ensures indexed[j] == c && j == i {
      EarlierIn(s.columns, c, indexed[j]);
      EarlierIn(indexed, i, j);
    }
  }

  lemma EarlierIn<T>(s: seq<T>, i: nat, j: nat)
    requires j < |s|
    ensures i < j ==> s[i] in s[..j]
  {
    if i < j {
      assert s[..j][i] == s[i];
    }
  }

  lemma {:induction false} IndexOnIsFirst(indexed: seq<nat>, column: nat)
    ensures forall j :: 0 <= j < IndexOn(indexed, column) ==> indexed[j] != column
  {
    if indexed != [] && indexed[0] != column {
      IndexOnIsFirst(indexed[1..], column);
    }
  }
}
