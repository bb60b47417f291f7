/** Expressions of ast.h, their evaluation and column resolution (src/executor.c:60-247),
    and what the planner can tell from the schema (src/executor.c:249-308). */
module Expressions {
  import opened Pages
  import opened Values

  datatype Op = Add | Sub | Mul | Div | Eq | Neq | Lt | Le | Gt | Ge | And | Or | Neg | Not

  datatype FuncKind = Count | Sum | Avg | Min | Max

  datatype Expr =
    | Literal(value: Value)
    | Column(table: string, column: string)  // table is empty when unqualified
    | Unary(op: Op, operand: Expr)
    | Binary(op: Op, left: Expr, right: Expr)
    | Func(fn: FuncKind, star: bool, arg: Option<Expr>)
    | Subquery(id: nat)

  // ---------- row contexts ----------

  datatype Schema = Schema(alias: string, columns: seq<string>)

  datatype Bound = Bound(schema: Schema, row: seq<Value>)

  /** The tables bound so far and the enclosing query's context. */
  datatype Context = Context(tables: seq<Bound>, outer: Option<Context>)

  /** The values of the columns with a given name. */
  function Named(columns: seq<string>, row: seq<Value>, name: string): seq<Value> {
    if columns == [] || row == [] then []
    else (if columns[0] == name then [row[0]] else []) + Named(columns[1..], row[1..], name)
  }

  function NamedIn(tables: seq<Bound>, name: string): seq<Value> {
    if tables == [] then []
    else NamedIn(tables[..|tables| - 1], name) + Named(tables[|tables| - 1].schema.columns, tables[|tables| - 1].row, name)
  }

  function FindAlias(tables: seq<Bound>, alias: string): (i: nat)
    ensures i <= |tables|
    ensures i < |tables| ==> tables[i].schema.alias == alias
    ensures forall j :: 0 <= j < i ==> tables[j].schema.alias != alias
  {
    if tables == [] then 0
    else
      var i := FindAlias(tables[..|tables| - 1], alias);
      if i < |tables| - 1 || tables[|tables| - 1].schema.alias == alias then i else |tables|
  }

  /** resolve_column; None is an error. */
  function Resolve(ctx: Context, table: string, column: string): Option<Value>
    decreases ctx
  {
    if table != "" then
      var i := FindAlias(ctx.tables, table);
      if i < |ctx.tables| then
        var found := Named(ctx.tables[i].schema.columns, ctx.tables[i].row, column);
        if found == [] then None else Some(found[0])
      else if ctx.outer.Some? then Resolve(ctx.outer.value, table, column)
      else None
    else
      var found := NamedIn(ctx.tables, column);
      if |found| == 1 then Some(found[0])
      else if |found| > 1 then None
      else if ctx.outer.Some? then Resolve(ctx.outer.value, table, column)
      else None
  }

  // ---------- evaluation ----------

  /** What is left open: arithmetic on REAL values and where INT arithmetic overflows (None
      where it fails), the negation that overflows, comparison across types, and the result of
      a scalar subquery in a context. */
  datatype Machine = Machine(
    arith: (Op, Value, Value) -> Option<Value>,
    negate: Value -> Value,
    mixed: (Value, Value) -> int,
    subquery: (nat, Context) -> Option<Value>)

  function Abs(i: int): nat {
    if i < 0 then -i else i
  }

  /** Division of C, towards zero. */
  function Quotient(a: int, b: int): int
    requires b != 0
  {
    if (a < 0) == (b < 0) then Abs(a) / Abs(b) else -(Abs(a) / Abs(b))
  }

  predicate InRange(i: int) {
    -TWO63 <= i < TWO63
  }

  /** A zero of either sign. */
  predicate Zero(v: Value) {
    (v.Int? && v.i == 0) || (v.Real? && IsZero(v.bits))
  }

  /** arith_binary on two numbers. */
  function Arith(m: Machine, op: Op, l: Value, r: Value): Option<Value> {
    if op !in {Add, Sub, Mul, Div} || (op == Div && Zero(r)) then None
    else if l.Int? && r.Int? then
      var n: int :=
        if op == Add then l.i + r.i
        else if op == Sub then l.i - r.i
        else if op == Mul then l.i * r.i
        else Quotient(l.i, r.i);
      if InRange(n) then Some(Int(n)) else m.arith(op, l, r)
    else m.arith(op, l, r)
  }

  /** Unary minus on a number; that of a double flips the sign bit. */
  function Negate(m: Machine, v: Value): Value {
    match v
    case Int(i) => var n: int := 0 - i; if InRange(n) then Int(n) else m.negate(v)
    case Real(bits) => Real(if Negative(bits) then bits - TWO63 else bits + TWO63)
    case _ => v
  }

  /** value_truthy */
  function Truthy(v: Value): bool {
    match v
    case Null => false
    case Int(i) => i != 0
    case Real(bits) => !IsZero(bits)
    case Text(text) => |text| != 0
  }

  function Truth(b: bool): Value {
    Int(if b then 1 else 0)
  }

  function Compare(m: Machine, l: Value, r: Value): int {
    if Comparable(l, r) then ValueCompare(l, r) else m.mixed(l, r)
  }

  function Holds(op: Op, c: int): bool {
    match op
    case Eq => c == 0
    case Neq => c != 0
    case Lt => c < 0
    case Le => c <= 0
    case Gt => c > 0
    case _ => c >= 0
  }

  function Connect(op: Op, l: Value, r: Value): Value {
    var lf, rf := !l.Null? && !Truthy(l), !r.Null? && !Truthy(r);
    var lt, rt := !l.Null? && Truthy(l), !r.Null? && Truthy(r);
    if op == And then if lf || rf then Truth(false) else if l.Null? || r.Null? then Null else Truth(true)
    else if lt || rt then Truth(true) else if l.Null? || r.Null? then Null else Truth(false)
  }

  function Apply(m: Machine, op: Op, l: Value, r: Value): Option<Value> {
    match op
    case And | Or => Some(Connect(op, l, r))
    case Eq | Neq | Lt | Le | Gt | Ge =>
      Some(if l.Null? || r.Null? then Null else Truth(Holds(op, Compare(m, l, r))))
    case _ =>
      if l.Null? || r.Null? then Some(Null)
      else if l.Text? || r.Text? then None
      else Arith(m, op, l, r)
  }

  function ApplyUnary(m: Machine, op: Op, v: Value): Option<Value> {
    if v.Null? then Some(Null)
    else if op == Neg then if v.Text? then None else Some(Negate(m, v))
    else Some(Truth(!Truthy(v)))
  }

  /** eval_expr outside the output of a grouped query; None is an error. */
  function Eval(m: Machine, e: Expr, ctx: Context): Option<Value> {
    match e
    case Literal(v) => Some(v)
    case Column(table, column) => Resolve(ctx, table, column)
    case Unary(op, x) =>
      var v := Eval(m, x, ctx);
      if v.None? then None else ApplyUnary(m, op, v.value)
    case Binary(op, left, right) =>
      var l, r := Eval(m, left, ctx), Eval(m, right, ctx);
      if l.None? || r.None? then None else Apply(m, op, l.value, r.value)
    case Func(_, _, _) => None
    case Subquery(id) => m.subquery(id, ctx)
  }

  /** eval_where: is the row kept? */
  function Keeps(m: Machine, cond: Option<Expr>, ctx: Context): Option<bool> {
    if cond.None? then Some(true)
    else
      var v := Eval(m, cond.value, ctx);
      if v.None? then None else Some(Truthy(v.value))
  }

  // ---------- what the schema tells ----------

  function Occurrences(columns: seq<string>, name: string): nat {
    if columns == [] then 0 else (if columns[0] == name then 1 else 0) + Occurrences(columns[1..], name)
  }

  function OccurrencesIn(tables: seq<Schema>, name: string): nat {
    if tables == [] then 0
    else OccurrencesIn(tables[..|tables| - 1], name) + Occurrences(tables[|tables| - 1].columns, name)
  }

  /** schema_resolve_ok */
  predicate Resolves(tables: seq<Schema>, table: string, column: string) {
    if table != "" then
      exists i :: 0 <= i < |tables| && tables[i].alias == table && Occurrences(tables[i].columns, column) > 0
                  && forall j :: 0 <= j < i ==> tables[j].alias != table
    else OccurrencesIn(tables, column) == 1
  }

  /** expr_refs_only */
  predicate RefsOnly(e: Expr, tables: seq<Schema>) {
    match e
    case Literal(_) => true
    case Column(table, column) => Resolves(tables, table, column)
    case Unary(_, x) => RefsOnly(x, tables)
    case Binary(_, l, r) => RefsOnly(l, tables) && RefsOnly(r, tables)
    case Func(_, _, arg) => arg.None? || RefsOnly(arg.value, tables)
    case Subquery(_) => true
  }

  predicate NoSubquery(e: Expr) {
    match e
    case Literal(_) => true
    case Column(_, _) => true
    case Unary(_, x) => NoSubquery(x)
    case Binary(_, l, r) => NoSubquery(l) && NoSubquery(r)
    case Func(_, _, arg) => arg.None? || NoSubquery(arg.value)
    case Subquery(_) => false
  }

  /** Its subqueries give the same whatever rows of this query are bound. */
  ghost predicate Uncorrelated(m: Machine, e: Expr, outer: Option<Context>) {
    match e
    case Unary(_, x) => Uncorrelated(m, x, outer)
    case Binary(_, l, r) => Uncorrelated(m, l, outer) && Uncorrelated(m, r, outer)
    case Subquery(id) => forall a, b :: m.subquery(id, Context(a, outer)) == m.subquery(id, Context(b, outer))
    case _ => true
  }

  lemma {:induction false} NoSubqueryIsUncorrelated(m: Machine, e: Expr, outer: Option<Context>)
    requires NoSubquery(e)
    ensures Uncorrelated(m, e, outer)
  {
    match e
    case Unary(_, x) => NoSubqueryIsUncorrelated(m, x, outer);
    case Binary(_, l, r) =>
      NoSubqueryIsUncorrelated(m, l, outer);
      NoSubqueryIsUncorrelated(m, r, outer);
    case _ =>
  }

  function Schemas(tables: seq<Bound>): (s: seq<Schema>)
    ensures |s| == |tables| && forall i :: 0 <= i < |s| ==> s[i] == tables[i].schema
  {
    seq(|tables|, i requires 0 <= i < |tables| => tables[i].schema)
  }

  predicate Shaped(tables: seq<Bound>) {
    forall i :: 0 <= i < |tables| ==> |tables[i].row| == |tables[i].schema.columns|
  }

  lemma {:induction false} NamedOccurs(columns: seq<string>, row: seq<Value>, name: string)
    requires |row| == |columns|
    ensures |Named(columns, row, name)| == Occurrences(columns, name)
  {
    if columns != [] {
      NamedOccurs(columns[1..], row[1..], name);
    }
  }

  lemma {:induction false} NamedInOccurs(tables: seq<Bound>, name: string)
    requires Shaped(tables)
    ensures |NamedIn(tables, name)| == OccurrencesIn(Schemas(tables), name)
  {
    if tables != [] {
      var front, last := tables[..|tables| - 1], tables[|tables| - 1];
      NamedInOccurs(front, name);
      assert Schemas(tables)[..|tables| - 1] == Schemas(front);
      NamedOccurs(last.schema.columns, last.row, name);
    }
  }

  lemma {:induction false} NamedInGrows(tables: seq<Bound>, more: seq<Bound>, name: string)
    ensures NamedIn(tables, name) <= NamedIn(tables + more, name)
  {
    if more == [] {
      assert tables + more == tables;
    } else {
      assert (tables + more)[..|tables + more| - 1] == tables + more[..|more| - 1];
      NamedInGrows(tables, more[..|more| - 1], name);
    }
  }

  /** A column the planner resolves among the tables bound so far has the value it has
      when more tables are bound, unless it has become ambiguous. */
  lemma ResolvedEarly(tables: seq<Bound>, more: seq<Bound>, outer: Option<Context>, table: string, column: string)
    requires Shaped(tables) && Resolves(Schemas(tables), table, column)
    requires Resolve(Context(tables + more, outer), table, column).Some?
    ensures Resolve(Context(tables, outer), table, column) == Resolve(Context(tables + more, outer), table, column)
  {
    if table != "" {
      var i :| 0 <= i < |tables| && Schemas(tables)[i].alias == table && Occurrences(Schemas(tables)[i].columns, column) > 0
               && forall j :: 0 <= j < i ==> Schemas(tables)[j].alias != table;
      assert forall j :: 0 <= j < i ==> Schemas(tables)[j] == tables[j].schema == (tables + more)[j].schema;
      assert (tables + more)[i] == tables[i];
      assert FindAlias(tables, table) == i == FindAlias(tables + more, table);
    } else {
      NamedInOccurs(tables, column);
      NamedInGrows(tables, more, column);
    }
  }

  /** So does any expression the planner accepts as a probe value, correlated subqueries apart. */
  lemma {:induction false} EvaluatedEarly(m: Machine, e: Expr, tables: seq<Bound>, more: seq<Bound>, outer: Option<Context>)
    requires Shaped(tables) && RefsOnly(e, Schemas(tables)) && Uncorrelated(m, e, outer)
    requires Eval(m, e, Context(tables + more, outer)).Some?
    ensures Eval(m, e, Context(tables, outer)) == Eval(m, e, Context(tables + more, outer))
  {
    match e
    case Column(table, column) => ResolvedEarly(tables, more, outer, table, column);
    case Unary(_, x) => EvaluatedEarly(m, x, tables, more, outer);
    case Binary(_, l, r) =>
      EvaluatedEarly(m, l, tables, more, outer);
      EvaluatedEarly(m, r, tables, more, outer);
    case _ =>
  }

  // ---------- index probes ----------

  /** column_index_in; the number of columns stands for not found. */
  function ColumnIndex(columns: seq<string>, name: string): (i: nat)
    ensures i <= |columns|
    ensures i < |columns| ==> columns[i] == name
    ensures forall j :: 0 <= j < i ==> columns[j] != name
  {
    if columns == [] || columns[0] == name then 0 else 1 + ColumnIndex(columns[1..], name)
  }

  /** column_matches_table */
  predicate OfTable(e: Expr, s: Schema) {
    && e.Column?
    && if e.table != "" then e.table == s.alias else ColumnIndex(s.columns, e.column) < |s.columns|
  }

  /** The place of the first index on the column; the number of indexes if there is none. */
  function IndexOn(indexed: seq<nat>, column: nat): (i: nat)
    ensures i <= |indexed|
    ensures i < |indexed| ==> indexed[i] == column
  {
    if indexed == [] || indexed[0] == column then 0 else 1 + IndexOn(indexed[1..], column)
  }

  datatype Probe = Probe(index: nat, value: Expr)

  /** try_find_index_probe; indexed lists the column of each index of the table. */
  function FindProbe(cond: Expr, s: Schema, indexed: seq<nat>, before: seq<Schema>): Option<Probe> {
    if !cond.Binary? then None
    else if cond.op == And then
      var p := FindProbe(cond.left, s, indexed, before);
      if p.Some? then p else FindProbe(cond.right, s, indexed, before)
    else if cond.op == Eq then
      if OfTable(cond.left, s) then ProbeOf(cond.left, cond.right, s, indexed, before)
      else if OfTable(cond.right, s) then ProbeOf(cond.right, cond.left, s, indexed, before)
      else None
    else None
  }

  function ProbeOf(column: Expr, value: Expr, s: Schema, indexed: seq<nat>, before: seq<Schema>): Option<Probe>
    requires column.Column?
  {
    var c := ColumnIndex(s.columns, column.column);
    if RefsOnly(value, before) && c < |s.columns| && IndexOn(indexed, c) < |indexed|
    then Some(Probe(IndexOn(indexed, c), value)) else None
  }

  predicate DistinctAliases(tables: seq<Bound>) {
    forall i, j :: 0 <= i < j < |tables| ==> tables[i].schema.alias != tables[j].schema.alias
  }

  lemma {:induction false} NamedFirst(columns: seq<string>, row: seq<Value>, name: string)
    requires |row| == |columns|
    ensures var c := ColumnIndex(columns, name);
            if c < |columns| then Named(columns, row, name) != [] && Named(columns, row, name)[0] == row[c]
            else Named(columns, row, name) == []
  {
    if columns != [] && columns[0] != name {
      NamedFirst(columns[1..], row[1..], name);
    }
  }

  lemma {:induction false} NamedInHas(tables: seq<Bound>, k: nat, name: string)
    requires k < |tables| && |NamedIn(tables, name)| == 1
    ensures var found := Named(tables[k].schema.columns, tables[k].row, name); found != [] ==> found == NamedIn(tables, name)
  {
    var front := tables[..|tables| - 1];
    if k < |front| {
      var found := Named(tables[k].schema.columns, tables[k].row, name);
      if found != [] {
        NamedInSome(front, k, name);
        NamedInHas(front, k, name);
      }
    }
  }

  lemma {:induction false} NamedInSome(tables: seq<Bound>, k: nat, name: string)
    requires k < |tables| && Named(tables[k].schema.columns, tables[k].row, name) != []
    ensures NamedIn(tables, name) != []
  {
    var front := tables[..|tables| - 1];
    if k < |front| {
      NamedInSome(front, k, name);
    }
  }

  /** A column matched to a table has that table's value, if it resolves at all. */
  lemma MatchedColumn(tables: seq<Bound>, k: nat, outer: Option<Context>, e: Expr)
    requires Shaped(tables) && DistinctAliases(tables) && k < |tables| && OfTable(e, tables[k].schema)
    requires ColumnIndex(tables[k].schema.columns, e.column) < |tables[k].schema.columns|
    requires Resolve(Context(tables, outer), e.table, e.column).Some?
    ensures Resolve(Context(tables, outer), e.table, e.column) == Some(tables[k].row[ColumnIndex(tables[k].schema.columns, e.column)])
  {
    NamedFirst(tables[k].schema.columns, tables[k].row, e.column);
    if e.table != "" {
      assert FindAlias(tables, e.table) == k;
    } else {
      NamedInSome(tables, k, e.column);
      NamedInHas(tables, k, e.column);
    }
  }

  /** Where a condition with an index probe keeps a row, the indexed column compares equal
      to the probe value, both not NULL. */
  lemma {:induction false} KeptRowMatchesProbe(m: Machine, cond: Expr, tables: seq<Bound>, k: nat, outer: Option<Context>, indexed: seq<nat>)
    requires Shaped(tables) && DistinctAliases(tables) && k < |tables|
    requires FindProbe(cond, tables[k].schema, indexed, Schemas(tables[..k])).Some?
    requires forall i :: 0 <= i < |indexed| ==> indexed[i] < |tables[k].row|
    requires Keeps(m, Some(cond), Context(tables, outer)) == Some(true)
    ensures var p := FindProbe(cond, tables[k].schema, indexed, Schemas(tables[..k])).value;
            && p.index < |indexed| && RefsOnly(p.value, Schemas(tables[..k]))
            && var v, w := Eval(m, p.value, Context(tables, outer)), tables[k].row[indexed[p.index]];
            v.Some? && !v.value.Null? && !w.Null? && (Compare(m, v.value, w) == 0 || Compare(m, w, v.value) == 0)
  {
    var s, before := tables[k].schema, Schemas(tables[..k]);
    if cond.op == And {
      if FindProbe(cond.left, s, indexed, before).Some? {
        KeptRowMatchesProbe(m, cond.left, tables, k, outer, indexed);
      } else {
        KeptRowMatchesProbe(m, cond.right, tables, k, outer, indexed);
      }
    } else {
      var ctx := Context(tables, outer);
      var l, r := Eval(m, cond.left, ctx), Eval(m, cond.right, ctx);
      assert l.Some? && r.Some? && Truthy(Apply(m, Eq, l.value, r.value).value);
      if OfTable(cond.left, s) {
        assert l == Resolve(ctx, cond.left.table, cond.left.column);
        MatchedColumn(tables, k, outer, cond.left);
      } else {
        assert r == Resolve(ctx, cond.right.table, cond.right.column);
        MatchedColumn(tables, k, outer, cond.right);
      }
    }
  }
}
