/** The rows that INSERT and UPDATE make and the keys of their indexes
    (src/executor.c:346-484, 1113-1222), as values. */
module Tables {
  import opened Pages
  import opened Values
  import opened IndexKeys
  import opened Expressions
  import opened Records

  datatype ColumnDef = ColumnDef(name: string, kind: ColumnType, notNull: bool)

  /** An index of a table: the column and the root of its tree. */
  datatype IndexState = IndexState(column: nat, root: PageId)

  datatype Assignment = Assignment(column: string, value: Expr)

  type Rows = map<Int64, seq<Value>>

  type Subqueries = nat -> ((nat, Context) -> Option<Value>)

  function Names(columns: seq<ColumnDef>): (names: seq<string>)
    ensures |names| == |columns| && forall i :: 0 <= i < |names| ==> names[i] == columns[i].name
  {
    seq(|columns|, i requires 0 <= i < |columns| => columns[i].name)
  }

  // ---------- values that may be stored ----------

  predicate Storable(col: ColumnDef, v: Value) {
    match v
    case Null => !col.notNull
    case Int(_) => col.kind.IntColumn?
    case Real(_) => col.kind.RealColumn?
    case Text(_) => col.kind.TextColumn?
  }

  predicate RowStorable(columns: seq<ColumnDef>, row: seq<Value>) {
    |row| == |columns| && forall c :: 0 <= c < |columns| ==> Storable(columns[c], row[c])
  }

  /** coerce_and_check; toReal is the cast to double. */
  function Coerce(toReal: Int64 -> Bits64, col: ColumnDef, v: Value): (r: Option<Value>)
    ensures r.Some? ==> Storable(col, r.value)
    ensures Storable(col, v) ==> r == Some(v)
    ensures r.None? <==> if v.Null? then col.notNull else !Storable(col, v) && !(v.Int? && col.kind.RealColumn?)
  {
    if v.Null? then if col.notNull then None else Some(v)
    else if col.kind.RealColumn? && v.Int? then Some(Real(toReal(v.i)))
    else if col.kind.IntColumn? && v.Real? then None
    else if col.kind.TextColumn? && !v.Text? then None
    else if !col.kind.TextColumn? && v.Text? then None
    else Some(v)
  }

  /** PRIMARY KEY is for one INT column at most, and makes it NOT NULL. */
  predicate KeyColumn(columns: seq<ColumnDef>, pk: Option<nat>) {
    pk.Some? ==> pk.value < |columns| && columns[pk.value].kind.IntColumn? && columns[pk.value].notNull
  }

  /** The rowid a row gets: its primary key, or the one given. */
  function RowidFor(pk: Option<nat>, row: seq<Value>, given: Int64): Int64 {
    if pk.Some? && pk.value < |row| && row[pk.value].Int? then row[pk.value].i else given
  }

  /** The primary key of a row that can be stored is an integer, and is the row's rowid. */
  lemma KeyIsRowid(columns: seq<ColumnDef>, pk: Option<nat>, row: seq<Value>, given: Int64)
    requires KeyColumn(columns, pk) && RowStorable(columns, row) && pk.Some?
    ensures pk.value < |row| && row[pk.value] == Int(RowidFor(pk, row, given))
  {
    assert Storable(columns[pk.value], row[pk.value]);
  }

  predicate Known(columns: seq<ColumnDef>, assigns: seq<Assignment>) {
    forall a :: 0 <= a < |assigns| ==> ColumnIndex(Names(columns), assigns[a].column) < |columns|
  }

  /** The new values of an UPDATE, all computed from the old row. */
  function NewRow(m: Machine, toReal: Int64 -> Bits64, columns: seq<ColumnDef>, ctx: Context, was: seq<Value>, assigns: seq<Assignment>): (r: Option<seq<Value>>)
    requires RowStorable(columns, was)
    requires Known(columns, assigns)
    ensures r.Some? ==> RowStorable(columns, r.value)
  {
    if assigns == [] then Some(was)
    else
      var front, a := assigns[..|assigns| - 1], assigns[|assigns| - 1];
      var before, v := NewRow(m, toReal, columns, ctx, was, front), Eval(m, a.value, ctx);
      if before.None? || v.None? then None
      else
        var c := ColumnIndex(Names(columns), a.column);
        var w := Coerce(toReal, columns[c], v.value);
        if w.None? then None else Some(before.value[c := w.value])
  }

  /** col_map of an INSERT: for each column the place of its value; the last wins. */
  function ColMap(columns: seq<ColumnDef>, list: Option<seq<string>>, c: nat): Option<nat>
    requires c < |columns|
    decreases if list.Some? then |list.value| else 0
  {
    if list.None? then Some(c)
    else if list.value == [] then None
    else
      var n := |list.value| - 1;
      if ColumnIndex(Names(columns), list.value[n]) == c then Some(n) else ColMap(columns, Some(list.value[..n]), c)
  }

  lemma {:induction false} ColMapInRange(columns: seq<ColumnDef>, list: Option<seq<string>>, c: nat)
    requires c < |columns|
    ensures var v := ColMap(columns, list, c); v.Some? ==> v.value < Expected(columns, list)
    decreases if list.Some? then |list.value| else 0
  {
    if list.Some? && list.value != [] {
      ColMapInRange(columns, Some(list.value[..|list.value| - 1]), c);
    }
  }

  function Expected(columns: seq<ColumnDef>, list: Option<seq<string>>): nat {
    if list.Some? then |list.value| else |columns|
  }

  /** The first n values of a row of an INSERT, NULL where none was given. */
  function InsertRow(m: Machine, toReal: Int64 -> Bits64, columns: seq<ColumnDef>, list: Option<seq<string>>, given: seq<Expr>, n: nat): (r: Option<seq<Value>>)
    requires n <= |columns| && |given| == Expected(columns, list)
    ensures r.Some? ==> RowStorable(columns[..n], r.value)
  {
    if n == 0 then Some([])
    else
      var before := InsertRow(m, toReal, columns, list, given, n - 1);
      ColMapInRange(columns, list, n - 1);
      var place := ColMap(columns, list, n - 1);
      var v := if place.None? then Some(Null) else Eval(m, given[place.value], Context([], None));
      if before.None? || v.None? then None
      else
        var w := Coerce(toReal, columns[n - 1], v.value);
        if w.None? then None else Some(before.value + [w.value])
  }

  // ---------- what is stored ----------

  /** Column c is the first of this name. */
  ghost predicate Denotes(columns: seq<ColumnDef>, c: nat, name: string) {
    c < |columns| && columns[c].name == name && forall d :: 0 <= d < c ==> columns[d].name != name
  }

  lemma DenotedIndex(columns: seq<ColumnDef>, c: nat, name: string)
    requires c < |columns|
    ensures Denotes(columns, c, name) <==> ColumnIndex(Names(columns), name) == c
  {}

  /** A value may be stored in a column: NULL unless NOT NULL, otherwise of its type, or an INT
      in a REAL column. */
  ghost predicate Accepted(col: ColumnDef, v: Option<Value>) {
    v.Some? && match v.value
      case Null => !col.notNull
      case Int(_) => !col.kind.TextColumn?
      case Real(_) => col.kind.RealColumn?
      case Text(_) => col.kind.TextColumn?
  }

  /** What is stored for a value: an INT in a REAL column is cast. */
  ghost predicate StoredAs(toReal: Int64 -> Bits64, col: ColumnDef, v: Option<Value>, w: Value) {
    v.Some? && w == if v.value.Int? && col.kind.RealColumn? then Real(toReal(v.value.i)) else v.value
  }

  lemma CoerceMeans(toReal: Int64 -> Bits64, col: ColumnDef, v: Value)
    ensures var r := Coerce(toReal, col, v);
            (r.Some? <==> Accepted(col, Some(v))) && (r.Some? ==> StoredAs(toReal, col, Some(v), r.value))
  {}

  // ---------- what an UPDATE stores ----------

  /** Assignment a is the last for column c. */
  ghost predicate LastFor(columns: seq<ColumnDef>, assigns: seq<Assignment>, c: nat, a: nat) {
    && a < |assigns| && Denotes(columns, c, assigns[a].column)
    && forall b :: a < b < |assigns| ==> assigns[b].column != assigns[a].column
  }

  /** The new row: each column holds the value of its last assignment, computed from the old
      row, or what it held. */
  ghost predicate RowSet(m: Machine, toReal: Int64 -> Bits64, columns: seq<ColumnDef>, ctx: Context, was: seq<Value>,
                         assigns: seq<Assignment>, row: seq<Value>) {
    && |row| == |was| == |columns|
    && (forall c: nat, a: nat :: LastFor(columns, assigns, c, a) ==> StoredAs(toReal, columns[c], Eval(m, assigns[a].value, ctx), row[c]))
    && forall c :: 0 <= c < |columns| && (forall a :: 0 <= a < |assigns| ==> !Denotes(columns, c, assigns[a].column)) ==> row[c] == was[c]
  }

  /** Every assignment, also one that a later one for its column overrides, has a value that
      its column accepts. */
  ghost predicate RowSettable(m: Machine, columns: seq<ColumnDef>, ctx: Context, assigns: seq<Assignment>) {
    forall a: nat, c: nat :: a < |assigns| && Denotes(columns, c, assigns[a].column) ==> Accepted(columns[c], Eval(m, assigns[a].value, ctx))
  }

  /** What an UPDATE makes of a row, and when it fails. */
  lemma {:induction false} NewRowMeans(m: Machine, toReal: Int64 -> Bits64, columns: seq<ColumnDef>, ctx: Context, was: seq<Value>, assigns: seq<Assignment>)
    requires RowStorable(columns, was) && Known(columns, assigns)
    ensures var row := NewRow(m, toReal, columns, ctx, was, assigns);
            && (row.Some? <==> RowSettable(m, columns, ctx, assigns))
            && (row.Some? ==> RowSet(m, toReal, columns, ctx, was, assigns, row.value))
  {
    if assigns != [] {
      var front, a := assigns[..|assigns| - 1], assigns[|assigns| - 1];
      NewRowMeans(m, toReal, columns, ctx, was, front);
      var before, v, c := NewRow(m, toReal, columns, ctx, was, front), Eval(m, a.value, ctx), ColumnIndex(Names(columns), a.column);
      SettableNext(m, columns, ctx, assigns, c);
      if v.Some? {
        CoerceMeans(toReal, columns[c], v.value);
        var w := Coerce(toReal, columns[c], v.value);
        if before.Some? && w.Some? {
          SetNext(m, toReal, columns, ctx, was, assigns, c, before.value, w.value);
        }
      }
    }
  }

  lemma SettableNext(m: Machine, columns: seq<ColumnDef>, ctx: Context, assigns: seq<Assignment>, c: nat)
    requires assigns != [] && Denotes(columns, c, assigns[|assigns| - 1].column)
    ensures RowSettable(m, columns, ctx, assigns) <==>
              RowSettable(m, columns, ctx, assigns[..|assigns| - 1]) && Accepted(columns[c], Eval(m, assigns[|assigns| - 1].value, ctx))
  {
    var n := |assigns| - 1;
    assert forall a :: 0 <= a < n ==> assigns[..n][a] == assigns[a];
    assert forall d: nat :: Denotes(columns, d, assigns[n].column) ==> d == c;
  }

  lemma SetNext(m: Machine, toReal: Int64 -> Bits64, columns: seq<ColumnDef>, ctx: Context, was: seq<Value>,
                assigns: seq<Assignment>, c: nat, row: seq<Value>, w: Value)
    requires assigns != [] && Denotes(columns, c, assigns[|assigns| - 1].column)
    requires RowSet(m, toReal, columns, ctx, was, assigns[..|assigns| - 1], row)
    requires StoredAs(toReal, columns[c], Eval(m, assigns[|assigns| - 1].value, ctx), w)
    ensures RowSet(m, toReal, columns, ctx, was, assigns, row[c := w])
  {
    var n := |assigns| - 1;
    var front, after := assigns[..n], row[c := w];
    forall d: nat, a: nat | LastFor(columns, assigns, d, a) ensures StoredAs(toReal, columns[d], Eval(m, assigns[a].value, ctx), after[d]) {
      assert Denotes(columns, d, assigns[n].column) ==> d == c;
      if a < n {
        assert LastFor(columns, front, d, a);
      }
    }
    forall d | 0 <= d < |columns| && (forall a :: 0 <= a < |assigns| ==> !Denotes(columns, d, assigns[a].column)) ensures after[d] == was[d] {
      assert forall a :: 0 <= a < n ==> !Denotes(columns, d, front[a].column);
    }
  }

  // ---------- what an INSERT stores ----------

  /** The value of column c stands at place p of the row given: without a column list at its
      own, with one at the last that names it. */
  ghost predicate ComesFrom(columns: seq<ColumnDef>, list: Option<seq<string>>, c: nat, p: nat) {
    match list
    case None => p == c
    case Some(names) => p < |names| && Denotes(columns, c, names[p]) && forall q :: p < q < |names| ==> names[q] != names[p]
  }

  /** Column c gets the value w: that at its place, or NULL if it has none. */
  ghost predicate Gets(m: Machine, toReal: Int64 -> Bits64, columns: seq<ColumnDef>, list: Option<seq<string>>, given: seq<Expr>, c: nat, w: Value)
    requires c < |columns|
  {
    && (forall p: nat :: ComesFrom(columns, list, c, p) && p < |given| ==> StoredAs(toReal, columns[c], Eval(m, given[p], Context([], None)), w))
    && ((forall p: nat :: !ComesFrom(columns, list, c, p)) ==> w.Null?)
  }

  ghost predicate Givable(m: Machine, columns: seq<ColumnDef>, list: Option<seq<string>>, given: seq<Expr>, c: nat)
    requires c < |columns|
  {
    && (forall p: nat :: ComesFrom(columns, list, c, p) && p < |given| ==> Accepted(columns[c], Eval(m, given[p], Context([], None))))
    && ((forall p: nat :: !ComesFrom(columns, list, c, p)) ==> !columns[c].notNull)
  }

  lemma {:induction false} ColMapMeans(columns: seq<ColumnDef>, list: Option<seq<string>>, c: nat)
    requires c < |columns|
    ensures match ColMap(columns, list, c)
            case None => forall p: nat :: !ComesFrom(columns, list, c, p)
            case Some(place) => forall p: nat :: ComesFrom(columns, list, c, p) <==> p == place
    decreases if list.Some? then |list.value| else 0
  {
    if list.Some? && list.value != [] {
      var names, n := list.value, |list.value| - 1;
      DenotedIndex(columns, c, names[n]);
      if !Denotes(columns, c, names[n]) {
        ColMapMeans(columns, Some(names[..n]), c);
        forall p: nat ensures ComesFrom(columns, list, c, p) <==> ComesFrom(columns, Some(names[..n]), c, p) {}
      }
    }
  }

  lemma OneValue(m: Machine, toReal: Int64 -> Bits64, columns: seq<ColumnDef>, list: Option<seq<string>>, given: seq<Expr>, c: nat)
    requires c < |columns| && |given| == Expected(columns, list)
    ensures ColMap(columns, list, c).Some? ==> ColMap(columns, list, c).value < |given|
    ensures var place := ColMap(columns, list, c);
            var v := if place.None? then Some(Null) else Eval(m, given[place.value], Context([], None));
            && (Givable(m, columns, list, given, c) <==> v.Some? && Coerce(toReal, columns[c], v.value).Some?)
            && (Givable(m, columns, list, given, c) ==> Gets(m, toReal, columns, list, given, c, Coerce(toReal, columns[c], v.value).value))
  {
    ColMapInRange(columns, list, c);
    ColMapMeans(columns, list, c);
    var place := ColMap(columns, list, c);
    var v := if place.None? then Some(Null) else Eval(m, given[place.value], Context([], None));
    assert place.Some? ==> ComesFrom(columns, list, c, place.value);
    if v.Some? {
      CoerceMeans(toReal, columns[c], v.value);
    }
  }

  /** What an INSERT makes of a row given, and when it fails; an expression whose column is
      named again later in the list is not evaluated. */
  lemma {:induction false} InsertRowMeans(m: Machine, toReal: Int64 -> Bits64, columns: seq<ColumnDef>, list: Option<seq<string>>, given: seq<Expr>, n: nat)
    requires n <= |columns| && |given| == Expected(columns, list)
    ensures var row := InsertRow(m, toReal, columns, list, given, n);
            && (row.Some? <==> forall c :: 0 <= c < n ==> Givable(m, columns, list, given, c))
            && (row.Some? ==> |row.value| == n && forall c :: 0 <= c < n ==> Gets(m, toReal, columns, list, given, c, row.value[c]))
  {
    hide Gets, Givable, Eval, ColMap, Coerce;
    if n > 0 {
      InsertRowMeans(m, toReal, columns, list, given, n - 1);
      OneValue(m, toReal, columns, list, given, n - 1);
    }
  }

  // ---------- keys ----------

  ghost function KeysOf(rows: Rows, column: nat): set<seq<Byte>> {
    set r | r in rows && column < |rows[r]| :: Encode(rows[r][column], r)
  }

  lemma KeysWith(rows: Rows, column: nat, r: Int64, row: seq<Value>)
    requires r !in rows && column < |row|
    ensures KeysOf(rows[r := row], column) == KeysOf(rows, column) + {Encode(row[column], r)}
    ensures Encode(row[column], r) !in KeysOf(rows, column)
  {
    var rows', key := rows[r := row], Encode(row[column], r);
    forall k | k in KeysOf(rows', column) ensures k in KeysOf(rows, column) + {key} {
      var s :| s in rows' && column < |rows'[s]| && k == Encode(rows'[s][column], s);
      assert s != r ==> s in rows && rows[s] == rows'[s];
    }
    forall k | k in KeysOf(rows, column) ensures k in KeysOf(rows', column) && k != key {
      var s :| s in rows && column < |rows[s]| && k == Encode(rows[s][column], s);
      assert rows'[s] == rows[s];
      if k == key {
        EncodeInjective(rows[s][column], s, row[column], r);
      }
    }
    assert rows'[r] == row;
  }

  lemma KeysWithout(rows: Rows, column: nat, r: Int64)
    requires r in rows && column < |rows[r]|
    ensures KeysOf(rows - {r}, column) == KeysOf(rows, column) - {Encode(rows[r][column], r)}
  {
    KeysWith(rows - {r}, column, r, rows[r]);
    assert (rows - {r})[r := rows[r]] == rows;
  }

  // ---------- what statements do to the rows ----------

  /** After the first k rows of ids were taken out and put back as news under dests. */
  ghost predicate Rewritten(before: Rows, after: Rows, ids: seq<Int64>, news: seq<seq<Value>>, dests: seq<Int64>, k: nat) {
    && k <= |ids| && k <= |news| && k <= |dests|
    && (forall i, j :: 0 <= i < j < k ==> dests[i] != dests[j])
    && (forall r :: r in before && r !in ids[..k] ==> r in after && after[r] == before[r] && r !in dests[..k])
    && (forall i :: 0 <= i < k ==> dests[i] in after && after[dests[i]] == news[i])
    && (forall r :: r in after ==> r in dests[..k] || (r in before && r !in ids[..k]))
  }

  /** The rows ids, all new, were added with these values. */
  ghost predicate Added(before: Rows, after: Rows, ids: seq<Int64>, news: seq<seq<Value>>) {
    && |ids| == |news|
    && (forall i, j :: 0 <= i < j < |ids| ==> ids[i] != ids[j])
    && (forall i :: 0 <= i < |ids| ==> ids[i] !in before && ids[i] in after && after[ids[i]] == news[i])
    && (forall r :: r in before ==> r in after && after[r] == before[r])
    && (forall r :: r in after ==> r in before || r in ids)
  }

  lemma RewrittenStep(before: Rows, mid: Rows, ids: seq<Int64>, news: seq<seq<Value>>, dests: seq<Int64>, k: nat, row: seq<Value>, dest: Int64)
    requires Rewritten(before, mid, ids, news, dests, k) && Ascending(ids) && k < |ids| && ids[k] in before
    requires |news| == |dests| == k && dest !in mid - {ids[k]}
    ensures Rewritten(before, (mid - {ids[k]})[dest := row], ids, news + [row], dests + [dest], k + 1)
  {
    var dests' := dests + [dest];
    var after := (mid - {ids[k]})[dest := row];
    assert ids[..k + 1] == ids[..k] + [ids[k]] && dests'[..k + 1] == dests' && dests[..k] == dests;
    assert ids[k] !in ids[..k];
    assert forall i :: 0 <= i < k ==> dests[i] in dests[..k];
    assert dest !in dests;
    assert forall r :: r in after <==> r == dest || (r in mid && r != ids[k]);
  }

  /** Rewriting rows keeps their number. */
  lemma RewritingConserves(before: Rows, after: Rows, ids: seq<Int64>, news: seq<seq<Value>>, dests: seq<Int64>)
    requires Rewritten(before, after, ids, news, dests, |ids|) && |dests| == |ids| && Ascending(ids)
    requires forall r :: r in ids ==> r in before
    ensures |after| == |before|
  {
    var gone, come := set r | r in ids, set r | r in dests;
    DistinctCount(ids, gone);
    DistinctCount(dests, come);
    RewrittenKeys(before, after, ids, news, dests, gone, come);
  }

  lemma RewrittenKeys(before: Rows, after: Rows, ids: seq<Int64>, news: seq<seq<Value>>, dests: seq<Int64>, gone: set<Int64>, come: set<Int64>)
    requires Rewritten(before, after, ids, news, dests, |ids|) && |dests| == |ids|
    requires forall r :: r in ids ==> r in before
    requires gone == (set r | r in ids) && come == (set r | r in dests)
    ensures |before| - |gone| == |after| - |come|
  {
    var rest := before.Keys - gone;
    assert ids[..|ids|] == ids && dests[..|ids|] == dests;
    forall r | r in come ensures r in after.Keys && r !in rest {
      var i :| 0 <= i < |dests| && dests[i] == r;
    }
    assert forall r :: r in rest ==> r in after.Keys;
    assert forall r :: r in after.Keys ==> r in come || r in rest;
    CountParts(before.Keys, rest, gone);
    CountParts(after.Keys, rest, come);
  }

  lemma CountParts(all: set<Int64>, a: set<Int64>, b: set<Int64>)
    requires a !! b && forall r :: r in all <==> r in a || r in b
    ensures |all| == |a| + |b|
  {
    assert all == a + b;
  }

  lemma {:induction false} DistinctCount<T(!new)>(s: seq<T>, elements: set<T>)
    requires forall i, j :: 0 <= i < j < |s| ==> s[i] != s[j]
    requires elements == set r | r in s
    ensures |elements| == |s|
  {
    if s != [] {
      var front, last := s[..|s| - 1], s[|s| - 1];
      assert s == front + [last];
      assert elements - {last} == set r | r in front;
      DistinctCount(front, elements - {last});
    }
  }

  /** The next rowid is the least one not below the old one and above all of ids. */
  ghost predicate NextAfter(was: int, ids: seq<Int64>, next: int) {
    was <= next && (next == was || next - 1 in ids) && forall r :: r in ids ==> r < next
  }

  lemma NextStep(was: int, ids: seq<Int64>, next: int, r: Int64)
    requires NextAfter(was, ids, next)
    ensures NextAfter(was, ids + [r], if r >= next then r + 1 else next)
  {
  }

  lemma AddedStep(before: Rows, mid: Rows, ids: seq<Int64>, news: seq<seq<Value>>, r: Int64, row: seq<Value>)
    requires Added(before, mid, ids, news) && r !in mid
    ensures Added(before, mid[r := row], ids + [r], news + [row])
  {
  }

  ghost predicate Ascending(ids: seq<Int64>) {
    forall i, j :: 0 <= i < j < |ids| ==> ids[i] < ids[j]
  }

  lemma AscendingWith(ids: seq<Int64>, r: Int64)
    requires Ascending(ids) && forall x :: x in ids ==> x < r
    ensures Ascending(ids + [r])
  {
    assert forall i :: 0 <= i < |ids| ==> ids[i] in ids;
  }

  lemma Least(s: set<Int64>) returns (least: Int64)
    requires s != {}
    ensures least in s && forall y :: y in s ==> least <= y
  {
    var x :| x in s;
    least := x;
    assert forall y :: y in s ==> y == x || y in s - {x};
    if s - {x} != {} {
      var z := Least(s - {x});
      least := if x <= z then x else z;
    }
  }

  // ---------- subqueries apart, an UPDATE is simultaneous ----------

  lemma {:induction false} EvalWithoutSubqueries(m: Machine, m': Machine, e: Expr, ctx: Context)
    requires NoSubquery(e) && m'.arith == m.arith && m'.negate == m.negate && m'.mixed == m.mixed
    ensures Eval(m', e, ctx) == Eval(m, e, ctx)
  {
    match e
    case Unary(_, x) => EvalWithoutSubqueries(m, m', x, ctx);
    case Binary(_, l, r) =>
      EvalWithoutSubqueries(m, m', l, ctx);
      EvalWithoutSubqueries(m, m', r, ctx);
    case _ =>
  }

  /** Without subqueries the new row depends on the old row alone. */
  lemma {:induction false} NewRowWithoutSubqueries(m: Machine, m': Machine, toReal: Int64 -> Bits64, columns: seq<ColumnDef>, ctx: Context,
                                                   was: seq<Value>, assigns: seq<Assignment>)
    requires RowStorable(columns, was)
    requires Known(columns, assigns) && forall a :: 0 <= a < |assigns| ==> NoSubquery(assigns[a].value)
    requires m'.arith == m.arith && m'.negate == m.negate && m'.mixed == m.mixed
    ensures NewRow(m', toReal, columns, ctx, was, assigns) == NewRow(m, toReal, columns, ctx, was, assigns)
  {
    if assigns != [] {
      NewRowWithoutSubqueries(m, m', toReal, columns, ctx, was, assigns[..|assigns| - 1]);
      EvalWithoutSubqueries(m, m', assigns[|assigns| - 1].value, ctx);
    }
  }
}
