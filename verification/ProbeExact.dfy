/** When exactly an index probe gives what a scan gives. */
module ExactProbes {
  import opened Pages
  import opened Values
  import opened IndexKeys
  import opened Expressions
  import opened Queries
  import opened Probes

  // ---------- the rows a probe finds ----------

  /** What the comparison with the probe value keeps; it may stand on either side. */
  predicate Equals(m: Machine, v: Value, w: Value, flipped: bool) {
    !v.Null? && !w.Null? && (if flipped then Compare(m, v, w) else Compare(m, w, v)) == 0
  }

  lemma {:induction false} RunHasPrefix(keys: seq<seq<Byte>>, i: nat, p: seq<Byte>)
    requires i <= |keys|
    ensures forall j :: 0 <= j < |RunFrom(keys, i, p)| ==> p <= RunFrom(keys, i, p)[j]
    decreases |keys| - i
  {
    if i < |keys| && p <= keys[i] {
      RunHasPrefix(keys, i + 1, p);
    }
  }

  /** A row the probe visits and the comparison keeps has the probe value. */
  lemma VisitedHasValue(m: Machine, s: Source, ix: Index, v: Value, e: Entry, flipped: bool)
    requires WellFormedTable(s) && Agrees(s, ix) && e in Probed(s.rows, ix.keys, v)
    ensures e in s.rows && (Equals(m, v, e.row[ix.column], flipped) ==> e.row[ix.column] == v)
  {
    ProbeFetches(s, ix, v);
    var es := Probed(s.rows, ix.keys, v);
    var j :| 0 <= j < |es| && es[j] == e;
    RunHasPrefix(ix.keys, SeekFrom(ix.keys, Encode(v, 0)), Prefix(v));
    var w := e.row[ix.column];
    assert Prefix(v) <= Encode(w, e.rowid);
    PrefixMatches(v, w, e.rowid);
    if v.Text? && w.Text? {
      ByteCompareSame(v.text, w.text);
      ByteCompareSame(w.text, v.text);
    }
  }

  ghost predicate FindsAll(m: Machine, s: Source, ix: Index, v: Value, flipped: bool)
    requires WellFormedTable(s) && ix.column < |s.schema.columns|
  {
    forall e :: e in s.rows && Equals(m, v, e.row[ix.column], flipped) ==> e in Probed(s.rows, ix.keys, v)
  }

  /** No value of the column only compares equal to the probe value. */
  ghost predicate EqualOnlyIfSame(m: Machine, s: Source, column: nat, v: Value, flipped: bool)
    requires WellFormedTable(s) && column < |s.schema.columns|
  {
    forall e :: e in s.rows && Equals(m, v, e.row[column], flipped) ==> e.row[column] == v
  }

  /** The probe finds every row the comparison keeps exactly then. */
  lemma ProbeFindsAllIff(m: Machine, s: Source, ix: Index, v: Value, flipped: bool)
    requires WellFormedTable(s) && Agrees(s, ix)
    ensures FindsAll(m, s, ix, v, flipped) <==> EqualOnlyIfSame(m, s, ix.column, v, flipped)
  {
    ProbeVisits(s, ix, v);
    forall e | e in Probed(s.rows, ix.keys, v) ensures Equals(m, v, e.row[ix.column], flipped) ==> e.row[ix.column] == v {
      VisitedHasValue(m, s, ix, v, e, flipped);
    }
  }

  // ---------- one level ----------

  /** What one row contributes where the condition is one equation and there are no more tables. */
  function Contribution(m: Machine, q: Query, tables: seq<Bound>, v: Option<Value>, column: nat, flipped: bool, e: Entry): Option<seq<seq<Bound>>>
    requires |tables| < |q.from| && column < |e.row|
  {
    if v.None? then None
    else Some(if Equals(m, v.value, e.row[column], flipped) then [Extend(q, tables, e)] else [])
  }

  /** So it is for each row, probed or scanned. */
  ghost predicate Contributes(m: Machine, q: Query, tables: seq<Bound>, v: Option<Value>, column: nat, flipped: bool)
    requires |tables| < |q.from|
  {
    forall planned, e :: e in q.from[|tables|].rows ==>
      column < |e.row| && AcceptedWith(m, q, planned, tables, e) == Contribution(m, q, tables, v, column, flipped, e)
  }

  /** What the rows contribute together does not depend on the plan. */
  lemma {:induction false} SameOver(m: Machine, q: Query, tables: seq<Bound>, v: Option<Value>, column: nat, flipped: bool, entries: seq<Entry>)
    requires |tables| < |q.from| && Contributes(m, q, tables, v, column, flipped)
    requires forall i :: 0 <= i < |entries| ==> entries[i] in q.from[|tables|].rows
    ensures AcceptedOf(m, q, true, tables, entries) == AcceptedOf(m, q, false, tables, entries)
    ensures AcceptedOf(m, q, false, tables, entries).Some? <==> v.Some? || entries == []
  {
    if entries != [] {
      var front, e := entries[..|entries| - 1], entries[|entries| - 1];
      SameOver(m, q, tables, v, column, flipped, front);
      assert AcceptedWith(m, q, true, tables, e) == AcceptedWith(m, q, false, tables, e);
    }
  }

  // ---------- lists of rows ----------

  /** A part of the rows contributes no more, and less if it leaves a contributor out. */
  lemma {:induction false} SumOfPart(f: Tallies, all: seq<Entry>, some: seq<Entry>)
    requires NoRepeats(all) && NoRepeats(some) && forall e :: e in some ==> e in all
    ensures |SumOf(f, some)| <= |SumOf(f, all)|
    ensures (exists e :: e in all && e !in some && f(e) != multiset{}) ==> |SumOf(f, some)| < |SumOf(f, all)|
    decreases |all|
  {
    if all != [] {
      var front, e := all[..|all| - 1], all[|all| - 1];
      FrontOf(all);
      if e in some {
        var j :| 0 <= j < |some| && some[j] == e;
        SumWithout(f, some, j);
        WithoutOne(some, j);
        SumOfPart(f, front, some[..j] + some[j + 1..]);
      } else {
        SumOfPart(f, front, some);
      }
    } else {
      EmptyOrHasOne(some);
    }
  }

  /** So a part contributes as much as all exactly if it has every contributor. */
  lemma SumOfPartIff(f: Tallies, all: seq<Entry>, some: seq<Entry>)
    requires NoRepeats(all) && NoRepeats(some) && forall e :: e in some ==> e in all
    ensures SumOf(f, some) == SumOf(f, all) <==> forall e :: e in all && f(e) != multiset{} ==> e in some
  {
    SumOfPart(f, all, some);
    if forall e :: e in all && f(e) != multiset{} ==> e in some {
      SumOfSome(f, all, some);
    }
  }

  // ---------- exactly when ----------

  /** Both fail, or both accept the same combinations. */
  ghost predicate SameOutcome(a: Option<seq<seq<Bound>>>, b: Option<seq<seq<Bound>>>) {
    (a.Some? <==> b.Some?) && (a.Some? ==> multiset(a.value) == multiset(b.value))
  }

  /** The probe of this level: its value, and the column it looks at. */
  ghost predicate ProbeIs(m: Machine, q: Query, tables: seq<Bound>, v: Option<Value>, column: nat)
    requires |tables| < |q.from|
  {
    var p, s := Plan(q, |tables|), q.from[|tables|];
    && p.Some? && v == Eval(m, p.value.value, Context(tables, q.outer)) && column == s.indexes[p.value.index].column < |s.schema.columns|
    && WellFormedTable(s) && Agrees(s, s.indexes[p.value.index])
  }

  /** A probe gives what the scan gives exactly if: where the probe value fails, there is a
      row on which the scan fails too; where it does not, it is NULL or no value of the
      column only compares equal to it. */
  lemma LevelIff(m: Machine, q: Query, tables: seq<Bound>, v: Option<Value>, column: nat, flipped: bool)
    requires |tables| < |q.from| && ProbeIs(m, q, tables, v, column) && Contributes(m, q, tables, v, column, flipped)
    ensures var s := q.from[|tables|];
            SameOutcome(Accepted(m, q, true, tables), Accepted(m, q, false, tables)) <==>
              if v.None? then s.rows != [] else EqualOnlyIfSame(m, s, column, v.value, flipped)
  {
    SameOver(m, q, tables, v, column, flipped, q.from[|tables|].rows);
    if v.Some? {
      VisitedRows(m, q, tables, v, column, flipped);
      SameIffAllContributors(m, q, tables, v, column, flipped, Visits(m, q, true, tables).value);
    }
  }

  lemma SameIffAllContributors(m: Machine, q: Query, tables: seq<Bound>, v: Option<Value>, column: nat, flipped: bool, visited: seq<Entry>)
    requires |tables| < |q.from| && Contributes(m, q, tables, v, column, flipped) && v.Some?
    requires NoRepeats(q.from[|tables|].rows) && NoRepeats(visited) && forall e :: e in visited ==> e in q.from[|tables|].rows
    ensures SameOutcome(AcceptedOf(m, q, true, tables, visited), AcceptedOf(m, q, false, tables, q.from[|tables|].rows)) <==>
              forall e :: e in q.from[|tables|].rows && Contributions(m, q, tables)(e) != multiset{} ==> e in visited
  {
    var rows := q.from[|tables|].rows;
    SameOver(m, q, tables, v, column, flipped, rows);
    SameOver(m, q, tables, v, column, flipped, visited);
    ScanIsTally(m, q, tables, rows);
    ScanIsTally(m, q, tables, visited);
    SumOfPartIff(Contributions(m, q, tables), rows, visited);
  }

  lemma VisitedRows(m: Machine, q: Query, tables: seq<Bound>, v: Option<Value>, column: nat, flipped: bool)
    requires |tables| < |q.from| && ProbeIs(m, q, tables, v, column) && Contributes(m, q, tables, v, column, flipped) && v.Some?
    ensures var s, es := q.from[|tables|], Visits(m, q, true, tables);
            && NoRepeats(s.rows) && es.Some? && NoRepeats(es.value) && (forall e :: e in es.value ==> e in s.rows)
            && ((forall e :: e in s.rows && Contributions(m, q, tables)(e) != multiset{} ==> e in es.value)
                <==> EqualOnlyIfSame(m, s, column, v.value, flipped))
  {
    var s := q.from[|tables|];
    var ix := s.indexes[Plan(q, |tables|).value.index];
    forall e | e in s.rows ensures Contributions(m, q, tables)(e) != multiset{} <==> Equals(m, v.value, e.row[column], flipped) {
      assert AcceptedWith(m, q, false, tables, e) == Contribution(m, q, tables, v, column, flipped, e);
    }
    if !v.value.Null? {
      ProbeVisits(s, ix, v.value);
      ProbeFindsAllIff(m, s, ix, v.value, flipped);
    }
  }

  // ---------- a query on one table ----------

  /** SELECT * FROM s WHERE l = r */
  function Selection(s: Source, l: Expr, r: Expr, outer: Option<Context>): Query {
    Query([s], Some(Binary(Eq, l, r)), outer)
  }

  /** The planner probes an index of the table, whose column is not ambiguous. */
  ghost predicate Probing(m: Machine, s: Source, l: Expr, r: Expr, outer: Option<Context>) {
    var q := Selection(s, l, r, outer);
    && WellFormed(q) && s.on.None? && Plan(q, 0).Some? && Uncorrelated(m, Plan(q, 0).value.value, outer)
    && var c := if OfTable(l, s.schema) then l else r;
    c.Column? && (c.table == "" ==> Occurrences(s.schema.columns, c.column) == 1)
  }

  function ValueSide(s: Source, l: Expr, r: Expr): Expr {
    if OfTable(l, s.schema) then r else l
  }

  lemma PlanOfSelection(m: Machine, s: Source, l: Expr, r: Expr, outer: Option<Context>)
    requires Probing(m, s, l, r, outer)
    ensures var c, p := if OfTable(l, s.schema) then l else r, Plan(Selection(s, l, r, outer), 0).value;
            && OfTable(c, s.schema) && p.value == ValueSide(s, l, r) && RefsOnly(p.value, []) && Uncorrelated(m, p.value, outer)
            && ColumnIndex(s.schema.columns, c.column) == s.indexes[p.index].column < |s.schema.columns|
            && WellFormedTable(s) && Agrees(s, s.indexes[p.index])
  {
    var q := Selection(s, l, r, outer);
    assert q.from[0] == s && SchemasBefore(q, 0) == [];
    var p := Plan(q, 0).value;
    assert Agrees(q.from[0], q.from[0].indexes[p.index]);
    assert Indexed(s)[p.index] == s.indexes[p.index].column;
  }

  /** A probe value that names no column has the same value everywhere. */
  lemma {:induction false} ConstantValue(m: Machine, e: Expr, a: seq<Bound>, b: seq<Bound>, outer: Option<Context>)
    requires RefsOnly(e, []) && Uncorrelated(m, e, outer)
    ensures Eval(m, e, Context(a, outer)) == Eval(m, e, Context(b, outer))
  {
    match e
    case Unary(_, x) => ConstantValue(m, x, a, b, outer);
    case Binary(_, x, y) =>
      ConstantValue(m, x, a, b, outer);
      ConstantValue(m, y, a, b, outer);
    case _ =>
  }

  lemma ColumnOfRow(s: Source, c: Expr, e: Entry, outer: Option<Context>)
    requires WellFormedTable(s) && OfTable(c, s.schema) && e in s.rows
    requires ColumnIndex(s.schema.columns, c.column) < |s.schema.columns|
    requires c.table == "" ==> Occurrences(s.schema.columns, c.column) == 1
    ensures Resolve(Context([Bound(s.schema, e.row)], outer), c.table, c.column)
      == Some(e.row[ColumnIndex(s.schema.columns, c.column)])
  {
    var tables := [Bound(s.schema, e.row)];
    assert tables[..0] == [];
    NamedFirst(s.schema.columns, e.row, c.column);
    NamedOccurs(s.schema.columns, e.row, c.column);
    if c.table == "" {
      assert NamedIn(tables, c.column) == Named(s.schema.columns, e.row, c.column);
    } else {
      assert FindAlias(tables, c.table) == 0;
    }
  }

  lemma KeptIffEquals(m: Machine, s: Source, l: Expr, r: Expr, ctx: Context, w: Value)
    requires Eval(m, if OfTable(l, s.schema) then l else r, ctx) == Some(w)
    ensures var v := Eval(m, ValueSide(s, l, r), ctx);
            Keeps(m, Some(Binary(Eq, l, r)), ctx) == if v.None? then None else Some(Equals(m, v.value, w, !OfTable(l, s.schema)))
  {
    var v := Eval(m, ValueSide(s, l, r), ctx);
    if v.Some? {
      var out := if OfTable(l, s.schema) then Apply(m, Eq, w, v.value) else Apply(m, Eq, v.value, w);
      assert Eval(m, Binary(Eq, l, r), ctx) == out;
    }
  }

  lemma RowContributes(m: Machine, s: Source, l: Expr, r: Expr, outer: Option<Context>, planned: bool, e: Entry)
    requires Probing(m, s, l, r, outer) && e in s.rows
    ensures var q := Selection(s, l, r, outer);
            var p := Plan(q, 0).value;
            && s.indexes[p.index].column < |e.row|
            && AcceptedWith(m, q, planned, [], e)
               == Contribution(m, q, [], Eval(m, p.value, Context([], outer)), s.indexes[p.index].column, !OfTable(l, s.schema), e)
  {
    PlanOfSelection(m, s, l, r, outer);
    var q, tables, c := Selection(s, l, r, outer), [Bound(s.schema, e.row)], if OfTable(l, s.schema) then l else r;
    assert Extend(q, [], e) == tables;
    ColumnOfRow(s, c, e, outer);
    ConstantValue(m, ValueSide(s, l, r), [], tables, outer);
    assert Eval(m, c, Context(tables, outer)) == Resolve(Context(tables, outer), c.table, c.column);
    assert Keeps(m, None, Context(tables, outer)) == Some(true);
    KeptIffEquals(m, s, l, r, Context(tables, outer), e.row[ColumnIndex(s.schema.columns, c.column)]);
    assert Accepted(m, q, planned, tables) == AcceptedWith(m, q, planned, [], e);
  }

  /** On one table. */
  lemma ProbeIsScanIff(m: Machine, s: Source, l: Expr, r: Expr, outer: Option<Context>)
    requires Probing(m, s, l, r, outer)
    ensures WellFormedTable(s) && s.indexes[Plan(Selection(s, l, r, outer), 0).value.index].column < |s.schema.columns|
    ensures var q := Selection(s, l, r, outer);
            var p := Plan(q, 0).value;
            var v := Eval(m, p.value, Context([], outer));
            SameOutcome(Accepted(m, q, true, []), Accepted(m, q, false, [])) <==>
              if v.None? then s.rows != []
              else EqualOnlyIfSame(m, s, s.indexes[p.index].column, v.value, !OfTable(l, s.schema))
  {
    PlanOfSelection(m, s, l, r, outer);
    var q := Selection(s, l, r, outer);
    var p := Plan(q, 0).value;
    var v, column, flipped := Eval(m, p.value, Context([], outer)), s.indexes[p.index].column, !OfTable(l, s.schema);
    forall planned, e | e in s.rows
      ensures column < |e.row| && AcceptedWith(m, q, planned, [], e) == Contribution(m, q, [], v, column, flipped, e)
    {
      RowContributes(m, s, l, r, outer, planned, e);
    }
    LevelIff(m, q, [], v, column, flipped);
  }

  // ---------- a joined table ----------

  /** FROM ... JOIN s ON l = r without WHERE, s the last table; rows of the others are bound.
      No name in the condition is ambiguous: on each row of s its column evaluates, and so
      does the probe value if it did before. */
  ghost predicate JoinProbing(m: Machine, q: Query, tables: seq<Bound>, l: Expr, r: Expr) {
    && WellFormed(q) && BoundTo(q, tables) && 1 <= |tables| && |tables| + 1 == |q.from| && q.where.None?
    && q.from[|tables|].on == Some(Binary(Eq, l, r)) && Plan(q, |tables|).Some?
    && Uncorrelated(m, Plan(q, |tables|).value.value, q.outer)
    && forall e :: e in q.from[|tables|].rows ==> Clear(m, q, tables, l, r, e)
  }

  ghost predicate Clear(m: Machine, q: Query, tables: seq<Bound>, l: Expr, r: Expr, e: Entry)
    requires |tables| < |q.from|
  {
    var s, ctx := q.from[|tables|], Context(Extend(q, tables, e), q.outer);
    && Eval(m, if OfTable(l, s.schema) then l else r, ctx).Some?
    && (Eval(m, ValueSide(s, l, r), Context(tables, q.outer)).Some? ==> Eval(m, ValueSide(s, l, r), ctx).Some?)
  }

  lemma PlanOfJoin(m: Machine, q: Query, tables: seq<Bound>, l: Expr, r: Expr)
    requires JoinProbing(m, q, tables, l, r)
    ensures var s, p := q.from[|tables|], Plan(q, |tables|).value;
            var c := if OfTable(l, s.schema) then l else r;
            && OfTable(c, s.schema) && p.value == ValueSide(s, l, r) && RefsOnly(p.value, SchemasBefore(q, |tables|))
            && ColumnIndex(s.schema.columns, c.column) == s.indexes[p.index].column < |s.schema.columns|
            && WellFormedTable(s) && Agrees(s, s.indexes[p.index])
  {
    var s, p := q.from[|tables|], Plan(q, |tables|).value;
    ProbeOnlyBefore(Binary(Eq, l, r), s.schema, Indexed(s), SchemasBefore(q, |tables|));
    assert Agrees(s, s.indexes[p.index]);
    assert Indexed(s)[p.index] == s.indexes[p.index].column;
  }

  /** The probe value is the same with the row of this level bound. */
  lemma SameValueWithRow(m: Machine, q: Query, tables: seq<Bound>, l: Expr, r: Expr, e: Entry)
    requires JoinProbing(m, q, tables, l, r) && e in q.from[|tables|].rows
    ensures var value := ValueSide(q.from[|tables|], l, r);
            Eval(m, value, Context(Extend(q, tables, e), q.outer)) == Eval(m, value, Context(tables, q.outer))
  {
    var k, ext, value := |tables|, Extend(q, tables, e), ValueSide(q.from[|tables|], l, r);
    assert Clear(m, q, tables, l, r, e);
    PlanOfJoin(m, q, tables, l, r);
    BoundIsDistinct(q, tables, k);
    assert tables[..k] == tables && ext == tables + ext[k..];
    if Eval(m, value, Context(ext, q.outer)).Some? {
      EvaluatedEarly(m, value, tables, ext[k..], q.outer);
    }
  }

  lemma JoinedRowContributes(m: Machine, q: Query, tables: seq<Bound>, l: Expr, r: Expr, planned: bool, e: Entry)
    requires JoinProbing(m, q, tables, l, r) && e in q.from[|tables|].rows
    ensures var s, p := q.from[|tables|], Plan(q, |tables|).value;
            && s.indexes[p.index].column < |e.row|
            && AcceptedWith(m, q, planned, tables, e)
               == Contribution(m, q, tables, Eval(m, p.value, Context(tables, q.outer)), s.indexes[p.index].column, !OfTable(l, s.schema), e)
  {
    PlanOfJoin(m, q, tables, l, r);
    var s, ext := q.from[|tables|], Extend(q, tables, e);
    var c := if OfTable(l, s.schema) then l else r;
    ExtendedIsBound(q, tables, e);
    BoundIsDistinct(q, ext, |tables|);
    assert Clear(m, q, tables, l, r, e) && ext[|tables|] == Bound(s.schema, e.row);
    MatchedColumn(ext, |tables|, q.outer, c);
    SameValueWithRow(m, q, tables, l, r, e);
    KeptIffEquals(m, s, l, r, Context(ext, q.outer), e.row[ColumnIndex(s.schema.columns, c.column)]);
    assert Keeps(m, None, Context(ext, q.outer)) == Some(true);
  }

  /** At a joined table. */
  lemma JoinedProbeIsScanIff(m: Machine, q: Query, tables: seq<Bound>, l: Expr, r: Expr)
    requires JoinProbing(m, q, tables, l, r)
    ensures var s, p := q.from[|tables|], Plan(q, |tables|).value;
            WellFormedTable(s) && s.indexes[p.index].column < |s.schema.columns|
    ensures var s, p := q.from[|tables|], Plan(q, |tables|).value;
            var v := Eval(m, p.value, Context(tables, q.outer));
            SameOutcome(Accepted(m, q, true, tables), Accepted(m, q, false, tables)) <==>
              if v.None? then s.rows != []
              else EqualOnlyIfSame(m, s, s.indexes[p.index].column, v.value, !OfTable(l, s.schema))
  {
    PlanOfJoin(m, q, tables, l, r);
    var s, p := q.from[|tables|], Plan(q, |tables|).value;
    var v, column, flipped := Eval(m, p.value, Context(tables, q.outer)), s.indexes[p.index].column, !OfTable(l, s.schema);
    forall planned, e | e in s.rows
      ensures column < |e.row| && AcceptedWith(m, q, planned, tables, e) == Contribution(m, q, tables, v, column, flipped, e)
    {
      JoinedRowContributes(m, q, tables, l, r, planned, e);
    }
    LevelIff(m, q, tables, v, column, flipped);
  }

  // ---------- a failing probe value further down ----------

  /** Where a probe value fails, so does the condition it is from. */
  lemma {:induction false} FailsWithItsPart(m: Machine, cond: Expr, s: Schema, indexed: seq<nat>, before: seq<Schema>, ctx: Context)
    requires FindProbe(cond, s, indexed, before).Some?
    requires Eval(m, FindProbe(cond, s, indexed, before).value.value, ctx).None?
    ensures Eval(m, cond, ctx).None?
  {
    if cond.op == And {
      if FindProbe(cond.left, s, indexed, before).Some? {
        FailsWithItsPart(m, cond.left, s, indexed, before, ctx);
      } else {
        FailsWithItsPart(m, cond.right, s, indexed, before, ctx);
      }
    }
  }

  /** At a joined table a failing probe value always fails the plan; the scan fails too
      unless the table is empty. */
  lemma FailingProbeOfJoin(m: Machine, q: Query, tables: seq<Bound>)
    requires WellFormed(q) && BoundTo(q, tables) && 1 <= |tables| < |q.from| && Plan(q, |tables|).Some?
    requires Uncorrelated(m, Plan(q, |tables|).value.value, q.outer)
    requires Eval(m, Plan(q, |tables|).value.value, Context(tables, q.outer)).None?
    ensures Accepted(m, q, true, tables).None?
    ensures Accepted(m, q, false, tables) == if q.from[|tables|].rows == [] then Some([]) else None
  {
    var rows := q.from[|tables|].rows;
    if rows != [] {
      FailsOnRow(m, q, tables, rows[|rows| - 1]);
    }
  }

  lemma FailsOnRow(m: Machine, q: Query, tables: seq<Bound>, e: Entry)
    requires WellFormed(q) && BoundTo(q, tables) && 1 <= |tables| < |q.from| && Plan(q, |tables|).Some?
    requires Uncorrelated(m, Plan(q, |tables|).value.value, q.outer) && e in q.from[|tables|].rows
    requires Eval(m, Plan(q, |tables|).value.value, Context(tables, q.outer)).None?
    ensures AcceptedWith(m, q, false, tables, e).None?
  {
    var k, ext, s := |tables|, Extend(q, tables, e), q.from[|tables|];
    var cond, p := Condition(q, k).value, Plan(q, k).value;
    BoundIsDistinct(q, tables, k);
    assert tables[..k] == tables && ext == tables + ext[k..];
    ProbeOnlyBefore(cond, s.schema, Indexed(s), SchemasBefore(q, k));
    if Eval(m, p.value, Context(ext, q.outer)).Some? {
      EvaluatedEarly(m, p.value, tables, ext[k..], q.outer);
    }
    FailsWithItsPart(m, cond, s.schema, Indexed(s), SchemasBefore(q, k), Context(ext, q.outer));
  }

  lemma {:induction false} ProbeOnlyBefore(cond: Expr, s: Schema, indexed: seq<nat>, before: seq<Schema>)
    requires FindProbe(cond, s, indexed, before).Some?
    ensures RefsOnly(FindProbe(cond, s, indexed, before).value.value, before)
  {
    if cond.op == And {
      if FindProbe(cond.left, s, indexed, before).Some? {
        ProbeOnlyBefore(cond.left, s, indexed, before);
      } else {
        ProbeOnlyBefore(cond.right, s, indexed, before);
      }
    }
  }
}
