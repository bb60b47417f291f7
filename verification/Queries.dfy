/** The FROM/WHERE part of a SELECT (src/executor.c:541-563 and 912-993): nested loops over
    the tables, each either scanned or probed through an index. */
module Queries {
  import opened Pages
  import opened Values
  import opened IndexKeys
  import opened Expressions

  datatype Entry = Entry(rowid: Int64, row: seq<Value>)

  datatype Index = Index(column: nat, keys: seq<seq<Byte>>)

  /** A table of the FROM list: rows in rowid order, indexes in catalog order. */
  datatype Source = Source(schema: Schema, rows: seq<Entry>, indexes: seq<Index>, on: Option<Expr>)

  datatype Query = Query(from: seq<Source>, where: Option<Expr>, outer: Option<Context>)

  // ---------- reading an index ----------

  /** btree_cursor_seek: the first key not below the seek key. */
  function SeekFrom(keys: seq<seq<Byte>>, key: seq<Byte>): (i: nat)
    ensures i <= |keys|
    ensures forall j :: 0 <= j < i ==> ByteCompare(keys[j], key) < 0
    ensures i < |keys| ==> ByteCompare(keys[i], key) >= 0
  {
    if keys == [] || ByteCompare(keys[0], key) >= 0 then 0 else 1 + SeekFrom(keys[1..], key)
  }

  function RunFrom(keys: seq<seq<Byte>>, i: nat, p: seq<Byte>): seq<seq<Byte>>
    requires i <= |keys|
    decreases |keys| - i
  {
    if i < |keys| && p <= keys[i] then [keys[i]] + RunFrom(keys, i + 1, p) else []
  }

  /** btree_table_search */
  function Find(rows: seq<Entry>, rowid: Int64): Option<Entry> {
    if rows == [] then None
    else if rows[0].rowid == rowid then Some(rows[0])
    else Find(rows[1..], rowid)
  }

  /** The row of a key, if its table has it. */
  function Fetch(rows: seq<Entry>, key: seq<Byte>): seq<Entry> {
    if |key| < 8 then []
    else
      var e := Find(rows, Resign(Word(key[|key| - 8..])));
      if e.Some? then [e.value] else []
  }

  function FetchAll(rows: seq<Entry>, keys: seq<seq<Byte>>): seq<Entry> {
    if keys == [] then [] else FetchAll(rows, keys[..|keys| - 1]) + Fetch(rows, keys[|keys| - 1])
  }

  function Probed(rows: seq<Entry>, keys: seq<seq<Byte>>, v: Value): seq<Entry> {
    FetchAll(rows, RunFrom(keys, SeekFrom(keys, Encode(v, 0)), Prefix(v)))
  }

  // ---------- nested loops ----------

  function Condition(q: Query, level: nat): Option<Expr>
    requires level < |q.from|
  {
    if level == 0 then q.where else q.from[level].on
  }

  function SchemasBefore(q: Query, level: nat): (s: seq<Schema>)
    requires level <= |q.from|
    ensures |s| == level
  {
    seq(level, i requires 0 <= i < level => q.from[i].schema)
  }

  function Indexed(s: Source): (columns: seq<nat>)
    ensures |columns| == |s.indexes|
  {
    seq(|s.indexes|, i requires 0 <= i < |s.indexes| => s.indexes[i].column)
  }

  /** plan_from for one level. */
  function Plan(q: Query, level: nat): (p: Option<Probe>)
    requires level < |q.from|
    ensures p.Some? ==> p.value.index < |q.from[level].indexes|
  {
    var cond, s := Condition(q, level), q.from[level];
    if cond.None? then None
    else
      ProbeInRange(cond.value, s.schema, Indexed(s), SchemasBefore(q, level));
      FindProbe(cond.value, s.schema, Indexed(s), SchemasBefore(q, level))
  }

  lemma {:induction false} ProbeInRange(cond: Expr, s: Schema, indexed: seq<nat>, before: seq<Schema>)
    ensures var p := FindProbe(cond, s, indexed, before); p.Some? ==> p.value.index < |indexed|
  {
    if cond.Binary? && cond.op == And {
      ProbeInRange(cond.left, s, indexed, before);
      ProbeInRange(cond.right, s, indexed, before);
    }
  }

  function Extend(q: Query, tables: seq<Bound>, e: Entry): seq<Bound>
    requires |tables| < |q.from|
  {
    tables + [Bound(q.from[|tables|].schema, e.row)]
  }

  /** The rows a level goes through; None when the probe value fails. */
  function Visits(m: Machine, q: Query, planned: bool, tables: seq<Bound>): Option<seq<Entry>>
    requires |tables| < |q.from|
  {
    var s, plan := q.from[|tables|], Plan(q, |tables|);
    if !planned || plan.None? then Some(s.rows)
    else
      var v := Eval(m, plan.value.value, Context(tables, q.outer));
      if v.None? then None
      else if v.value.Null? then Some([])
      else Some(Probed(s.rows, s.indexes[plan.value.index].keys, v.value))
  }

  /** exec_from_level: the combinations of rows it accepts, in order, from the tables bound
      so far; None is an error. */
  function Accepted(m: Machine, q: Query, planned: bool, tables: seq<Bound>): Option<seq<seq<Bound>>>
    requires |tables| <= |q.from|
    decreases |q.from| - |tables|, 2, 0
  {
    if |tables| == |q.from| then
      var kept := Keeps(m, q.where, Context(tables, q.outer));
      if kept.None? then None else Some(if kept.value then [tables] else [])
    else
      var entries := Visits(m, q, planned, tables);
      if entries.None? then None else AcceptedOf(m, q, planned, tables, entries.value)
  }

  function AcceptedOf(m: Machine, q: Query, planned: bool, tables: seq<Bound>, entries: seq<Entry>): Option<seq<seq<Bound>>>
    requires |tables| < |q.from|
    decreases |q.from| - |tables|, 1, |entries|
  {
    if entries == [] then Some([])
    else
      var before := AcceptedOf(m, q, planned, tables, entries[..|entries| - 1]);
      var last := AcceptedWith(m, q, planned, tables, entries[|entries| - 1]);
      if before.None? || last.None? then None else Some(before.value + last.value)
  }

  function AcceptedWith(m: Machine, q: Query, planned: bool, tables: seq<Bound>, e: Entry): Option<seq<seq<Bound>>>
    requires |tables| < |q.from|
    decreases |q.from| - |tables|, 0, 0
  {
    var kept := Keeps(m, q.from[|tables|].on, Context(Extend(q, tables, e), q.outer));
    if kept.None? then None
    else if kept.value then Accepted(m, q, planned, Extend(q, tables, e))
    else Some([])
  }

  /** An error in one row is an error of the whole. */
  lemma {:induction false} AcceptedPrefix(m: Machine, q: Query, planned: bool, tables: seq<Bound>, entries: seq<Entry>, n: nat)
    requires |tables| < |q.from| && n <= |entries| && AcceptedOf(m, q, planned, tables, entries[..n]).None?
    ensures AcceptedOf(m, q, planned, tables, entries).None?
    decreases |entries| - n
  {
    if n < |entries| {
      assert entries[..n + 1][..n] == entries[..n];
      AcceptedPrefix(m, q, planned, tables, entries, n + 1);
    } else {
      assert entries[..n] == entries;
    }
  }

  /** The state of a running SELECT: the tables bound and the combinations accepted. */
  class Select {
    const m: Machine
    const q: Query
    const plans: seq<Option<Probe>>
    var tables: seq<Bound>
    var rows: seq<seq<Bound>>

    ghost predicate Valid()
      reads this
    {
      && |tables| <= |q.from| == |plans|
      && forall i :: 0 <= i < |plans| ==> plans[i] == Plan(q, i)
    }

    /** exec_select up to the first exec_from_level, with plan_from. */
    constructor (m: Machine, q: Query)
      ensures Valid() && this.m == m && this.q == q && tables == [] && rows == []
    {
      this.m, this.q, tables, rows := m, q, [], [];
      this.plans := seq(|q.from|, i requires 0 <= i < |q.from| => Plan(q, i));
    }

    method ExecFromLevel() returns (ok: bool)
      requires Valid()
      modifies `tables, `rows
      decreases |q.from| - |tables|, 2
      ensures Valid() && tables == old(tables)
      ensures var r := Accepted(m, q, true, tables);
              ok == r.Some? && (ok ==> rows == old(rows) + r.value)
    {
      var level := |tables|;
      if level == |q.from| {
        var kept := Keeps(m, q.where, Context(tables, q.outer));
        if kept.Some? && kept.value {
          rows := rows + [tables];
        }
        return kept.Some?;
      }
      if plans[level].Some? {
        var probe := Eval(m, plans[level].value.value, Context(tables, q.outer));
        if probe.None? {
          return false;
        }
        if probe.value.Null? {
          return true;
        }
        ok := ProbeLoop(q.from[level].indexes[plans[level].value.index].keys, probe.value);
      } else {
        ok := ScanLoop();
      }
    }

    /** One row of the level: its ON condition, then the next level. */
    method WithRow(e: Entry) returns (ok: bool)
      requires Valid() && |tables| < |q.from|
      modifies `tables, `rows
      decreases |q.from| - |tables|, 0, 0
      ensures Valid() && tables == old(tables)
      ensures var r := AcceptedWith(m, q, true, tables, e);
              ok == r.Some? && (ok ==> rows == old(rows) + r.value)
    {
      var level := |tables|;
      tables := Extend(q, tables, e);
      var kept := Keeps(m, q.from[level].on, Context(tables, q.outer));
      ok := kept.Some?;
      if ok && kept.value {
        ok := ExecFromLevel();
      }
      tables := tables[..level];
    }

    method ScanLoop() returns (ok: bool)
      requires Valid() && |tables| < |q.from|
      modifies `tables, `rows
      decreases |q.from| - |tables|, 1
      ensures Valid() && tables == old(tables)
      ensures var r := AcceptedOf(m, q, true, tables, q.from[|tables|].rows);
              ok == r.Some? && (ok ==> rows == old(rows) + r.value)
    {
      var entries := q.from[|tables|].rows;
      for i := 0 to |entries|
        invariant Valid() && tables == old(tables)
        invariant var r := AcceptedOf(m, q, true, tables, entries[..i]); r.Some? && rows == old(rows) + r.value
      {
        assert entries[..i + 1][..i] == entries[..i];
        ok := WithRow(entries[i]);
        if !ok {
          AcceptedPrefix(m, q, true, tables, entries, i + 1);
          return;
        }
      }
      assert entries[..|entries|] == entries;
      ok := true;
    }

    /** The rows of an index run, from the seek position on. */
    method ProbeLoop(keys: seq<seq<Byte>>, probe: Value) returns (ok: bool)
      requires Valid() && |tables| < |q.from|
      modifies `tables, `rows
      decreases |q.from| - |tables|, 1, 1
      ensures Valid() && tables == old(tables)
      ensures var r := AcceptedOf(m, q, true, tables, Probed(q.from[|tables|].rows, keys, probe));
              ok == r.Some? && (ok ==> rows == old(rows) + r.value)
    {
      ok := RunLoop(keys, SeekFrom(keys, Encode(probe, 0)), Prefix(probe));
    }

    /** The cursor loop over an index while the prefix matches. */
    method RunLoop(keys: seq<seq<Byte>>, start: nat, p: seq<Byte>) returns (ok: bool)
      requires Valid() && |tables| < |q.from| && start <= |keys|
      modifies `tables, `rows
      decreases |q.from| - |tables|, 1, 0
      ensures Valid() && tables == old(tables)
      ensures var r := AcceptedOf(m, q, true, tables, FetchAll(q.from[|tables|].rows, RunFrom(keys, start, p)));
              ok == r.Some? && (ok ==> rows == old(rows) + r.value)
    {
      ghost var table, run := q.from[|tables|].rows, RunFrom(keys, start, p);
      ghost var n, fetched := 0, [];
      var i := start;
      while i < |keys| && p <= keys[i]
        invariant i <= |keys| && n <= |run| && Valid() && tables == old(tables)
        invariant run[n..] == RunFrom(keys, i, p) && fetched == FetchAll(table, run[..n])
        invariant var r := AcceptedOf(m, q, true, tables, fetched); r.Some? && rows == old(rows) + r.value
      {
        assert run[n] == run[n..][0] == keys[i] && run[n..][1..] == run[n + 1..];
        FetchStep(table, run, n);
        ok := WithKey(keys[i], fetched, old(rows));
        i, n, fetched := i + 1, n + 1, fetched + Fetch(table, keys[i]);
        if !ok {
          PartFails(m, q, tables, run, n);
          return;
        }
      }
      assert run[..n] == run;
      ok := true;
    }

    /** One key of the run: its row, if the table has it. */
    method WithKey(key: seq<Byte>, ghost before: seq<Entry>, ghost sofar: seq<seq<Bound>>) returns (ok: bool)
      requires Valid() && |tables| < |q.from| && AcceptedOf(m, q, true, tables, before).Some?
      requires rows == sofar + AcceptedOf(m, q, true, tables, before).value
      modifies `tables, `rows
      decreases |q.from| - |tables|, 0, 1
      ensures Valid() && tables == old(tables)
      ensures var r := AcceptedOf(m, q, true, tables, before + Fetch(q.from[|tables|].rows, key));
              ok == r.Some? && (ok ==> rows == sofar + r.value)
    {
      var found := Fetch(q.from[|tables|].rows, key);
      if found == [] {
        assert before + found == before;
        return true;
      }
      OneMore(m, q, tables, before, found[0]);
      assert found == [found[0]];
      ok := WithRow(found[0]);
    }
  }

  lemma OneMore(m: Machine, q: Query, tables: seq<Bound>, before: seq<Entry>, e: Entry)
    requires |tables| < |q.from| && AcceptedOf(m, q, true, tables, before).Some?
    ensures var last := AcceptedWith(m, q, true, tables, e);
            AcceptedOf(m, q, true, tables, before + [e]) == if last.None? then None else Some(AcceptedOf(m, q, true, tables, before).value + last.value)
  {
    assert (before + [e])[..|before|] == before;
  }

  lemma FetchStep(rows: seq<Entry>, run: seq<seq<Byte>>, n: nat)
    requires n < |run|
    ensures FetchAll(rows, run[..n + 1]) == FetchAll(rows, run[..n]) + Fetch(rows, run[n])
  {
    assert run[..n + 1][..n] == run[..n];
  }

  lemma PartFails(m: Machine, q: Query, tables: seq<Bound>, run: seq<seq<Byte>>, n: nat)
    requires |tables| < |q.from| && n <= |run|
    requires AcceptedOf(m, q, true, tables, FetchAll(q.from[|tables|].rows, run[..n])).None?
    ensures AcceptedOf(m, q, true, tables, FetchAll(q.from[|tables|].rows, run)).None?
  {
    var fetched, all := FetchAll(q.from[|tables|].rows, run[..n]), FetchAll(q.from[|tables|].rows, run);
    FetchesMore(q.from[|tables|].rows, run[..n], run[n..]);
    assert run[..n] + run[n..] == run;
    assert all[..|fetched|] == fetched;
    AcceptedPrefix(m, q, true, tables, all, |fetched|);
  }

  lemma {:induction false} FetchesMore(rows: seq<Entry>, keys: seq<seq<Byte>>, more: seq<seq<Byte>>)
    ensures FetchAll(rows, keys) <= FetchAll(rows, keys + more)
  {
    if more == [] {
      assert keys + more == keys;
    } else {
      assert (keys + more)[..|keys + more| - 1] == keys + more[..|more| - 1];
      FetchesMore(rows, keys, more[..|more| - 1]);
    }
  }
}
