/** What the statements of Statements.dfy maintain in the trees is what the index probes of
    Probes.dfy need. */
module Agreement {
  import opened Pages
  import opened Values
  import opened IndexKeys
  import opened Expressions
  import opened Trees
  import opened Tables
  import opened Holdings
  import Queries
  import Probes
  import Statements

  /** The rows of a table as a cursor gives them. */
  function EntriesOf(rows: Rows, ids: seq<Int64>): (es: seq<Queries.Entry>)
    requires forall r :: r in ids ==> r in rows
    ensures |es| == |ids| && forall i :: 0 <= i < |es| ==> es[i] == Queries.Entry(ids[i], rows[ids[i]])
  {
    seq(|ids|, i requires 0 <= i < |ids| => Queries.Entry(ids[i], rows[ids[i]]))
  }

  /** The table as an item of a FROM list, its rows in the order of a cursor. */
  function SourceOf(schema: Schema, rows: Rows, ids: seq<Int64>, indexes: seq<Queries.Index>, on: Option<Expr>): Queries.Source
    requires forall r :: r in ids ==> r in rows
  {
    Queries.Source(schema, EntriesOf(rows, ids), indexes, on)
  }

  /** An index that holds exactly the keys of the rows, read in key order, agrees with the
      table read in rowid order. */
  lemma MaintainedIndexAgrees(schema: Schema, rows: Rows, ids: seq<Int64>, indexes: seq<Queries.Index>, on: Option<Expr>, k: nat)
    requires Ascending(ids) && forall r :: r in ids <==> r in rows
    requires forall r :: r in rows ==> |rows[r]| == |schema.columns|
    requires k < |indexes| && indexes[k].column < |schema.columns| && Probes.SortedKeys(indexes[k].keys)
    requires (set key | key in indexes[k].keys) == KeysOf(rows, indexes[k].column)
    ensures Probes.WellFormedTable(SourceOf(schema, rows, ids, indexes, on))
    ensures Probes.Agrees(SourceOf(schema, rows, ids, indexes, on), indexes[k])
  {
    var s, ix := SourceOf(schema, rows, ids, indexes, on), indexes[k];
    assert forall i :: 0 <= i < |ids| ==> ids[i] in ids;
    forall i | 0 <= i < |s.rows| ensures Probes.KeyOf(ix, s.rows[i]) in ix.keys {
      assert Probes.KeyOf(ix, s.rows[i]) in KeysOf(rows, ix.column);
    }
    forall key | key in ix.keys ensures exists i :: 0 <= i < |s.rows| && Probes.KeyOf(ix, s.rows[i]) == key {
      assert key in KeysOf(rows, ix.column);
      var r :| r in rows && key == Encode(rows[r][ix.column], r);
      var i :| 0 <= i < |ids| && ids[i] == r;
      assert Probes.KeyOf(ix, s.rows[i]) == key;
    }
  }

  // ---------- the trees of a table, read by cursors ----------

  /** The rowids of a table tree in order. */
  lemma IdsRead(cells: seq<Cell>, rows: Rows) returns (ids: seq<Int64>)
    requires HoldsRows(cells, rows) && Sorted(cells)
    ensures |ids| == |cells| && Ascending(ids) && forall r :: r in ids <==> r in rows
    ensures forall i :: 0 <= i < |ids| ==> ids[i] in rows && cells[i] == RowCell(ids[i], rows[ids[i]])
  {
    forall c | c in cells ensures -TWO63 <= c.key.rank < TWO63 {
      assert IsRowOf(c, rows);
    }
    ids := seq(|cells|, i requires 0 <= i < |cells| => cells[i].key.rank);
    forall i | 0 <= i < |ids| ensures ids[i] in rows && cells[i] == RowCell(ids[i], rows[ids[i]]) {
      assert IsRowOf(cells[i], rows);
    }
    forall r | r in rows ensures r in ids {
      assert HasRank(cells, r);
      var i :| 0 <= i < |cells| && cells[i].key.rank == r;
      assert ids[i] == r;
    }
  }

  /** Each index is read from its tree. */
  ghost predicate IndexRead(t: Statements.Table, ix: IndexState, read: Queries.Index)
    reads t.forest
  {
    && ix.root in t.forest.plots && read.column == ix.column && ReadsAs(t.forest.Rows(ix.root), read.keys)
    && Rising(read.keys)
  }

  /** A table with indexes, after any statements, read through its trees: the hypotheses of
      the probe theorems hold of it. */
  lemma TableServesProbes(t: Statements.Table, schema: Schema, on: Option<Expr>) returns (s: Queries.Source)
    requires t.Valid() && |schema.columns| == |t.columns|
    ensures s.schema == schema && s.on == on && |s.indexes| == |t.indexes|
    ensures t.root in t.forest.plots && |s.rows| == |t.forest.Rows(t.root)|
    ensures forall i :: 0 <= i < |s.rows| ==> t.forest.Rows(t.root)[i] == RowCell(s.rows[i].rowid, s.rows[i].row)
    ensures forall k :: 0 <= k < |s.indexes| ==> IndexRead(t, t.indexes[k], s.indexes[k])
    ensures Probes.WellFormedTable(s) && forall k :: 0 <= k < |s.indexes| ==> Probes.Agrees(s, s.indexes[k])
  {
    assert t.Stands(t.forest.plots, t.indexes, t.nextRowid, t.rows);
    t.forest.RowsInOrder(t.root);
    var ids := IdsRead(t.forest.Rows(t.root), t.rows);
    var indexes := IndexesRead(t, |t.indexes|);
    s := SourceAgrees(schema, t.forest.Rows(t.root), t.rows, ids, indexes, on);
  }

  lemma SourceAgrees(schema: Schema, cells: seq<Cell>, rows: Rows, ids: seq<Int64>, indexes: seq<Queries.Index>, on: Option<Expr>) returns (s: Queries.Source)
    requires |ids| == |cells| && Ascending(ids) && forall r :: r in ids <==> r in rows
    requires forall i :: 0 <= i < |ids| ==> ids[i] in rows && cells[i] == RowCell(ids[i], rows[ids[i]])
    requires forall r :: r in rows ==> |rows[r]| == |schema.columns|
    requires forall k :: 0 <= k < |indexes| ==> IsIndexOf(rows, |schema.columns|, indexes[k])
    ensures s.schema == schema && s.on == on && s.indexes == indexes && |s.rows| == |cells|
    ensures forall i :: 0 <= i < |s.rows| ==> cells[i] == RowCell(s.rows[i].rowid, s.rows[i].row)
    ensures Probes.WellFormedTable(s) && forall k :: 0 <= k < |indexes| ==> Probes.Agrees(s, indexes[k])
  {
    s := SourceOf(schema, rows, ids, indexes, on);
    assert forall i :: 0 <= i < |ids| ==> ids[i] in ids;
    forall k | 0 <= k < |indexes| ensures Probes.Agrees(s, indexes[k]) {
      assert IsIndexOf(rows, |schema.columns|, indexes[k]);
      MaintainedIndexAgrees(schema, rows, ids, indexes, on, k);
    }
  }

  ghost predicate IsIndexOf(rows: Rows, columns: nat, ix: Queries.Index) {
    ix.column < columns && Rising(ix.keys) && (set key | key in ix.keys) == KeysOf(rows, ix.column)
  }

  lemma {:induction false} IndexesRead(t: Statements.Table, n: nat) returns (indexes: seq<Queries.Index>)
    requires t.Valid() && n <= |t.indexes|
    ensures |indexes| == n
    ensures forall k :: 0 <= k < n ==>
              IndexRead(t, t.indexes[k], indexes[k]) && IsIndexOf(t.rows, |t.columns|, indexes[k])
  {
    indexes := [];
    if n > 0 {
      indexes := IndexesRead(t, n - 1);
      var keys := KeysOfIndex(t, n - 1);
      indexes := indexes + [Queries.Index(t.indexes[n - 1].column, keys)];
    }
  }

  lemma KeysOfIndex(t: Statements.Table, k: nat) returns (keys: seq<seq<Byte>>)
    requires t.Valid() && k < |t.indexes|
    ensures IndexRead(t, t.indexes[k], Queries.Index(t.indexes[k].column, keys))
    ensures IsIndexOf(t.rows, |t.columns|, Queries.Index(t.indexes[k].column, keys))
  {
    assert t.Stands(t.forest.plots, t.indexes, t.nextRowid, t.rows);
    var ix := t.indexes[k];
    assert Statements.IndexStands(t.forest.plots, ix, t.rows);
    assert Statements.KeysAre(t.rows, ix.column, KeysOf(t.rows, ix.column));
    t.forest.RowsInOrder(ix.root);
    keys := KeysRead(t.forest.Rows(ix.root), KeysOf(t.rows, ix.column));
  }

  /** The seek of a probe is the seek of a cursor in the index tree. */
  lemma CursorSeeks(cells: seq<Cell>, keys: seq<seq<Byte>>, key: seq<Byte>, pos: nat)
    requires ReadsAs(cells, keys) && Rising(keys) && |key| <= MAX_INDEX_KEY_LEN
    ensures IsBound(cells, Rank(key), false, pos) <==> pos == Queries.SeekFrom(keys, key)
  {
    forall j | 0 <= j < |keys| ensures cells[j].key.rank < Rank(key) <==> ByteCompare(keys[j], key) < 0 {
      RankOrder(keys[j], key, MAX_INDEX_KEY_LEN);
    }
  }
}
