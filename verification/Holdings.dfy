/** What the cells of trees mean to the executor: a table tree holds the records of rows
    under their rowids, an index tree holds keys in byte order. */
module Holdings {
  import opened Pages
  import opened Values
  import opened IndexKeys
  import opened Records
  import opened Trees
  import opened Deletes
  import opened Tables

  /** The cell btree_table_insert makes of a row. */
  function RowCell(r: Int64, row: seq<Value>): Cell {
    Row(Key(r, 8), Record(row))
  }

  /** The cell btree_index_insert makes of a key. */
  function KeyCell(key: seq<Byte>): Cell {
    Row(IndexKey(key), [])
  }

  /** What btree_table_insert takes. */
  predicate FitsPage(row: seq<Value>) {
    12 + |Record(row)| <= CAPACITY - 2
  }

  // ---------- cells put in and taken out ----------

  lemma InsertedCells(cells: seq<Cell>, c: Cell, cells': seq<Cell>)
    requires IsInserted(cells, c, cells')
    ensures forall x :: x in cells' <==> x == c || x in cells
    ensures forall r :: HasRank(cells', r) <==> r == c.key.rank || HasRank(cells, r)
  {
    var k :| IsBound(cells, c.key.rank, false, k) && cells' == cells[..k] + [c] + cells[k..];
    assert cells == cells[..k] + cells[k..];
    forall x ensures x in cells' <==> x == c || x in cells {}
    RanksOfCells(cells);
    RanksOfCells(cells');
  }

  lemma RanksOfCells(cells: seq<Cell>)
    ensures forall r :: HasRank(cells, r) <==> exists x :: x in cells && x.key.rank == r
  {}

  lemma RemovedCells(cells: seq<Cell>, rank: int, cells': seq<Cell>)
    requires Sorted(cells) && IsRemoved(cells, rank, cells')
    ensures forall x :: x in cells' <==> x in cells && x.key.rank != rank
    ensures forall r :: HasRank(cells', r) <==> r != rank && HasRank(cells, r)
  {
    var k :| 0 <= k < |cells| && cells[k].key.rank == rank && cells' == cells[..k] + cells[k + 1..];
    RemovedAre(cells, k);
    RanksOfCells(cells);
    RanksOfCells(cells');
  }

  lemma RemovedAre(cells: seq<Cell>, k: nat)
    requires Sorted(cells) && k < |cells|
    ensures forall x :: x in cells[..k] + cells[k + 1..] <==> x in cells && x.key.rank != cells[k].key.rank
  {
    assert cells == cells[..k] + [cells[k]] + cells[k + 1..];
  }

  // ---------- table trees ----------

  ghost predicate HoldsRows(cells: seq<Cell>, rows: Rows) {
    && (forall c :: c in cells ==> IsRowOf(c, rows))
    && forall r :: r in rows ==> HasRank(cells, r)
  }

  ghost predicate IsRowOf(c: Cell, rows: Rows) {
    var r := c.key.rank;
    -TWO63 <= r < TWO63 && r in rows && c == RowCell(r, rows[r])
  }

  lemma HoldsRank(cells: seq<Cell>, rows: Rows, r: Int64)
    requires HoldsRows(cells, rows)
    ensures HasRank(cells, r) <==> r in rows
  {
    if HasRank(cells, r) {
      var i :| 0 <= i < |cells| && cells[i].key.rank == r;
      assert IsRowOf(cells[i], rows);
    }
  }

  lemma HoldsInserted(cells: seq<Cell>, rows: Rows, r: Int64, row: seq<Value>, cells': seq<Cell>)
    requires HoldsRows(cells, rows) && r !in rows && IsInserted(cells, RowCell(r, row), cells')
    ensures HoldsRows(cells', rows[r := row])
  {
    InsertedCells(cells, RowCell(r, row), cells');
    forall c | c in cells' ensures IsRowOf(c, rows[r := row]) {
      assert c in cells ==> IsRowOf(c, rows);
    }
  }

  lemma HoldsRemoved(cells: seq<Cell>, rows: Rows, r: Int64, cells': seq<Cell>)
    requires HoldsRows(cells, rows) && Sorted(cells) && IsRemoved(cells, r, cells')
    ensures HoldsRows(cells', rows - {r})
  {
    RemovedCells(cells, r, cells');
    forall c | c in cells' ensures IsRowOf(c, rows - {r}) {
      assert IsRowOf(c, rows);
    }
  }

  /** There are as many cells as rows. */
  lemma HoldsCount(cells: seq<Cell>, rows: Rows)
    requires HoldsRows(cells, rows) && Sorted(cells)
    ensures |cells| == |rows|
  {
    forall c | c in cells ensures -TWO63 <= c.key.rank < TWO63 {
      assert IsRowOf(c, rows);
    }
    var ranks: seq<Int64> := seq(|cells|, i requires 0 <= i < |cells| => cells[i].key.rank);
    forall r: Int64 ensures r in rows.Keys <==> r in ranks {
      HoldsRank(cells, rows, r);
      if HasRank(cells, r) {
        var i :| 0 <= i < |cells| && cells[i].key.rank == r;
        assert ranks[i] == r;
      }
    }
    DistinctCount(ranks, rows.Keys);
    assert |rows| == |rows.Keys|;
  }

  // ---------- index trees ----------

  /** What fits the executor's key buffers. */
  predicate ShortKey(key: seq<Byte>) {
    9 <= |key| <= 96
  }

  ghost predicate HoldsKeys(cells: seq<Cell>, keys: set<seq<Byte>>) {
    && (forall c :: c in cells ==> IsKeyOf(c, keys))
    && forall k :: k in keys ==> ShortKey(k) && HasRank(cells, Rank(k))
  }

  ghost predicate IsKeyOf(c: Cell, keys: set<seq<Byte>>) {
    exists k :: k in keys && c == KeyCell(k)
  }

  lemma HoldsKeyRank(cells: seq<Cell>, keys: set<seq<Byte>>, key: seq<Byte>)
    requires HoldsKeys(cells, keys) && ShortKey(key)
    ensures HasRank(cells, Rank(key)) <==> key in keys
  {
    if HasRank(cells, Rank(key)) {
      var i :| 0 <= i < |cells| && cells[i].key.rank == Rank(key);
      assert IsKeyOf(cells[i], keys);
      var k :| k in keys && cells[i] == KeyCell(k);
      RankInjective(k, key);
    }
  }

  lemma HoldsKeyInserted(cells: seq<Cell>, keys: set<seq<Byte>>, key: seq<Byte>, cells': seq<Cell>)
    requires HoldsKeys(cells, keys) && ShortKey(key) && IsInserted(cells, KeyCell(key), cells')
    ensures HoldsKeys(cells', keys + {key})
  {
    InsertedCells(cells, KeyCell(key), cells');
    forall c | c in cells' ensures IsKeyOf(c, keys + {key}) {
      if c in cells {
        assert IsKeyOf(c, keys);
      }
    }
  }

  lemma HoldsKeyRemoved(cells: seq<Cell>, keys: set<seq<Byte>>, key: seq<Byte>, cells': seq<Cell>)
    requires HoldsKeys(cells, keys) && Sorted(cells) && ShortKey(key) && IsRemoved(cells, Rank(key), cells')
    ensures HoldsKeys(cells', keys - {key})
  {
    RemovedCells(cells, Rank(key), cells');
    forall c | c in cells' ensures IsKeyOf(c, keys - {key}) {
      assert IsKeyOf(c, keys);
      var k :| k in keys && c == KeyCell(k);
      assert k != key;
    }
    forall k | k in keys - {key} ensures HasRank(cells', Rank(k)) {
      RankInjective(k, key);
    }
  }

  // ---------- an index tree read in order ----------

  /** The cells of an index tree are these keys, one after the other. */
  ghost predicate ReadsAs(cells: seq<Cell>, keys: seq<seq<Byte>>) {
    |keys| == |cells| && forall i :: 0 <= i < |keys| ==> ShortKey(keys[i]) && cells[i] == KeyCell(keys[i])
  }

  ghost predicate Rising(keys: seq<seq<Byte>>) {
    forall i, j :: 0 <= i < j < |keys| ==> ByteCompare(keys[i], keys[j]) < 0
  }

  /** Cells in rank order are keys in byte order. */
  lemma OrderedAsKeys(cells: seq<Cell>, keys: seq<seq<Byte>>)
    requires ReadsAs(cells, keys)
    ensures Sorted(cells) <==> Rising(keys)
  {
    forall i, j | 0 <= i < j < |keys|
      ensures cells[i].key.rank < cells[j].key.rank <==> ByteCompare(keys[i], keys[j]) < 0
    {
      RankOrder(keys[i], keys[j], MAX_INDEX_KEY_LEN);
    }
  }

  /** An index tree that holds a set of keys reads as these keys, each once, in byte order. */
  lemma {:induction false} KeysRead(cells: seq<Cell>, keys: set<seq<Byte>>) returns (ks: seq<seq<Byte>>)
    requires HoldsKeys(cells, keys) && Sorted(cells)
    ensures ReadsAs(cells, ks) && Rising(ks) && keys == set k | k in ks
  {
    ks := KeysOfCells(cells, keys);
    OrderedAsKeys(cells, ks);
    forall k | k in keys ensures k in ks {
      assert HasRank(cells, Rank(k));
      var i :| 0 <= i < |cells| && cells[i].key.rank == Rank(k);
      RankInjective(k, ks[i]);
    }
  }

  lemma {:induction false} KeysOfCells(cells: seq<Cell>, keys: set<seq<Byte>>) returns (ks: seq<seq<Byte>>)
    requires (forall c :: c in cells ==> IsKeyOf(c, keys)) && forall k :: k in keys ==> ShortKey(k)
    ensures ReadsAs(cells, ks) && forall k :: k in ks ==> k in keys
  {
    if cells == [] {
      ks := [];
    } else {
      var front := KeysOfCells(cells[..|cells| - 1], keys);
      assert IsKeyOf(cells[|cells| - 1], keys);
      var k :| k in keys && cells[|cells| - 1] == KeyCell(k);
      ks := front + [k];
    }
  }

  /** A seek in the tree is a seek among the keys: both find the first one not below. */
  lemma SeekAgrees(cells: seq<Cell>, keys: seq<seq<Byte>>, key: seq<Byte>, pos: nat)
    requires ReadsAs(cells, keys) && |key| <= MAX_INDEX_KEY_LEN
    requires IsBound(cells, Rank(key), false, pos)
    ensures forall j :: 0 <= j < pos ==> ByteCompare(keys[j], key) < 0
    ensures pos < |keys| ==> ByteCompare(keys[pos], key) >= 0
  {
    forall j | 0 <= j < |keys| ensures cells[j].key.rank < Rank(key) <==> ByteCompare(keys[j], key) < 0 {
      RankOrder(keys[j], key, MAX_INDEX_KEY_LEN);
    }
  }

  /** The insertion of a key into the tree is its insertion into the list, in byte order. */
  lemma InsertReads(cells: seq<Cell>, keys: seq<seq<Byte>>, key: seq<Byte>, cells': seq<Cell>) returns (i: nat)
    requires ReadsAs(cells, keys) && ShortKey(key) && IsInserted(cells, KeyCell(key), cells')
    ensures i <= |keys| && ReadsAs(cells', keys[..i] + [key] + keys[i..])
    ensures (forall j :: 0 <= j < i ==> ByteCompare(keys[j], key) < 0) && (i < |keys| ==> ByteCompare(keys[i], key) >= 0)
  {
    var c := KeyCell(key);
    i :| IsBound(cells, c.key.rank, false, i) && cells' == cells[..i] + [c] + cells[i..];
    SeekAgrees(cells, keys, key, i);
    PartsRead(cells[..i] + [c], keys[..i] + [key], cells[i..], keys[i..]);
  }

  lemma PartsRead(a: seq<Cell>, ks: seq<seq<Byte>>, b: seq<Cell>, ls: seq<seq<Byte>>)
    requires ReadsAs(a, ks) && ReadsAs(b, ls)
    ensures ReadsAs(a + b, ks + ls)
  {}

  /** A deletion from the tree is the deletion from the list. */
  lemma RemoveReads(cells: seq<Cell>, keys: seq<seq<Byte>>, key: seq<Byte>, cells': seq<Cell>) returns (i: nat)
    requires ReadsAs(cells, keys) && ShortKey(key) && IsRemoved(cells, Rank(key), cells')
    ensures i < |keys| && keys[i] == key && ReadsAs(cells', keys[..i] + keys[i + 1..])
  {
    i :| 0 <= i < |cells| && cells[i].key.rank == Rank(key) && cells' == cells[..i] + cells[i + 1..];
    RankInjective(keys[i], key);
    PartsRead(cells[..i], keys[..i], cells[i + 1..], keys[i + 1..]);
  }
}
