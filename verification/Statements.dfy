/** INSERT, UPDATE, DELETE and CREATE INDEX (src/executor.c:346-484, 1113-1248) on the trees
    of a table and its indexes. */
module Statements {
  import opened Pages
  import opened Values
  import opened IndexKeys
  import opened Expressions
  import opened Meanings
  import opened Records
  import opened Trees
  import opened Splits
  import opened Inserts
  import opened Tables
  import opened Holdings
  import opened Forests

  /** The rows of a table that may come into one leaf. */
  ghost function CellsOf(all: iset<seq<Value>>): iset<Cell> {
    iset r: Int64, row | row in all :: RowCell(r, row)
  }

  // ---------- what trees hold, as values ----------

  /** (The quantifier keeps the set of keys folded.) */
  ghost predicate IndexStands(plots: Plots, ix: IndexState, rs: Rows) {
    && ix.root in plots && plots[ix.root].kind == Index
    && forall keys :: KeysAre(rs, ix.column, keys) ==> HoldsKeys(Contents(plots[ix.root].tree), keys)
  }

  ghost predicate KeysAre(rs: Rows, column: nat, keys: set<seq<Byte>>) {
    keys == KeysOf(rs, column)
  }

  ghost predicate TreeStands(plots: Plots, root: PageId, rs: Rows) {
    root in plots && plots[root].kind == Kind.Table && HoldsRows(Contents(plots[root].tree), rs)
  }

  /** The first n indexes hold the keys of now, the others those of was. */
  ghost predicate IndexesStand(plots: Plots, ixs: seq<IndexState>, was: Rows, now: Rows, n: nat) {
    forall i :: 0 <= i < |ixs| ==> IndexStands(plots, ixs[i], if i < n then now else was)
  }

  /** Each tree has a root of its own. */
  ghost predicate Rooted(root: PageId, ixs: seq<IndexState>) {
    && (forall i :: 0 <= i < |ixs| ==> ixs[i].root != root)
    && (forall i, j :: 0 <= i < j < |ixs| ==> ixs[i].root != ixs[j].root)
  }

  ghost function RootsOf(ixs: seq<IndexState>): set<PageId> {
    set i | 0 <= i < |ixs| :: ixs[i].root
  }

  lemma NextStands(plots: Plots, plots': Plots, root: PageId, ixs: seq<IndexState>, was: Rows, now: Rows, i: nat)
    requires Rooted(root, ixs) && i < |ixs| && IndexesStand(plots, ixs, was, now, i)
    requires Alike(plots, plots', {ixs[i].root}) && IndexStands(plots', ixs[i], now)
    ensures IndexesStand(plots', ixs, was, now, i + 1)
  {
    assert SamePlots(plots, plots', {ixs[i].root});
    forall j | 0 <= j < |ixs| ensures IndexStands(plots', ixs[j], if j < i + 1 then now else was) {
      if j != i {
        assert IndexStands(plots, ixs[j], if j < i then now else was);
      }
    }
  }

  lemma NoKeysYet(plots: Plots, ix: IndexState)
    requires ix.root in plots && plots[ix.root].kind == Index && Contents(plots[ix.root].tree) == []
    ensures IndexStands(plots, ix, map[])
  {}

  lemma RootIsOne(ixs: seq<IndexState>, i: nat)
    requires i < |ixs|
    ensures RootsOf(ixs) + {ixs[i].root} == RootsOf(ixs)
  {}

  function Kinds(columns: seq<ColumnDef>): (kinds: seq<ColumnType>)
    ensures |kinds| == |columns| && forall c :: 0 <= c < |kinds| ==> kinds[c] == columns[c].kind
  {
    seq(|columns|, c requires 0 <= c < |columns| => columns[c].kind)
  }

  /** What may be stored in a page can be read back. */
  lemma StoredFits(columns: seq<ColumnDef>, row: seq<Value>)
    requires RowStorable(columns, row) && FitsPage(row)
    ensures RowFits(Kinds(columns), row)
  {
    forall c | 0 <= c < |row| ensures Fits(columns[c].kind, row[c]) {
      assert Storable(columns[c], row[c]);
      var rest := RecordParts(row, c);
      assert |Field(row[c])| <= |Record(row)|;
    }
  }

  class Table {
    const forest: Forest
    const root: PageId
    const name: string
    const columns: seq<ColumnDef>
    const pk: Option<nat>
    const toReal: Int64 -> Bits64
    var nextRowid: int
    var indexes: seq<IndexState>
    // what the trees hold
    ghost var rows: Rows

    /** A table as exec_create_table makes it, on a new tree. */
    constructor (forest: Forest, root: PageId, name: string, columns: seq<ColumnDef>, pk: Option<nat>, toReal: Int64 -> Bits64)
      requires KeyColumn(columns, pk)
      requires forest.InTxn() && root in forest.plots && forest.plots[root].kind == Kind.Table && forest.Rows(root) == []
      ensures Valid() && rows == map[] && indexes == [] && nextRowid == 1
      ensures this.forest == forest && this.root == root
      ensures this.name == name && this.columns == columns && this.pk == pk && this.toReal == toReal
    {
      this.forest, this.root, this.name, this.columns, this.pk, this.toReal := forest, root, name, columns, pk, toReal;
      rows, nextRowid, indexes := map[], 1, [];
    }

    // ---------- invariant ----------

    /** (The quantifier keeps Stands out of proofs that do not name it.) */
    ghost predicate Valid()
      reads this, forest, forest.pager, forest.pager.frames, forest.pager.txn
    {
      && forest.InTxn()
      && KeyColumn(columns, pk)
      && forall rs :: rs == rows ==> Stands(forest.plots, indexes, nextRowid, rs)
    }

    ghost predicate RowOk(r: Int64, row: seq<Value>) {
      RowFor(r, row) && FitsPage(row)
    }

    ghost predicate RowFor(r: Int64, row: seq<Value>) {
      RowStorable(columns, row) && (pk.Some? && pk.value < |row| ==> row[pk.value] == Int(r))
    }

    ghost predicate RowsOk(rs: Rows, next: int) {
      && (forall r :: r in rs ==> RowOk(r, rs[r]))
      && (pk.None? ==> 1 <= next && forall r :: r in rs ==> r < next)
    }

    /** The table tree holds exactly the rows, each index tree exactly their keys; a primary
        key is the rowid; without one, the next rowid is new. */
    ghost predicate Stands(plots: Plots, ixs: seq<IndexState>, next: int, rs: Rows) {
      && RowsOk(rs, next)
      && Rooted(root, ixs) && (forall i :: 0 <= i < |ixs| ==> ixs[i].column < |columns|)
      && TreeStands(plots, root, rs) && IndexesStand(plots, ixs, rs, rs, 0)
    }

    lemma RowsOkWith(rs: Rows, next: int, r: Int64, row: seq<Value>, inserting: bool)
      requires RowsOk(rs, next) && RowOk(r, row) && (pk.None? && !inserting ==> r < next)
      ensures RowsOk(rs[r := row], if inserting && r >= next then r + 1 else next)
    {}

    lemma RowsOkLess(rs: Rows, next: int, r: Int64)
      requires RowsOk(rs, next)
      ensures RowsOk(rs - {r}, next)
    {}

    function RowContext(row: seq<Value>): Context {
      Context([Bound(Schema(name, Names(columns)), row)], None)
    }

    // ---------- rows with their index entries ----------

    ghost predicate InColumns(row: seq<Value>)
      reads this
    {
      forall i :: 0 <= i < |indexes| ==> indexes[i].column < |row|
    }

    /** The keys of a row fit the executor's buffers. */
    ghost predicate KeysShort(row: seq<Value>)
      reads this
    {
      forall i :: 0 <= i < |indexes| && indexes[i].column < |row| ==> |Prefix(row[indexes[i].column])| <= 88
    }

    /** insert_row_indexes: none of the keys is there yet, as btree_index_insert needs. */
    method InsertRowIndexes(row: seq<Value>, r: Int64, ghost was: Rows)
      requires forest.InTxn() && Rooted(root, indexes) && IndexesStand(forest.plots, indexes, was, was, 0)
      requires InColumns(row) && KeysShort(row) && r !in was
      modifies forest`plots, forest.pager`disk, forest.pager`tick, forest.pager`run, forest.pager`pages, forest.pager`durable
      modifies forest.pager`numPages, forest.pager`freeListHead, forest.pager`freeList, forest.pager`live
      modifies forest.pager.frames, forest.pager.txn`file, forest.pager.txn`journaled
      ensures forest.InTxn() && forest.SameBut(RootsOf(indexes)) && IndexesStand(forest.plots, indexes, was[r := row], was[r := row], 0)
    {
      ghost var before, now := forest.plots, was[r := row];
      AlikeSelf(before, RootsOf(indexes));
      var i := 0;
      while i < |indexes|
        invariant 0 <= i <= |indexes| && forest.InTxn() && forest.SameBut(RootsOf(indexes))
        invariant IndexesStand(forest.plots, indexes, was, now, i)
      {
        ghost var mid := forest.plots;
        InsertIntoIndex(i, row, r, was, now);
        NextStands(mid, forest.plots, root, indexes, was, now, i);
        RootIsOne(indexes, i);
        AlikeThrough(before, mid, forest.plots, RootsOf(indexes), {indexes[i].root});
        i := i + 1;
      }
    }

    method InsertIntoIndex(i: nat, row: seq<Value>, r: Int64, ghost was: Rows, ghost now: Rows)
      requires forest.InTxn() && i < |indexes| && InColumns(row) && KeysShort(row) && r !in was && now == was[r := row]
      requires IndexStands(forest.plots, indexes[i], was)
      modifies forest`plots, forest.pager`disk, forest.pager`tick, forest.pager`run, forest.pager`pages, forest.pager`durable
      modifies forest.pager`numPages, forest.pager`freeListHead, forest.pager`freeList, forest.pager`live
      modifies forest.pager.frames, forest.pager.txn`file, forest.pager.txn`journaled
      ensures forest.InTxn() && forest.SameBut({indexes[i].root}) && IndexStands(forest.plots, indexes[i], now)
    {
      PutKey(indexes[i], row, r, was);
    }

    /** The key of a row goes into an index tree, where it is not yet. */
    method PutKey(ix: IndexState, row: seq<Value>, r: Int64, ghost was: Rows)
      requires forest.InTxn() && ix.column < |row| && |Prefix(row[ix.column])| <= 88 && r !in was && IndexStands(forest.plots, ix, was)
      modifies forest`plots, forest.pager`disk, forest.pager`tick, forest.pager`run, forest.pager`pages, forest.pager`durable
      modifies forest.pager`numPages, forest.pager`freeListHead, forest.pager`freeList, forest.pager`live
      modifies forest.pager.frames, forest.pager.txn`file, forest.pager.txn`journaled
      ensures forest.InTxn() && forest.SameBut({ix.root}) && IndexStands(forest.plots, ix, was[r := row])
    {
      ghost var keys, cells := KeysOf(was, ix.column), forest.Rows(ix.root);
      var key := Encode(row[ix.column], r);
      assert KeysAre(was, ix.column, keys);
      KeysWith(was, ix.column, r, row);
      HoldsKeyRank(cells, keys, key);
      forest.InsertKey(ix.root, IndexKey(key));
      HoldsKeyInserted(cells, keys, key, forest.Rows(ix.root));
    }

    /** delete_row_indexes */
    method DeleteRowIndexes(row: seq<Value>, r: Int64, ghost was: Rows)
      requires forest.InTxn() && Rooted(root, indexes) && IndexesStand(forest.plots, indexes, was, was, 0)
      requires InColumns(row) && r in was && was[r] == row
      modifies forest`plots, forest.pager`disk, forest.pager`tick, forest.pager`run, forest.pager`pages, forest.pager`durable
      modifies forest.pager`numPages, forest.pager`freeListHead, forest.pager`freeList, forest.pager`live
      modifies forest.pager.frames, forest.pager.txn`file, forest.pager.txn`journaled
      ensures forest.InTxn() && forest.SameBut(RootsOf(indexes)) && IndexesStand(forest.plots, indexes, was - {r}, was - {r}, 0)
    {
      ghost var before, now := forest.plots, was - {r};
      AlikeSelf(before, RootsOf(indexes));
      var i := 0;
      while i < |indexes|
        invariant 0 <= i <= |indexes| && forest.InTxn() && forest.SameBut(RootsOf(indexes))
        invariant IndexesStand(forest.plots, indexes, was, now, i)
      {
        ghost var mid := forest.plots;
        DeleteFromIndex(i, row, r, was, now);
        NextStands(mid, forest.plots, root, indexes, was, now, i);
        RootIsOne(indexes, i);
        AlikeThrough(before, mid, forest.plots, RootsOf(indexes), {indexes[i].root});
        i := i + 1;
      }
    }

    method DeleteFromIndex(i: nat, row: seq<Value>, r: Int64, ghost was: Rows, ghost now: Rows)
      requires forest.InTxn() && i < |indexes| && InColumns(row) && r in was && was[r] == row && now == was - {r}
      requires IndexStands(forest.plots, indexes[i], was)
      modifies forest`plots, forest.pager`disk, forest.pager`tick, forest.pager`run, forest.pager`pages, forest.pager`durable
      modifies forest.pager`numPages, forest.pager`freeListHead, forest.pager`freeList, forest.pager`live
      modifies forest.pager.frames, forest.pager.txn`file, forest.pager.txn`journaled
      ensures forest.InTxn() && forest.SameBut({indexes[i].root}) && IndexStands(forest.plots, indexes[i], now)
    {
      ghost var keys, cells := KeysOf(was, indexes[i].column), forest.Rows(indexes[i].root);
      var key := Encode(row[indexes[i].column], r);
      assert KeysAre(was, indexes[i].column, keys);
      forest.RowsInOrder(indexes[i].root);
      KeysWithout(was, indexes[i].column, r);
      assert key in keys;
      HoldsKeyRank(cells, keys, key);
      var ok := forest.Delete(indexes[i].root, Index, Rank(key));
      HoldsKeyRemoved(cells, keys, key, forest.Rows(indexes[i].root));
    }

    /** No row is lost when this one comes into the tree. */
    ghost predicate SplitKeeps(row: seq<Value>, r: Int64)
      reads forest
    {
      root in forest.plots && SplitFits(Kind.Table, forest.plots[root].tree, RowCell(r, row))
    }

    /** The split, if there is one, leaves two pages. */
    ghost predicate SplitReads(row: seq<Value>, r: Int64)
      reads forest
    {
      root in forest.plots && SplitReadable(Kind.Table, forest.plots[root].tree, RowCell(r, row))
    }

    /** The tree part of an insertion. */
    method PutInTree(row: seq<Value>, r: Int64, ghost was: Rows) returns (ok: bool)
      requires forest.InTxn() && TreeStands(forest.plots, root, was)
      requires FitsPage(row) && r !in was ==> SplitReads(row, r)
      modifies forest`plots, forest.pager`disk, forest.pager`tick, forest.pager`run, forest.pager`pages, forest.pager`durable
      modifies forest.pager`numPages, forest.pager`freeListHead, forest.pager`freeList, forest.pager`live
      modifies forest.pager.frames, forest.pager.txn`file, forest.pager.txn`journaled
      ensures forest.InTxn() && forest.SameBut({root})
      ensures ok <==> FitsPage(row) && r !in was
      ensures if ok then TreeStands(forest.plots, root, was[r := row]) <==> old(SplitKeeps(row, r)) else TreeStands(forest.plots, root, was)
    {
      ghost var cells, plot := forest.Rows(root), forest.plots[root];
      HoldsRank(cells, was, r);
      forest.RowsInOrder(root);
      ok := forest.InsertRow(root, r, Record(row));
      forest.RowsInOrder(root);
      if ok {
        HeldIffFits(plot, forest.plots[root], was, r, row);
      }
    }

    /** Table first, then the indexes; a row too large for a page or a rowid in use fails and
        changes nothing.  Any other row succeeds, and its keys come into the indexes; the
        table agrees with these exactly if no row got lost in the split. */
    method PutRow(row: seq<Value>, r: Int64, inserting: bool) returns (ok: bool)
      requires Valid() && RowFor(r, row)
      requires (pk.None? && !inserting ==> r < nextRowid) && KeysShort(row)
      requires FitsPage(row) && r !in rows ==> SplitReads(row, r)
      modifies `rows, `nextRowid
      modifies forest`plots, forest.pager`disk, forest.pager`tick, forest.pager`run, forest.pager`pages, forest.pager`durable
      modifies forest.pager`numPages, forest.pager`freeListHead, forest.pager`freeList, forest.pager`live
      modifies forest.pager.frames, forest.pager.txn`file, forest.pager.txn`journaled
      ensures forest.InTxn() && forest.SameBut({root} + RootsOf(indexes))
      ensures ok <==> FitsPage(row) && r !in old(rows)
      ensures rows == if ok then old(rows)[r := row] else old(rows)
      ensures nextRowid == if ok && inserting && r >= old(nextRowid) then r + 1 else old(nextRowid)
      ensures IndexesStand(forest.plots, indexes, rows, rows, 0)
      ensures if ok then Valid() <==> old(SplitKeeps(row, r)) else Valid()
    {
      ghost var was, before := rows, forest.plots;
      assert Stands(forest.plots, indexes, nextRowid, was);
      ok := PutInTree(row, r, was);
      ghost var mid := forest.plots;
      IndexesStay(before, mid, root, indexes, was);
      if ok {
        EnterRow(row, r, inserting);
        AlikeThrough(before, mid, forest.plots, {root}, RootsOf(indexes));
      } else {
        assert Stands(forest.plots, indexes, nextRowid, rows);
      }
    }

    /** The rest of an insertion: the next rowid and the indexes. */
    method EnterRow(row: seq<Value>, r: Int64, inserting: bool)
      requires forest.InTxn() && KeyColumn(columns, pk)
      requires RowsOk(rows, nextRowid) && RowOk(r, row) && (pk.None? && !inserting ==> r < nextRowid) && KeysShort(row) && r !in rows
      requires Rooted(root, indexes) && InColumns(row) && (forall i :: 0 <= i < |indexes| ==> indexes[i].column < |columns|)
      requires IndexesStand(forest.plots, indexes, rows, rows, 0)
      modifies `rows, `nextRowid
      modifies forest`plots, forest.pager`disk, forest.pager`tick, forest.pager`run, forest.pager`pages, forest.pager`durable
      modifies forest.pager`numPages, forest.pager`freeListHead, forest.pager`freeList, forest.pager`live
      modifies forest.pager.frames, forest.pager.txn`file, forest.pager.txn`journaled
      ensures forest.InTxn() && forest.SameBut(RootsOf(indexes)) && rows == old(rows)[r := row]
      ensures nextRowid == if inserting && r >= old(nextRowid) then r + 1 else old(nextRowid)
      ensures IndexesStand(forest.plots, indexes, rows, rows, 0)
      ensures Valid() <==> TreeStands(old(forest.plots), root, old(rows)[r := row])
    {
      hide Forest.Valid, Forest.InTxn, HoldsRows, IndexesStand;
      ghost var was, before := rows, forest.plots;
      RowsOkWith(was, nextRowid, r, row, inserting);
      nextRowid := if inserting && r >= nextRowid then r + 1 else nextRowid;
      InsertRowIndexes(row, r, was);
      TreeStays(before, forest.plots, root, indexes, was[r := row]);
      rows := was[r := row];
      assert Stands(forest.plots, indexes, nextRowid, rows) <==> TreeStands(before, root, rows);
    }

    /** The indexes first, then the table. */
    method TakeRow(r: Int64, row: seq<Value>)
      requires Valid() && r in rows && rows[r] == row
      modifies `rows
      modifies forest`plots, forest.pager`disk, forest.pager`tick, forest.pager`run, forest.pager`pages, forest.pager`durable
      modifies forest.pager`numPages, forest.pager`freeListHead, forest.pager`freeList, forest.pager`live
      modifies forest.pager.frames, forest.pager.txn`file, forest.pager.txn`journaled
      ensures Valid() && forest.SameBut({root} + RootsOf(indexes)) && rows == old(rows) - {r} && |rows| == |old(rows)| - 1
    {
      hide Forest.Valid, Forest.InTxn, HoldsRows, IndexesStand;
      ghost var was := rows;
      assert Stands(forest.plots, indexes, nextRowid, was) && RowOk(r, row);
      RowsOkLess(was, nextRowid, r);
      TakeFromTrees(r, row, was);
      assert was.Keys == (was - {r}).Keys + {r};
      rows := was - {r};
      assert Stands(forest.plots, indexes, nextRowid, rows);
    }

    method TakeFromTrees(r: Int64, row: seq<Value>, ghost was: Rows)
      requires forest.InTxn() && Rooted(root, indexes) && IndexesStand(forest.plots, indexes, was, was, 0)
      requires TreeStands(forest.plots, root, was) && InColumns(row) && r in was && was[r] == row
      modifies forest`plots, forest.pager`disk, forest.pager`tick, forest.pager`run, forest.pager`pages, forest.pager`durable
      modifies forest.pager`numPages, forest.pager`freeListHead, forest.pager`freeList, forest.pager`live
      modifies forest.pager.frames, forest.pager.txn`file, forest.pager.txn`journaled
      ensures forest.InTxn() && forest.SameBut({root} + RootsOf(indexes))
      ensures TreeStands(forest.plots, root, was - {r}) && IndexesStand(forest.plots, indexes, was - {r}, was - {r}, 0)
    {
      ghost var before := forest.plots;
      DeleteRowIndexes(row, r, was);
      ghost var mid := forest.plots;
      TreeStays(before, mid, root, indexes, was);
      TakeFromTree(r, was);
      IndexesStay(mid, forest.plots, root, indexes, was - {r});
      AlikeThrough(before, mid, forest.plots, RootsOf(indexes), {root});
    }

    method TakeFromTree(r: Int64, ghost was: Rows)
      requires forest.InTxn() && TreeStands(forest.plots, root, was) && r in was
      modifies forest`plots, forest.pager`disk, forest.pager`tick, forest.pager`run, forest.pager`pages, forest.pager`durable
      modifies forest.pager`numPages, forest.pager`freeListHead, forest.pager`freeList, forest.pager`live
      modifies forest.pager.frames, forest.pager.txn`file, forest.pager.txn`journaled
      ensures forest.InTxn() && forest.SameBut({root}) && TreeStands(forest.plots, root, was - {r})
    {
      ghost var cells := forest.Rows(root);
      forest.RowsInOrder(root);
      HoldsRank(cells, was, r);
      var ok := forest.Delete(root, Kind.Table, r);
      HoldsRemoved(cells, was, r, forest.Rows(root));
    }

    // ---------- reading ----------

    /** btree_table_search and record_deserialize */
    method Fetch(r: Int64) returns (row: Option<seq<Value>>)
      requires Valid()
      modifies forest`plots, forest.pager`disk, forest.pager`tick, forest.pager`run, forest.pager`pages, forest.pager`durable
      modifies forest.pager`numPages, forest.pager`freeListHead, forest.pager`freeList, forest.pager`live
      modifies forest.pager.frames, forest.pager.txn`file, forest.pager.txn`journaled
      ensures Valid() && forest.plots == old(forest.plots) && forest.pager.durable == old(forest.pager.durable) && row == if r in rows then Some(rows[r]) else None
    {
      hide Forest.Valid, Forest.InTxn, HoldsRows, IndexesStand;
      assert Stands(forest.plots, indexes, nextRowid, rows);
      HoldsRank(forest.Rows(root), rows, r);
      var payload := forest.Search(root, r);
      if payload.None? {
        return None;
      }
      PayloadOf(r, payload.value);
      StoredFits(columns, rows[r]);
      var values := Deserialize(Kinds(columns), payload.value, rows[r]);
      row := Some(values);
      assert Stands(forest.plots, indexes, nextRowid, rows);
    }

    lemma PayloadOf(r: Int64, payload: seq<Byte>)
      requires Stands(forest.plots, indexes, nextRowid, rows)
      requires exists i :: 0 <= i < |forest.Rows(root)| && forest.Rows(root)[i].key.rank == r && forest.Rows(root)[i].Row? && forest.Rows(root)[i].payload == payload
      ensures r in rows && payload == Record(rows[r]) && RowOk(r, rows[r])
    {
      var cells := forest.Rows(root);
      var i :| 0 <= i < |cells| && cells[i].key.rank == r && cells[i].Row? && cells[i].payload == payload;
      assert IsRowOf(cells[i], rows);
    }

    /** The cells a table cursor gives: the rows, in rowid order. */
    method Scan() returns (cells: seq<Cell>)
      requires Valid()
      modifies forest`plots, forest.pager`disk, forest.pager`tick, forest.pager`run, forest.pager`pages, forest.pager`durable
      modifies forest.pager`numPages, forest.pager`freeListHead, forest.pager`freeList, forest.pager`live
      modifies forest.pager.frames, forest.pager.txn`file, forest.pager.txn`journaled
      ensures Valid() && forest.plots == old(forest.plots) && forest.pager.durable == old(forest.pager.durable) && HoldsRows(cells, rows) && Sorted(cells)
    {
      assert Stands(forest.plots, indexes, nextRowid, rows);
      cells := forest.Scan(root, Kind.Table);
      assert Stands(forest.plots, indexes, nextRowid, rows);
    }

    /** The rowid and the row in a cell of the table. */
    method RowIn(c: Cell, ghost cells: seq<Cell>) returns (r: Int64, row: seq<Value>)
      requires Valid() && HoldsRows(cells, rows) && c in cells
      ensures c == RowCell(r, row) && r in rows && row == rows[r] && RowOk(r, row)
    {
      assert Stands(forest.plots, indexes, nextRowid, rows) && IsRowOf(c, rows);
      r := c.key.rank;
      StoredFits(columns, rows[r]);
      row := Deserialize(Kinds(columns), c.payload, rows[r]);
    }

    ghost predicate Matches(m: Machine, where: Option<Expr>, r: Int64)
      requires r in rows
      reads this
    {
      Keeps(m, where, RowContext(rows[r])) == Some(true)
    }

    /** collect_matching_rowids */
    method CollectMatching(m: Machine, where: Option<Expr>) returns (ok: bool, ids: seq<Int64>)
      requires Valid()
      modifies forest`plots, forest.pager`disk, forest.pager`tick, forest.pager`run, forest.pager`pages, forest.pager`durable
      modifies forest.pager`numPages, forest.pager`freeListHead, forest.pager`freeList, forest.pager`live
      modifies forest.pager.frames, forest.pager.txn`file, forest.pager.txn`journaled
      ensures Valid() && forest.plots == old(forest.plots) && forest.pager.durable == old(forest.pager.durable)
      ensures ok <==> forall r :: r in rows ==> Keeps(m, where, RowContext(rows[r])).Some?
      ensures ok ==> Ascending(ids) && (forall r :: r in ids ==> r in rows) && forall r :: r in rows ==> (Matches(m, where, r) <==> r in ids)
    {
      hide Forest.Valid, Forest.InTxn;
      var cells := Scan();
      ok, ids := MatchingIn(m, where, cells);
    }

    /** The cursor loop of collect_matching_rowids. */
    method MatchingIn(m: Machine, where: Option<Expr>, cells: seq<Cell>) returns (ok: bool, ids: seq<Int64>)
      requires Valid() && HoldsRows(cells, rows) && Sorted(cells)
      ensures ok <==> forall r :: r in rows ==> Keeps(m, where, RowContext(rows[r])).Some?
      ensures ok ==> Ascending(ids) && (forall r :: r in ids ==> r in rows) && forall r :: r in rows ==> (Matches(m, where, r) <==> r in ids)
    {
      hide Forest.Valid, Forest.InTxn;
      ids := [];
      var i := 0;
      while i < |cells|
        invariant 0 <= i <= |cells| && Collected(m, where, cells, i, ids)
      {
        var r, row := RowIn(cells[i], cells);
        var kept := Keeps(m, where, RowContext(row));
        if kept.None? {
          return false, [];
        }
        CollectStep(m, where, cells, i, ids, r, kept.value);
        ids := if kept.value then ids + [r] else ids;
        i := i + 1;
      }
      AllCollected(m, where, cells, ids);
      ok := true;
    }

    /** Of the rows in the first n cells these are kept, and no condition failed. */
    ghost predicate Collected(m: Machine, where: Option<Expr>, cells: seq<Cell>, n: nat, ids: seq<Int64>)
      reads this
    {
      && n <= |cells| && Ascending(ids)
      && (forall r :: r in ids ==> exists j :: 0 <= j < n && cells[j].key.rank == r)
      && forall j :: 0 <= j < n ==> KeptIn(m, where, cells[j].key.rank, ids)
    }

    ghost predicate KeptIn(m: Machine, where: Option<Expr>, r: int, ids: seq<Int64>)
      reads this
    {
      r in rows && Keeps(m, where, RowContext(rows[r])).Some? && (Matches(m, where, r) <==> r in ids)
    }

    lemma CollectStep(m: Machine, where: Option<Expr>, cells: seq<Cell>, n: nat, ids: seq<Int64>, r: Int64, kept: bool)
      requires n < |cells| && Sorted(cells) && Collected(m, where, cells, n, ids) && cells[n].key.rank == r && r in rows
      requires Keeps(m, where, RowContext(rows[r])) == Some(kept)
      ensures Collected(m, where, cells, n + 1, if kept then ids + [r] else ids)
    {
      assert forall x :: x in ids ==> x < r;
      AscendingWith(ids, r);
      var ids' := if kept then ids + [r] else ids;
      forall j | 0 <= j < n + 1 ensures KeptIn(m, where, cells[j].key.rank, ids') {
        if j < n {
          assert KeptIn(m, where, cells[j].key.rank, ids) && cells[j].key.rank != r;
        }
      }
      forall x | x in ids' ensures exists j :: 0 <= j < n + 1 && cells[j].key.rank == x {
        if x == r {
          assert cells[n].key.rank == x;
        }
      }
    }

    lemma AllCollected(m: Machine, where: Option<Expr>, cells: seq<Cell>, ids: seq<Int64>)
      requires HoldsRows(cells, rows) && Collected(m, where, cells, |cells|, ids)
      ensures forall r :: r in rows ==> Keeps(m, where, RowContext(rows[r])).Some? && (Matches(m, where, r) <==> r in ids)
      ensures forall r :: r in ids ==> r in rows
    {
      forall r | r in rows ensures KeptIn(m, where, r, ids) {
        assert HasRank(cells, r);
        var j :| 0 <= j < |cells| && cells[j].key.rank == r;
        assert KeptIn(m, where, cells[j].key.rank, ids);
      }
      forall r | r in ids ensures r in rows {
        var j :| 0 <= j < |cells| && cells[j].key.rank == r;
        assert KeptIn(m, where, cells[j].key.rank, ids);
      }
    }

    // ---------- CREATE INDEX ----------

    /** exec_create_index.  The catalog grants the name and a tree for it, or does not
        (catalog_create_index); the new index tree is filled from a table cursor. */
    method CreateIndex(column: string, granted: Option<PageId>) returns (ok: bool)
      requires Valid() && (granted.Some? ==> NewIndexTree(granted.value))
      requires forall r :: r in rows ==> ColumnKeyShort(ColumnIndex(Names(columns), column), rows[r])
      modifies `indexes
      modifies forest`plots, forest.pager`disk, forest.pager`tick, forest.pager`run, forest.pager`pages, forest.pager`durable
      modifies forest.pager`numPages, forest.pager`freeListHead, forest.pager`freeList, forest.pager`live
      modifies forest.pager.frames, forest.pager.txn`file, forest.pager.txn`journaled
      ensures Valid() && Alike(old(forest.plots), forest.plots, if granted.Some? then {granted.value} else {})
      ensures forest.pager.durable == old(forest.pager.durable)
      ensures ok <==> ColumnIndex(Names(columns), column) < |columns| && granted.Some?
      ensures indexes == old(indexes) + if ok then [IndexState(ColumnIndex(Names(columns), column), granted.value)] else []
    {
      hide Forest.Valid, Forest.InTxn;
      var c := ColumnIndex(Names(columns), column);
      if c == |columns| || granted.None? {
        AlikeSelf(forest.plots, if granted.Some? then {granted.value} else {});
        return false;
      }
      ghost var before := forest.plots;
      assert Stands(forest.plots, indexes, nextRowid, rows);
      var cells := Scan();
      assert Stands(forest.plots, indexes, nextRowid, rows);
      FillIndex(c, granted.value, cells);
      OneMoreStands(before, forest.plots, root, indexes, IndexState(c, granted.value), rows);
      indexes := indexes + [IndexState(c, granted.value)];
      assert Stands(forest.plots, indexes, nextRowid, rows);
      ok := true;
    }

    /** An empty index tree that no index of the table has yet. */
    ghost predicate NewIndexTree(r: PageId)
      reads this, forest
    {
      && r in forest.plots && forest.plots[r].kind == Index && Contents(forest.plots[r].tree) == []
      && r != root && forall i :: 0 <= i < |indexes| ==> indexes[i].root != r
    }

    ghost predicate ColumnKeyShort(c: nat, row: seq<Value>) {
      c < |row| ==> |Prefix(row[c])| <= 88
    }

    /** The cursor loop of exec_create_index. */
    method FillIndex(c: nat, newRoot: PageId, cells: seq<Cell>)
      requires forest.InTxn() && newRoot in forest.plots && forest.plots[newRoot].kind == Index && forest.Rows(newRoot) == []
      requires HoldsRows(cells, rows) && Sorted(cells) && c < |columns|
      requires forall r :: r in rows ==> RowOk(r, rows[r]) && ColumnKeyShort(c, rows[r])
      modifies forest`plots, forest.pager`disk, forest.pager`tick, forest.pager`run, forest.pager`pages, forest.pager`durable
      modifies forest.pager`numPages, forest.pager`freeListHead, forest.pager`freeList, forest.pager`live
      modifies forest.pager.frames, forest.pager.txn`file, forest.pager.txn`journaled
      ensures forest.InTxn() && forest.SameBut({newRoot}) && IndexStands(forest.plots, IndexState(c, newRoot), rows)
    {
      ghost var done: Rows := map[];
      ghost var before := forest.plots;
      AlikeSelf(before, {newRoot});
      NoKeysYet(before, IndexState(c, newRoot));
      var i := 0;
      while i < |cells|
        invariant 0 <= i <= |cells| && forest.InTxn() && forest.SameBut({newRoot})
        invariant Filled(cells, i, done) && IndexStands(forest.plots, IndexState(c, newRoot), done)
      {
        assert IsRowOf(cells[i], rows);
        var r: Int64 := cells[i].key.rank;
        ghost var mid := forest.plots;
        FillOne(c, newRoot, cells[i], r, done);
        AlikeThrough(before, mid, forest.plots, {newRoot}, {newRoot});
        FilledStep(cells, i, done, r);
        done := done[r := rows[r]];
        i := i + 1;
      }
      AllFilled(cells, done);
    }

    /** The rows in the first n cells. */
    ghost predicate Filled(cells: seq<Cell>, n: nat, done: Rows)
      reads this
    {
      && n <= |cells|
      && (forall r :: r in done ==> r in rows && done[r] == rows[r] && exists j :: 0 <= j < n && cells[j].key.rank == r)
      && forall j :: 0 <= j < n ==> cells[j].key.rank in done
    }

    lemma FilledStep(cells: seq<Cell>, n: nat, done: Rows, r: Int64)
      requires n < |cells| && Sorted(cells) && Filled(cells, n, done) && cells[n].key.rank == r && r in rows
      ensures Filled(cells, n + 1, done[r := rows[r]])
    {
      var done' := done[r := rows[r]];
      forall s | s in done' ensures s in rows && done'[s] == rows[s] && exists j :: 0 <= j < n + 1 && cells[j].key.rank == s {
        if s == r {
          assert cells[n].key.rank == s;
        }
      }
    }

    lemma AllFilled(cells: seq<Cell>, done: Rows)
      requires HoldsRows(cells, rows) && Filled(cells, |cells|, done)
      ensures done == rows
    {
      forall r | r in rows ensures r in done {
        assert HasRank(cells, r);
      }
    }

    method FillOne(c: nat, newRoot: PageId, cell: Cell, r: Int64, ghost done: Rows)
      requires forest.InTxn() && IndexStands(forest.plots, IndexState(c, newRoot), done)
      requires r in rows && cell == RowCell(r, rows[r]) && RowOk(r, rows[r]) && c < |columns| && ColumnKeyShort(c, rows[r])
      requires r !in done
      modifies forest`plots, forest.pager`disk, forest.pager`tick, forest.pager`run, forest.pager`pages, forest.pager`durable
      modifies forest.pager`numPages, forest.pager`freeListHead, forest.pager`freeList, forest.pager`live
      modifies forest.pager.frames, forest.pager.txn`file, forest.pager.txn`journaled
      ensures forest.InTxn() && forest.SameBut({newRoot}) && IndexStands(forest.plots, IndexState(c, newRoot), done[r := rows[r]])
    {
      StoredFits(columns, rows[r]);
      var row := Deserialize(Kinds(columns), cell.payload, rows[r]);
      PutKey(IndexState(c, newRoot), row, r, done);
    }

    // ---------- DELETE ----------

    ghost function MatchSet(m: Machine, where: Option<Expr>, rs: Rows): set<Int64> {
      set r | r in rs && Keeps(m, where, RowContext(rs[r])) == Some(true)
    }

    lemma MatchedGone(m: Machine, where: Option<Expr>, was: Rows, now: Rows, ids: seq<Int64>)
      requires Deleted(was, now, ids, |ids|)
      requires (forall r :: r in ids ==> r in was) && forall r :: r in was ==> (Keeps(m, where, RowContext(was[r])) == Some(true) <==> r in ids)
      ensures now == was - MatchSet(m, where, was)
    {
      assert ids[..|ids|] == ids;
    }

    /** exec_delete */
    method ExecDelete(m: Machine, where: Option<Expr>) returns (ok: bool, deleted: nat)
      requires Valid()
      modifies `rows
      modifies forest`plots, forest.pager`disk, forest.pager`tick, forest.pager`run, forest.pager`pages, forest.pager`durable
      modifies forest.pager`numPages, forest.pager`freeListHead, forest.pager`freeList, forest.pager`live
      modifies forest.pager.frames, forest.pager.txn`file, forest.pager.txn`journaled
      ensures Valid() && Alike(old(forest.plots), forest.plots, {root} + RootsOf(indexes))
      ensures forest.pager.durable == old(forest.pager.durable)
      ensures ok <==> forall r :: r in old(rows) ==> Keeps(m, where, RowContext(old(rows)[r])).Some?
      ensures rows == if ok then old(rows) - MatchSet(m, where, old(rows)) else old(rows)
      ensures forall r :: r in old(rows) ==> (r in rows <==> !ok || Keeps(m, where, RowContext(old(rows)[r])) == Some(false))
      ensures forall r :: r in rows ==> r in old(rows) && rows[r] == old(rows)[r]
      ensures deleted == |old(rows)| - |rows|
    {
      hide *;
      ok, deleted := DeleteMatching(m, where);
      DeletedMeans(m, where, old(rows), rows, ok);
    }

    lemma DeletedMeans(m: Machine, where: Option<Expr>, was: Rows, now: Rows, ok: bool)
      requires ok <==> forall r :: r in was ==> Keeps(m, where, RowContext(was[r])).Some?
      requires now == if ok then was - MatchSet(m, where, was) else was
      ensures forall r :: r in was ==> (r in now <==> !ok || Keeps(m, where, RowContext(was[r])) == Some(false))
      ensures forall r :: r in now ==> r in was && now[r] == was[r]
    {}

    method DeleteMatching(m: Machine, where: Option<Expr>) returns (ok: bool, deleted: nat)
      requires Valid()
      modifies `rows
      modifies forest`plots, forest.pager`disk, forest.pager`tick, forest.pager`run, forest.pager`pages, forest.pager`durable
      modifies forest.pager`numPages, forest.pager`freeListHead, forest.pager`freeList, forest.pager`live
      modifies forest.pager.frames, forest.pager.txn`file, forest.pager.txn`journaled
      ensures Valid() && Alike(old(forest.plots), forest.plots, {root} + RootsOf(indexes))
      ensures forest.pager.durable == old(forest.pager.durable)
      ensures ok <==> forall r :: r in old(rows) ==> Keeps(m, where, RowContext(old(rows)[r])).Some?
      ensures rows == if ok then old(rows) - MatchSet(m, where, old(rows)) else old(rows)
      ensures deleted == |old(rows)| - |rows|
    {
      hide Forest.Valid, Forest.InTxn, Stands;
      var ids;
      ok, ids := CollectMatching(m, where);
      deleted := 0;
      if ok {
        deleted := DeleteRows(ids);
        MatchedGone(m, where, old(rows), rows, ids);
      } else {
        AlikeSelf(forest.plots, {root} + RootsOf(indexes));
      }
    }

    method DeleteRows(ids: seq<Int64>) returns (deleted: nat)
      requires Valid()
      modifies `rows
      modifies forest`plots, forest.pager`disk, forest.pager`tick, forest.pager`run, forest.pager`pages, forest.pager`durable
      modifies forest.pager`numPages, forest.pager`freeListHead, forest.pager`freeList, forest.pager`live
      modifies forest.pager.frames, forest.pager.txn`file, forest.pager.txn`journaled
      ensures Valid() && forest.SameBut({root} + RootsOf(indexes))
      ensures Deleted(old(rows), rows, ids, |ids|) && deleted == |old(rows)| - |rows|
    {
      hide Forest.Valid, Forest.InTxn, Stands;
      deleted := 0;
      var i := 0;
      ghost var before, mine := forest.plots, {root} + RootsOf(indexes);
      AlikeSelf(before, mine);
      while i < |ids|
        invariant 0 <= i <= |ids| && Valid() && forest.SameBut(mine)
        invariant Deleted(old(rows), rows, ids, i) && deleted == |old(rows)| - |rows|
      {
        var gone := DeleteNext(ids, i, old(rows), before);
        deleted := deleted + if gone then 1 else 0;
        i := i + 1;
      }
      assert ids[..|ids|] == ids;
    }

    method DeleteNext(ids: seq<Int64>, i: nat, ghost was: Rows, ghost before: Plots) returns (gone: bool)
      requires Valid() && i < |ids| && Deleted(was, rows, ids, i) && Alike(before, forest.plots, {root} + RootsOf(indexes))
      modifies `rows
      modifies forest`plots, forest.pager`disk, forest.pager`tick, forest.pager`run, forest.pager`pages, forest.pager`durable
      modifies forest.pager`numPages, forest.pager`freeListHead, forest.pager`freeList, forest.pager`live
      modifies forest.pager.frames, forest.pager.txn`file, forest.pager.txn`journaled
      ensures Valid() && Alike(before, forest.plots, {root} + RootsOf(indexes)) && forest.pager.durable == old(forest.pager.durable)
      ensures Deleted(was, rows, ids, i + 1) && |rows| == |old(rows)| - if gone then 1 else 0
    {
      ghost var mid, left, mine := forest.plots, rows, {root} + RootsOf(indexes);
      gone := DeleteOne(ids[i]);
      AlikeThrough(before, mid, forest.plots, mine, mine);
      DeletedStep(was, left, ids, i);
    }

    method DeleteOne(r: Int64) returns (gone: bool)
      requires Valid()
      modifies `rows
      modifies forest`plots, forest.pager`disk, forest.pager`tick, forest.pager`run, forest.pager`pages, forest.pager`durable
      modifies forest.pager`numPages, forest.pager`freeListHead, forest.pager`freeList, forest.pager`live
      modifies forest.pager.frames, forest.pager.txn`file, forest.pager.txn`journaled
      ensures Valid() && forest.SameBut({root} + RootsOf(indexes))
      ensures gone <==> r in old(rows)
      ensures rows == old(rows) - {r} && |rows| == |old(rows)| - if gone then 1 else 0
    {
      hide Forest.Valid, Forest.InTxn;
      var row := Fetch(r);
      gone := row.Some?;
      if gone {
        TakeRow(r, row.value);
      } else {
        AlikeSelf(forest.plots, {root} + RootsOf(indexes));
      }
    }

    // ---------- room ----------

    /** Rows of all may come into the leaves in any company without getting lost, their keys
        fit, and the rows of the table are among them. */
    ghost predicate Room(all: iset<seq<Value>>, rs: Rows)
      reads this
    {
      && Splittable(Kind.Table, CellsOf(all))
      && (forall row :: row in all ==> KeysShort(row))
      && forall r :: r in rs ==> rs[r] in all
    }

    lemma RoomKeeps(all: iset<seq<Value>>, row: seq<Value>, r: Int64)
      requires Valid() && Room(all, rows) && row in all && FitsPage(row) && r !in rows
      ensures SplitKeeps(row, r)
    {
      assert Stands(forest.plots, indexes, nextRowid, rows);
      var cells := forest.Rows(root);
      HoldsRank(cells, rows, r);
      forall c | c in cells ensures c in CellsOf(all) && CellCost(Kind.Table, c) <= CAPACITY {
        assert IsRowOf(c, rows);
        assert RowOk(c.key.rank, rows[c.key.rank]);
      }
      assert OfCells(Kind.Table, [RowCell(r, row)], CellsOf(all));
      forest.FitsAmong(root, CellsOf(all), RowCell(r, row));
    }

    lemma KeepsReads(row: seq<Value>, r: Int64)
      requires SplitKeeps(row, r)
      ensures SplitReads(row, r)
    {
      FitsIsReadable(Kind.Table, forest.plots[root].tree, RowCell(r, row));
    }

    /** A row of a table with room: no split loses one. */
    method PutRoomy(row: seq<Value>, r: Int64, inserting: bool, ghost all: iset<seq<Value>>) returns (ok: bool)
      requires Valid() && RowFor(r, row) && (pk.None? && !inserting ==> r < nextRowid) && Room(all, rows) && row in all
      modifies `rows, `nextRowid
      modifies forest`plots, forest.pager`disk, forest.pager`tick, forest.pager`run, forest.pager`pages, forest.pager`durable
      modifies forest.pager`numPages, forest.pager`freeListHead, forest.pager`freeList, forest.pager`live
      modifies forest.pager.frames, forest.pager.txn`file, forest.pager.txn`journaled
      ensures Valid() && forest.SameBut({root} + RootsOf(indexes)) && Room(all, rows)
      ensures ok <==> FitsPage(row) && r !in old(rows)
      ensures rows == if ok then old(rows)[r := row] else old(rows)
      ensures nextRowid == if ok && inserting && r >= old(nextRowid) then r + 1 else old(nextRowid)
    {
      if FitsPage(row) && r !in rows {
        RoomKeeps(all, row, r);
        KeepsReads(row, r);
      }
      ok := PutRow(row, r, inserting);
    }

    // ---------- UPDATE ----------

    /** The new row of an UPDATE and where it goes; None is an error. */
    function Update(m: Machine, was: seq<Value>, assigns: seq<Assignment>): Option<seq<Value>>
      requires RowStorable(columns, was)
      requires Known(columns, assigns)
    {
      NewRow(m, toReal, columns, RowContext(was), was, assigns)
    }

    /** The assignment loop of exec_update. */
    method Assign(m: Machine, was: seq<Value>, assigns: seq<Assignment>) returns (row: Option<seq<Value>>)
      requires RowStorable(columns, was)
      requires Known(columns, assigns)
      ensures row == Update(m, was, assigns)
    {
      var news := was;
      for a := 0 to |assigns|
        invariant NewRow(m, toReal, columns, RowContext(was), was, assigns[..a]) == Some(news)
      {
        assert assigns[..a + 1][..a] == assigns[..a];
        var c := ColumnIndex(Names(columns), assigns[a].column);
        var v := Eval(m, assigns[a].value, RowContext(was));
        if v.None? {
          FailedAssign(m, was, assigns, a + 1);
          return None;
        }
        var w := Coerce(toReal, columns[c], v.value);
        if w.None? {
          FailedAssign(m, was, assigns, a + 1);
          return None;
        }
        news := news[c := w.value];
      }
      assert assigns[..|assigns|] == assigns;
      row := Some(news);
    }

    lemma {:induction false} FailedAssign(m: Machine, was: seq<Value>, assigns: seq<Assignment>, n: nat)
      requires RowStorable(columns, was) && n <= |assigns|
      requires Known(columns, assigns)
      requires Update(m, was, assigns[..n]).None?
      ensures Update(m, was, assigns).None?
      decreases |assigns| - n
    {
      if n < |assigns| {
        assert assigns[..n + 1][..n] == assigns[..n];
        FailedAssign(m, was, assigns, n + 1);
      } else {
        assert assigns[..n] == assigns;
      }
    }

    /** The first n rows of ids, as they were before, have these new values and places.
        subs gives the subqueries' results while the i-th row is rewritten. */
    ghost predicate Computed(m: Machine, subs: Subqueries, assigns: seq<Assignment>, before: Rows,
                             ids: seq<Int64>, news: seq<seq<Value>>, dests: seq<Int64>, n: nat) {
      && n <= |ids| && n <= |news| && n <= |dests| && Known(columns, assigns)
      && forall i :: 0 <= i < n ==>
           && ids[i] in before && RowStorable(columns, before[ids[i]])
           && Update(m.(subquery := subs(i)), before[ids[i]], assigns) == Some(news[i])
           && dests[i] == RowidFor(pk, news[i], ids[i])
    }

    /** Both: how far an UPDATE has come, folded. */
    ghost predicate Progress(m: Machine, subs: Subqueries, assigns: seq<Assignment>, before: Rows, now: Rows,
                             ids: seq<Int64>, news: seq<seq<Value>>, dests: seq<Int64>, n: nat) {
      forall k :: k == n ==> Rewritten(before, now, ids, news, dests, k) && Computed(m, subs, assigns, before, ids, news, dests, k)
    }

    /** The rows an UPDATE can make are among all. */
    ghost predicate Makes(m: Machine, subs: Subqueries, assigns: seq<Assignment>, before: Rows, all: iset<seq<Value>>) {
      forall i: nat, r :: r in before && RowStorable(columns, before[r]) && Known(columns, assigns) ==>
        MadeIn(m.(subquery := subs(i)), before[r], assigns, all)
    }

    ghost predicate MadeIn(m: Machine, was: seq<Value>, assigns: seq<Assignment>, all: iset<seq<Value>>)
      requires RowStorable(columns, was) && Known(columns, assigns)
    {
      var row := Update(m, was, assigns);
      row.Some? ==> row.value in all
    }

    /** What SET makes of a row, without saying how. */
    ghost predicate IsSet(m: Machine, assigns: seq<Assignment>, was: seq<Value>, row: seq<Value>) {
      RowSet(m, toReal, columns, RowContext(was), was, assigns, row)
    }

    ghost predicate CanSet(m: Machine, assigns: seq<Assignment>, was: seq<Value>) {
      RowSettable(m, columns, RowContext(was), assigns)
    }

    lemma UpdateMeans(m: Machine, was: seq<Value>, assigns: seq<Assignment>)
      requires RowStorable(columns, was) && Known(columns, assigns)
      ensures Update(m, was, assigns).Some? <==> CanSet(m, assigns, was)
      ensures Update(m, was, assigns).Some? ==> IsSet(m, assigns, was, Update(m, was, assigns).value)
    {
      NewRowMeans(m, toReal, columns, RowContext(was), was, assigns);
    }

    /** A row stands under its primary key, or where it stood. */
    ghost predicate At(row: seq<Value>, dest: Int64, was: Int64) {
      if pk.Some? then pk.value < |row| && row[pk.value] == Int(dest) else dest == was
    }

    /** The rows after a successful UPDATE: the matched ones as SET says, the others as before. */
    ghost predicate UpdatedRows(m: Machine, subs: Subqueries, assigns: seq<Assignment>, where: Option<Expr>, before: Rows, after: Rows,
                                ids: seq<Int64>, dests: seq<Int64>) {
      && |ids| <= |dests|
      && (forall r :: r in ids <==> r in before && Keeps(m, where, RowContext(before[r])) == Some(true))
      && (forall i :: 0 <= i < |ids| ==> SetAt(m.(subquery := subs(i)), assigns, before, after, ids[i], dests[i]))
      && (forall r :: r in before && Keeps(m, where, RowContext(before[r])) != Some(true) ==> r in after && after[r] == before[r])
      && forall r :: r in after ==> r in dests[..|ids|] || (r in before && r !in ids)
    }

    ghost predicate SetAt(m: Machine, assigns: seq<Assignment>, before: Rows, after: Rows, r: Int64, dest: Int64) {
      r in before && dest in after && IsSet(m, assigns, before[r], after[dest]) && At(after[dest], dest, r)
    }

    lemma SuccessMeans(m: Machine, subs: Subqueries, assigns: seq<Assignment>, where: Option<Expr>, before: Rows, after: Rows,
                       ids: seq<Int64>, news: seq<seq<Value>>, dests: seq<Int64>)
      requires KeyColumn(columns, pk) && Rewritten(before, after, ids, news, dests, |ids|)
      requires Computed(m, subs, assigns, before, ids, news, dests, |ids|)
      requires forall r :: r in ids <==> r in MatchSet(m, where, before)
      ensures UpdatedRows(m, subs, assigns, where, before, after, ids, dests)
    {
      assert ids[..|ids|] == ids;
      forall i | 0 <= i < |ids| ensures SetAt(m.(subquery := subs(i)), assigns, before, after, ids[i], dests[i]) {
        UpdateMeans(m.(subquery := subs(i)), before[ids[i]], assigns);
        if pk.Some? {
          KeyIsRowid(columns, pk, news[i], ids[i]);
        }
      }
    }

    /** How a failing UPDATE ends: at a row that cannot be set, or that, set, is too large for a
        page or has a primary key in use, and is lost then. */
    ghost predicate StoppedAt(m: Machine, assigns: seq<Assignment>, was: seq<Value>, r: Int64, mid: Rows, after: Rows) {
      if CanSet(m, assigns, was)
      then after == mid - {r} && exists row, dest :: IsSet(m, assigns, was, row) && At(row, dest, r) && (!FitsPage(row) || dest in mid - {r})
      else after == mid
    }

    lemma FailureMeans(m: Machine, assigns: seq<Assignment>, was: seq<Value>, r: Int64, mid: Rows, after: Rows)
      requires KeyColumn(columns, pk) && RowStorable(columns, was) && Known(columns, assigns) && UpdateFailed(m, assigns, was, r, mid, after)
      ensures StoppedAt(m, assigns, was, r, mid, after)
    {
      UpdateMeans(m, was, assigns);
      var row := Update(m, was, assigns);
      if row.Some? {
        var dest := RowidFor(pk, row.value, r);
        if pk.Some? {
          KeyIsRowid(columns, pk, row.value, r);
        }
        assert IsSet(m, assigns, was, row.value) && At(row.value, dest, r);
      }
    }

    /** How the n-th row of an UPDATE failed, from the rows mid. */
    ghost predicate UpdateFailed(m: Machine, assigns: seq<Assignment>, was: seq<Value>, r: Int64, mid: Rows, after: Rows)
      requires RowStorable(columns, was) && Known(columns, assigns)
    {
      var row := Update(m, was, assigns);
      if row.None? then after == mid
      else after == mid - {r} && (!FitsPage(row.value) || RowidFor(pk, row.value, r) in mid - {r})
    }

    /** The first loop of exec_update. */
    method AllKnown(assigns: seq<Assignment>) returns (ok: bool)
      ensures ok <==> Known(columns, assigns)
    {
      for a := 0 to |assigns|
        invariant forall b :: 0 <= b < a ==> ColumnIndex(Names(columns), assigns[b].column) < |columns|
      {
        if ColumnIndex(Names(columns), assigns[a].column) == |columns| {
          return false;
        }
      }
      ok := true;
    }

    /** exec_update.  A successful UPDATE rewrites each matched row exactly once, from its
        old values, and keeps the others, also when primary keys move; a failing one has
        done so for the first rows only, and has lost the row it could not put back: one too
        large for a page, or whose new primary key is in use (mid is the state before that
        row was taken). */
    method ExecUpdate(m: Machine, subs: Subqueries, assigns: seq<Assignment>, where: Option<Expr>, ghost all: iset<seq<Value>>)
      returns (ok: bool, updated: nat, ghost ids: seq<Int64>, ghost news: seq<seq<Value>>, ghost dests: seq<Int64>, ghost mid: Rows)
      requires Valid() && Room(all, rows) && Makes(m, subs, assigns, rows, all)
      modifies `rows, `nextRowid
      modifies forest`plots, forest.pager`disk, forest.pager`tick, forest.pager`run, forest.pager`pages, forest.pager`durable
      modifies forest.pager`numPages, forest.pager`freeListHead, forest.pager`freeList, forest.pager`live
      modifies forest.pager.frames, forest.pager.txn`file, forest.pager.txn`journaled
      ensures Valid() && Alike(old(forest.plots), forest.plots, {root} + RootsOf(indexes))
      ensures forest.pager.durable == old(forest.pager.durable) && nextRowid == old(nextRowid)
      ensures UpdateOutcome(m, subs, assigns, where, old(rows), rows, ok, updated, ids, news, dests, mid)
      ensures Did(m, subs, assigns, where, old(rows), rows, ok, updated, ids, dests, mid)
    {
      hide *;
      ok, updated, ids, news, dests, mid := UpdateMatching(m, subs, assigns, where, all);
      KeyIsKept();
      OutcomeMeans(m, subs, assigns, where, old(rows), rows, ok, updated, ids, news, dests, mid);
    }

    lemma KeyIsKept()
      requires Valid()
      ensures KeyColumn(columns, pk)
    {}

    method UpdateMatching(m: Machine, subs: Subqueries, assigns: seq<Assignment>, where: Option<Expr>, ghost all: iset<seq<Value>>)
      returns (ok: bool, updated: nat, ghost ids: seq<Int64>, ghost news: seq<seq<Value>>, ghost dests: seq<Int64>, ghost mid: Rows)
      requires Valid() && Room(all, rows) && Makes(m, subs, assigns, rows, all)
      modifies `rows, `nextRowid
      modifies forest`plots, forest.pager`disk, forest.pager`tick, forest.pager`run, forest.pager`pages, forest.pager`durable
      modifies forest.pager`numPages, forest.pager`freeListHead, forest.pager`freeList, forest.pager`live
      modifies forest.pager.frames, forest.pager.txn`file, forest.pager.txn`journaled
      ensures Valid() && Alike(old(forest.plots), forest.plots, {root} + RootsOf(indexes))
      ensures forest.pager.durable == old(forest.pager.durable) && nextRowid == old(nextRowid)
      ensures UpdateOutcome(m, subs, assigns, where, old(rows), rows, ok, updated, ids, news, dests, mid)
    {
      ids, news, dests, mid, updated := [], [], [], rows, 0;
      AlikeSelf(forest.plots, {root} + RootsOf(indexes));
      ok := AllKnown(assigns);
      var found;
      if ok {
        ok, found := CollectMatching(m, where);
      }
      if !ok {
        NotStarted(m, subs, assigns, where, rows);
        return;
      }
      AllMatched(m, where, found);
      ok, updated, news, dests, mid := UpdateRows(m, subs, assigns, found, all);
      ids := found;
      OutcomeOf(m, subs, assigns, where, old(rows), rows, ok, updated, ids, news, dests, mid);
    }

    lemma AllMatched(m: Machine, where: Option<Expr>, ids: seq<Int64>)
      requires (forall r :: r in ids ==> r in rows) && forall r :: r in rows ==> (Matches(m, where, r) <==> r in ids)
      ensures forall r :: r in ids <==> r in MatchSet(m, where, rows)
    {}

    /** The assignments name columns, and no condition fails. */
    ghost predicate Starts(m: Machine, assigns: seq<Assignment>, where: Option<Expr>, before: Rows) {
      Known(columns, assigns) && forall r :: r in before ==> Keeps(m, where, RowContext(before[r])).Some?
    }

    ghost predicate UpdateOutcome(m: Machine, subs: Subqueries, assigns: seq<Assignment>, where: Option<Expr>, before: Rows, after: Rows,
                                  ok: bool, updated: nat, ids: seq<Int64>, news: seq<seq<Value>>, dests: seq<Int64>, mid: Rows) {
      && Ascending(ids) && Rewritten(before, mid, ids, news, dests, updated)
      && (updated > 0 || ok ==> Computed(m, subs, assigns, before, ids, news, dests, updated))
      && (ok ==> updated == |ids| && after == mid && forall r :: r in ids <==> r in MatchSet(m, where, before))
      && (!ok && Starts(m, assigns, where, before) ==> FailedAt(m, subs, assigns, before, after, updated, ids, mid))
      && (!ok && !Starts(m, assigns, where, before) ==> after == before)
    }

    ghost predicate FailedAt(m: Machine, subs: Subqueries, assigns: seq<Assignment>, before: Rows, after: Rows, n: nat, ids: seq<Int64>, mid: Rows) {
      && n < |ids| && ids[n] in before && RowStorable(columns, before[ids[n]]) && Known(columns, assigns)
      && UpdateFailed(m.(subquery := subs(n)), assigns, before[ids[n]], ids[n], mid, after)
    }

    lemma NotStarted(m: Machine, subs: Subqueries, assigns: seq<Assignment>, where: Option<Expr>, before: Rows)
      requires !(Known(columns, assigns) && forall r :: r in before ==> Keeps(m, where, RowContext(before[r])).Some?)
      ensures UpdateOutcome(m, subs, assigns, where, before, before, false, 0, [], [], [], before)
    {}

    lemma OutcomeOf(m: Machine, subs: Subqueries, assigns: seq<Assignment>, where: Option<Expr>, before: Rows, after: Rows,
                    ok: bool, updated: nat, ids: seq<Int64>, news: seq<seq<Value>>, dests: seq<Int64>, mid: Rows)
      requires Ascending(ids) && Progress(m, subs, assigns, before, mid, ids, news, dests, updated)
      requires Known(columns, assigns) && (forall r :: r in before ==> Keeps(m, where, RowContext(before[r])).Some?)
      requires forall r :: r in ids <==> r in MatchSet(m, where, before)
      requires if ok then updated == |ids| && after == mid else FailedAt(m, subs, assigns, before, after, updated, ids, mid)
      ensures UpdateOutcome(m, subs, assigns, where, before, after, ok, updated, ids, news, dests, mid)
    {
      assert Rewritten(before, mid, ids, news, dests, updated) && Computed(m, subs, assigns, before, ids, news, dests, updated);
    }

    /** What an UPDATE did, in terms of the values before and after. */
    ghost predicate Did(m: Machine, subs: Subqueries, assigns: seq<Assignment>, where: Option<Expr>, before: Rows, after: Rows,
                        ok: bool, updated: nat, ids: seq<Int64>, dests: seq<Int64>, mid: Rows) {
      && (ok ==> UpdatedRows(m, subs, assigns, where, before, after, ids, dests))
      && (!ok && Starts(m, assigns, where, before) ==>
            updated < |ids| && ids[updated] in before
            && StoppedAt(m.(subquery := subs(updated)), assigns, before[ids[updated]], ids[updated], mid, after))
      && (!ok && !Starts(m, assigns, where, before) ==> after == before)
    }

    lemma OutcomeMeans(m: Machine, subs: Subqueries, assigns: seq<Assignment>, where: Option<Expr>, before: Rows, after: Rows,
                       ok: bool, updated: nat, ids: seq<Int64>, news: seq<seq<Value>>, dests: seq<Int64>, mid: Rows)
      requires KeyColumn(columns, pk) && UpdateOutcome(m, subs, assigns, where, before, after, ok, updated, ids, news, dests, mid)
      ensures Did(m, subs, assigns, where, before, after, ok, updated, ids, dests, mid)
    {
      if ok {
        SuccessMeans(m, subs, assigns, where, before, after, ids, news, dests);
      } else if Starts(m, assigns, where, before) {
        FailureMeans(m.(subquery := subs(updated)), assigns, before[ids[updated]], ids[updated], mid, after);
      }
    }

    /** The loop of exec_update over the rowids collected before. */
    method UpdateRows(m: Machine, subs: Subqueries, assigns: seq<Assignment>, ids: seq<Int64>, ghost all: iset<seq<Value>>)
      returns (ok: bool, updated: nat, ghost news: seq<seq<Value>>, ghost dests: seq<Int64>, ghost mid: Rows)
      requires Valid() && Ascending(ids) && Known(columns, assigns) && forall r :: r in ids ==> r in rows
      requires Room(all, rows) && Makes(m, subs, assigns, rows, all)
      modifies `rows, `nextRowid
      modifies forest`plots, forest.pager`disk, forest.pager`tick, forest.pager`run, forest.pager`pages, forest.pager`durable
      modifies forest.pager`numPages, forest.pager`freeListHead, forest.pager`freeList, forest.pager`live
      modifies forest.pager.frames, forest.pager.txn`file, forest.pager.txn`journaled
      ensures Valid() && forest.SameBut({root} + RootsOf(indexes)) && nextRowid == old(nextRowid)
      ensures Progress(m, subs, assigns, old(rows), mid, ids, news, dests, updated)
      ensures ok ==> updated == |ids| && rows == mid
      ensures !ok ==> FailedAt(m, subs, assigns, old(rows), rows, updated, ids, mid)
    {
      hide Forest.Valid, Forest.InTxn;
      news, dests, mid, updated := [], [], rows, 0;
      ghost var before, mine := forest.plots, {root} + RootsOf(indexes);
      AlikeSelf(before, mine);
      NoProgress(m, subs, assigns, rows, ids);
      while updated < |ids|
        invariant Valid() && forest.SameBut(mine) && nextRowid == old(nextRowid) && rows == mid && updated == |news| == |dests| <= |ids|
        invariant Room(all, rows) && Progress(m, subs, assigns, old(rows), mid, ids, news, dests, updated)
      {
        ghost var plots := forest.plots;
        NextToUpdate(m, subs, assigns, old(rows), ids, news, dests, updated, all);
        var row, dest;
        ok, row, dest := UpdateRow(m.(subquery := subs(updated)), assigns, ids[updated], all);
        AlikeThrough(before, plots, forest.plots, mine, mine);
        if !ok {
          return;
        }
        UpdateStep(m, subs, assigns, old(rows), mid, ids, news, dests, updated, row, dest);
        news, dests, mid, updated := news + [row], dests + [dest], rows, updated + 1;
      }
      ok := true;
    }

    /** The next row is still as it was. */
    lemma NextToUpdate(m: Machine, subs: Subqueries, assigns: seq<Assignment>, before: Rows, ids: seq<Int64>,
                       news: seq<seq<Value>>, dests: seq<Int64>, n: nat, all: iset<seq<Value>>)
      requires Valid() && Progress(m, subs, assigns, before, rows, ids, news, dests, n)
      requires Ascending(ids) && n < |ids| && forall r :: r in ids ==> r in before
      requires Makes(m, subs, assigns, before, all) && Known(columns, assigns)
      ensures ids[n] in before && ids[n] in rows && rows[ids[n]] == before[ids[n]] && RowStorable(columns, rows[ids[n]])
      ensures MadeIn(m.(subquery := subs(n)), rows[ids[n]], assigns, all)
    {
      assert Rewritten(before, rows, ids, news, dests, n);
      assert ids[n] in ids && ids[n] !in ids[..n];
      BelowNext(ids[n]);
    }

    lemma NoProgress(m: Machine, subs: Subqueries, assigns: seq<Assignment>, before: Rows, ids: seq<Int64>)
      requires Known(columns, assigns)
      ensures Progress(m, subs, assigns, before, before, ids, [], [], 0)
    {
      assert Rewritten(before, before, ids, [], [], 0) && Computed(m, subs, assigns, before, ids, [], [], 0);
    }

    lemma UpdateStep(m: Machine, subs: Subqueries, assigns: seq<Assignment>, before: Rows, mid: Rows,
                     ids: seq<Int64>, news: seq<seq<Value>>, dests: seq<Int64>, n: nat, row: seq<Value>, dest: Int64)
      requires Progress(m, subs, assigns, before, mid, ids, news, dests, n)
      requires Ascending(ids) && n < |ids| && |news| == |dests| == n && dest !in mid - {ids[n]}
      requires Known(columns, assigns) && ids[n] in before && RowStorable(columns, before[ids[n]])
      requires Update(m.(subquery := subs(n)), before[ids[n]], assigns) == Some(row) && dest == RowidFor(pk, row, ids[n])
      ensures Progress(m, subs, assigns, before, (mid - {ids[n]})[dest := row], ids, news + [row], dests + [dest], n + 1)
    {
      assert Rewritten(before, (mid - {ids[n]})[dest := row], ids, news + [row], dests + [dest], n + 1) by {
        assert Rewritten(before, mid, ids, news, dests, n);
        RewrittenStep(before, mid, ids, news, dests, n, row, dest);
      }
      assert Computed(m, subs, assigns, before, ids, news + [row], dests + [dest], n + 1) by {
        assert Computed(m, subs, assigns, before, ids, news, dests, n);
        ComputedStep(m, subs, assigns, before, ids, news, dests, n, row, dest);
      }
    }

    lemma ComputedStep(m: Machine, subs: Subqueries, assigns: seq<Assignment>, before: Rows,
                       ids: seq<Int64>, news: seq<seq<Value>>, dests: seq<Int64>, n: nat, row: seq<Value>, dest: Int64)
      requires Computed(m, subs, assigns, before, ids, news, dests, n) && n < |ids| && |news| == |dests| == n
      requires ids[n] in before && RowStorable(columns, before[ids[n]])
      requires Update(m.(subquery := subs(n)), before[ids[n]], assigns) == Some(row) && dest == RowidFor(pk, row, ids[n])
      ensures Computed(m, subs, assigns, before, ids, news + [row], dests + [dest], n + 1)
    {
    }

    /** Subqueries apart, the result of a successful UPDATE is the simultaneous update of
        the matched rows: nothing but the rows before decides it. */
    lemma UpdateIsSimultaneous(m: Machine, subs: Subqueries, assigns: seq<Assignment>, before: Rows, after: Rows,
                               ids: seq<Int64>, news: seq<seq<Value>>, dests: seq<Int64>)
      requires Rewritten(before, after, ids, news, dests, |ids|) && Ascending(ids) && |dests| == |ids|
      requires Computed(m, subs, assigns, before, ids, news, dests, |ids|)
      requires forall a :: 0 <= a < |assigns| ==> NoSubquery(assigns[a].value)
      ensures forall i :: 0 <= i < |ids| ==>
                var row := Update(m, before[ids[i]], assigns);
                && row.Some? && RowidFor(pk, row.value, ids[i]) in after && after[RowidFor(pk, row.value, ids[i])] == row.value
                && IsSet(m, assigns, before[ids[i]], row.value)
      ensures forall r :: r in before && r !in ids ==> r in after && after[r] == before[r]
      ensures |after| == |before|
    {
      assert ids[..|ids|] == ids;
      forall i | 0 <= i < |ids| ensures Update(m, before[ids[i]], assigns) == Some(news[i]) && IsSet(m, assigns, before[ids[i]], news[i]) {
        UpdateMeans(m, before[ids[i]], assigns);
        NewRowWithoutSubqueries(m, m.(subquery := subs(i)), toReal, columns, RowContext(before[ids[i]]), before[ids[i]], assigns);
      }
      RewritingConserves(before, after, ids, news, dests);
    }

    /** One row: new values, then out of the indexes and the table, then back in. */
    method UpdateRow(m: Machine, assigns: seq<Assignment>, r: Int64, ghost all: iset<seq<Value>>)
      returns (ok: bool, row: seq<Value>, dest: Int64)
      requires Valid() && Known(columns, assigns) && r in rows && RowStorable(columns, rows[r])
      requires Room(all, rows) && MadeIn(m, rows[r], assigns, all)
      modifies `rows, `nextRowid
      modifies forest`plots, forest.pager`disk, forest.pager`tick, forest.pager`run, forest.pager`pages, forest.pager`durable
      modifies forest.pager`numPages, forest.pager`freeListHead, forest.pager`freeList, forest.pager`live
      modifies forest.pager.frames, forest.pager.txn`file, forest.pager.txn`journaled
      ensures Valid() && forest.SameBut({root} + RootsOf(indexes)) && nextRowid == old(nextRowid) && Room(all, rows)
      ensures ok ==> Update(m, old(rows)[r], assigns) == Some(row) && dest == RowidFor(pk, row, r)
                     && dest !in old(rows) - {r} && rows == (old(rows) - {r})[dest := row]
      ensures !ok ==> UpdateFailed(m, assigns, old(rows)[r], r, old(rows), rows)
    {
      hide Forest.Valid, Forest.InTxn;
      var was := Fetch(r);
      var news := Assign(m, was.value, assigns);
      if news.None? {
        AlikeSelf(forest.plots, {root} + RootsOf(indexes));
        return false, [], r;
      }
      row, dest := news.value, RowidFor(pk, news.value, r);
      ok := MoveRow(r, was.value, row, dest, all);
    }

    /** Out of the trees under one rowid and back in under another. */
    method MoveRow(r: Int64, was: seq<Value>, row: seq<Value>, dest: Int64, ghost all: iset<seq<Value>>) returns (ok: bool)
      requires Valid() && r in rows && rows[r] == was && RowFor(dest, row) && (pk.None? ==> dest == r)
      requires Room(all, rows) && row in all
      modifies `rows, `nextRowid
      modifies forest`plots, forest.pager`disk, forest.pager`tick, forest.pager`run, forest.pager`pages, forest.pager`durable
      modifies forest.pager`numPages, forest.pager`freeListHead, forest.pager`freeList, forest.pager`live
      modifies forest.pager.frames, forest.pager.txn`file, forest.pager.txn`journaled
      ensures Valid() && forest.SameBut({root} + RootsOf(indexes)) && nextRowid == old(nextRowid) && Room(all, rows)
      ensures ok <==> FitsPage(row) && dest !in old(rows) - {r}
      ensures rows == if ok then (old(rows) - {r})[dest := row] else old(rows) - {r}
    {
      hide Forest.Valid, Forest.InTxn;
      ghost var before, mine := forest.plots, {root} + RootsOf(indexes);
      BelowNext(r);
      TakeRow(r, was);
      ghost var mid := forest.plots;
      ok := PutRoomy(row, dest, false, all);
      AlikeThrough(before, mid, forest.plots, mine, mine);
    }

    lemma BelowNext(r: Int64)
      requires Valid() && r in rows
      ensures (pk.None? ==> r < nextRowid) && RowOk(r, rows[r])
    {
      assert Stands(forest.plots, indexes, nextRowid, rows);
    }

    // ---------- INSERT ----------

    /** The row that the expressions of an INSERT give; None is an error. */
    function Given(m: Machine, list: Option<seq<string>>, given: seq<Expr>): (r: Option<seq<Value>>)
      ensures r.Some? ==> RowStorable(columns, r.value)
    {
      assert columns[..|columns|] == columns;
      if |given| == Expected(columns, list) then InsertRow(m, toReal, columns, list, given, |columns|) else None
    }

    ghost predicate Inserted(m: Machine, subs: Subqueries, list: Option<seq<string>>, given: seq<seq<Expr>>, next: int,
                             ids: seq<Int64>, news: seq<seq<Value>>, n: nat) {
      && n == |ids| == |news| <= |given|
      && forall i :: 0 <= i < n ==>
           && Given(m.(subquery := subs(i)), list, given[i]) == Some(news[i])
           && ids[i] == if pk.None? then next + i else RowidFor(pk, news[i], 0)
    }

    /** A row that these expressions give, without saying how. */
    ghost predicate IsGiven(m: Machine, list: Option<seq<string>>, given: seq<Expr>, row: seq<Value>) {
      && |given| == (if list.Some? then |list.value| else |columns|) && |row| == |columns|
      && forall c :: 0 <= c < |columns| ==> Gets(m, toReal, columns, list, given, c, row[c])
    }

    ghost predicate CanGive(m: Machine, list: Option<seq<string>>, given: seq<Expr>) {
      && |given| == (if list.Some? then |list.value| else |columns|)
      && forall c :: 0 <= c < |columns| ==> Givable(m, columns, list, given, c)
    }

    lemma GivenMeans(m: Machine, list: Option<seq<string>>, given: seq<Expr>)
      ensures Given(m, list, given).Some? <==> CanGive(m, list, given)
      ensures Given(m, list, given).Some? ==> IsGiven(m, list, given, Given(m, list, given).value)
    {
      if |given| == Expected(columns, list) {
        InsertRowMeans(m, toReal, columns, list, given, |columns|);
      }
    }

    /** The rows that came: each as its expressions say, under its primary key or the next
        rowid. */
    ghost predicate InsertedRows(m: Machine, subs: Subqueries, list: Option<seq<string>>, given: seq<seq<Expr>>, next: int,
                                 before: Rows, after: Rows, ids: seq<Int64>, n: nat) {
      && n == |ids| <= |given|
      && (forall i :: 0 <= i < n ==>
            ids[i] in after && ids[i] !in before && IsGiven(m.(subquery := subs(i)), list, given[i], after[ids[i]])
            && if pk.Some? then pk.value < |columns| && after[ids[i]][pk.value] == Int(ids[i]) else ids[i] == next + i)
      && forall r :: r in after <==> r in before || r in ids
    }

    /** Why a row was refused: a value fails or its column does not accept it, the row is too
        large for a page, or its primary key is in use. */
    ghost predicate IsRefused(m: Machine, list: Option<seq<string>>, given: seq<Expr>, rs: Rows) {
      CanGive(m, list, given) ==>
        exists row :: IsGiven(m, list, given, row) && (!FitsPage(row) || (pk.Some? && pk.value < |row| && InUse(row[pk.value], rs)))
    }

    ghost predicate InUse(key: Value, rs: Rows) {
      key.Int? && key.i in rs
    }

    lemma InsertedMeans(m: Machine, subs: Subqueries, list: Option<seq<string>>, given: seq<seq<Expr>>, next: int,
                        before: Rows, after: Rows, ids: seq<Int64>, news: seq<seq<Value>>, n: nat)
      requires KeyColumn(columns, pk) && Inserted(m, subs, list, given, next, ids, news, n) && Added(before, after, ids, news)
      ensures InsertedRows(m, subs, list, given, next, before, after, ids, n)
    {
      forall i | 0 <= i < n
        ensures IsGiven(m.(subquery := subs(i)), list, given[i], news[i])
        ensures pk.Some? ==> pk.value < |columns| && news[i][pk.value] == Int(ids[i])
      {
        GivenMeans(m.(subquery := subs(i)), list, given[i]);
        if pk.Some? {
          KeyIsRowid(columns, pk, news[i], 0);
        }
      }
    }

    lemma RefusedMeans(m: Machine, list: Option<seq<string>>, given: seq<Expr>, rs: Rows)
      requires KeyColumn(columns, pk) && Refused(m, list, given, rs)
      ensures IsRefused(m, list, given, rs)
    {
      GivenMeans(m, list, given);
      var row := Given(m, list, given);
      if row.Some? && pk.Some? {
        KeyIsRowid(columns, pk, row.value, 0);
      }
    }

    lemma ListedMeans(list: Option<seq<string>>)
      ensures Listed(list) <==> (list.Some? ==> forall i :: 0 <= i < |list.value| ==> HasColumn(list.value[i]))
    {
      if list.Some? {
        forall i | 0 <= i < |list.value| ensures ColumnIndex(Names(columns), list.value[i]) < |columns| <==> HasColumn(list.value[i]) {
          var c := ColumnIndex(Names(columns), list.value[i]);
          assert c < |columns| ==> Names(columns)[c] == columns[c].name;
        }
      }
    }

    ghost predicate HasColumn(name: string) {
      exists c :: 0 <= c < |columns| && columns[c].name == name
    }

    /** In WHERE and SET a column name stands for the value of the row, if no other column has
        it, and so does the name with the table's. */
    lemma ColumnOfRow(m: Machine, row: seq<Value>, table: string, c: nat)
      requires |row| == |columns| && c < |columns| && Denotes(columns, c, columns[c].name)
      requires if table == "" then forall d :: c < d < |columns| ==> columns[d].name != columns[c].name else table == name
      ensures Eval(m, Column(table, columns[c].name), RowContext(row)) == Some(row[c])
    {
      var ctx, x := RowContext(row), columns[c].name;
      ColumnMeans(m, ctx, table, x);
      assert Names(columns)[c] == x;
      if table == "" {
        assert Place(ctx.tables, 0, c, x) && !OtherPlace(ctx.tables, 0, c, x);
      } else {
        assert ctx.tables[0].schema.alias == table;
        assert x !in Names(columns)[..c];
      }
    }

    /** The column list names columns of the table. */
    predicate Listed(list: Option<seq<string>>) {
      list.Some? ==> forall i :: 0 <= i < |list.value| ==> ColumnIndex(Names(columns), list.value[i]) < |columns|
    }

    /** The rows an INSERT can make are among all. */
    ghost predicate Gives(m: Machine, subs: Subqueries, list: Option<seq<string>>, given: seq<seq<Expr>>, all: iset<seq<Value>>) {
      forall i :: 0 <= i < |given| ==> GivenIn(m.(subquery := subs(i)), list, given[i], all)
    }

    ghost predicate GivenIn(m: Machine, list: Option<seq<string>>, given: seq<Expr>, all: iset<seq<Value>>) {
      var row := Given(m, list, given);
      row.Some? ==> row.value in all
    }

    /** Why a row of an INSERT was refused. */
    ghost predicate Refused(m: Machine, list: Option<seq<string>>, given: seq<Expr>, rs: Rows) {
      var row := Given(m, list, given);
      row.None? || !FitsPage(row.value) || (pk.Some? && RowidFor(pk, row.value, 0) in rs)
    }

    /** Both, folded: how far an INSERT has come. */
    ghost predicate Entered(m: Machine, subs: Subqueries, list: Option<seq<string>>, given: seq<seq<Expr>>, next: int,
                            before: Rows, now: Rows, now': int, ids: seq<Int64>, news: seq<seq<Value>>, n: nat) {
      forall k :: k == n ==>
        && Inserted(m, subs, list, given, next, ids, news, k) && Added(before, now, ids, news) && NextAfter(next, ids, now')
        && (pk.None? ==> now' == next + k)
    }

    /** exec_insert: rows go in one by one until one fails: one whose values fail, that is too
        large for a page, or whose primary key is in use. */
    method ExecInsert(m: Machine, subs: Subqueries, list: Option<seq<string>>, given: seq<seq<Expr>>, ghost all: iset<seq<Value>>)
      returns (ok: bool, inserted: nat, ghost ids: seq<Int64>, ghost news: seq<seq<Value>>)
      requires Valid() && Room(all, rows) && Gives(m, subs, list, given, all) && (pk.None? ==> nextRowid + |given| <= TWO63)
      modifies `rows, `nextRowid
      modifies forest`plots, forest.pager`disk, forest.pager`tick, forest.pager`run, forest.pager`pages, forest.pager`durable
      modifies forest.pager`numPages, forest.pager`freeListHead, forest.pager`freeList, forest.pager`live
      modifies forest.pager.frames, forest.pager.txn`file, forest.pager.txn`journaled
      ensures Valid() && Alike(old(forest.plots), forest.plots, {root} + RootsOf(indexes))
      ensures forest.pager.durable == old(forest.pager.durable) && Added(old(rows), rows, ids, news)
      ensures Inserted(m, subs, list, given, old(nextRowid), ids, news, inserted)
      ensures ok <==> Listed(list) && inserted == |given|
      ensures NextAfter(old(nextRowid), ids, nextRowid) && old(nextRowid) <= nextRowid
      ensures !ok && Listed(list) ==>
                inserted < |given| && Refused(m.(subquery := subs(inserted)), list, given[inserted], rows)
                && IsRefused(m.(subquery := subs(inserted)), list, given[inserted], rows)
      ensures InsertedRows(m, subs, list, given, old(nextRowid), old(rows), rows, ids, inserted)
    {
      hide *;
      ok, inserted, ids, news := InsertGiven(m, subs, list, given, all);
      KeyIsKept();
      InsertedMeans(m, subs, list, given, old(nextRowid), old(rows), rows, ids, news, inserted);
      if !ok && Listed(list) {
        RefusedMeans(m.(subquery := subs(inserted)), list, given[inserted], rows);
      }
    }

    method InsertGiven(m: Machine, subs: Subqueries, list: Option<seq<string>>, given: seq<seq<Expr>>, ghost all: iset<seq<Value>>)
      returns (ok: bool, inserted: nat, ghost ids: seq<Int64>, ghost news: seq<seq<Value>>)
      requires Valid() && Room(all, rows) && Gives(m, subs, list, given, all) && (pk.None? ==> nextRowid + |given| <= TWO63)
      modifies `rows, `nextRowid
      modifies forest`plots, forest.pager`disk, forest.pager`tick, forest.pager`run, forest.pager`pages, forest.pager`durable
      modifies forest.pager`numPages, forest.pager`freeListHead, forest.pager`freeList, forest.pager`live
      modifies forest.pager.frames, forest.pager.txn`file, forest.pager.txn`journaled
      ensures Valid() && Alike(old(forest.plots), forest.plots, {root} + RootsOf(indexes))
      ensures forest.pager.durable == old(forest.pager.durable) && Added(old(rows), rows, ids, news)
      ensures Inserted(m, subs, list, given, old(nextRowid), ids, news, inserted)
      ensures ok <==> Listed(list) && inserted == |given|
      ensures NextAfter(old(nextRowid), ids, nextRowid) && old(nextRowid) <= nextRowid
      ensures !ok && Listed(list) ==>
                inserted < |given| && Refused(m.(subquery := subs(inserted)), list, given[inserted], rows)
    {
      hide Forest.Valid, Forest.InTxn;
      ids, news, inserted := [], [], 0;
      AlikeSelf(forest.plots, {root} + RootsOf(indexes));
      var known := ListKnown(list);
      if !known {
        return false, 0, ids, news;
      }
      ok, inserted, ids, news := InsertRows(m, subs, list, given, all);
      assert Inserted(m, subs, list, given, old(nextRowid), ids, news, inserted);
    }

    /** The col_map loop of exec_insert. */
    method ListKnown(list: Option<seq<string>>) returns (known: bool)
      ensures known <==> Listed(list)
    {
      if list.Some? {
        for i := 0 to |list.value|
          invariant forall j :: 0 <= j < i ==> ColumnIndex(Names(columns), list.value[j]) < |columns|
        {
          if ColumnIndex(Names(columns), list.value[i]) == |columns| {
            return false;
          }
        }
      }
      known := true;
    }

    /** The loop of exec_insert. */
    method InsertRows(m: Machine, subs: Subqueries, list: Option<seq<string>>, given: seq<seq<Expr>>, ghost all: iset<seq<Value>>)
      returns (ok: bool, inserted: nat, ghost ids: seq<Int64>, ghost news: seq<seq<Value>>)
      requires Valid() && Room(all, rows) && Gives(m, subs, list, given, all) && (pk.None? ==> nextRowid + |given| <= TWO63)
      modifies `rows, `nextRowid
      modifies forest`plots, forest.pager`disk, forest.pager`tick, forest.pager`run, forest.pager`pages, forest.pager`durable
      modifies forest.pager`numPages, forest.pager`freeListHead, forest.pager`freeList, forest.pager`live
      modifies forest.pager.frames, forest.pager.txn`file, forest.pager.txn`journaled
      ensures Valid() && forest.SameBut({root} + RootsOf(indexes)) && inserted <= |given|
      ensures Entered(m, subs, list, given, old(nextRowid), old(rows), rows, nextRowid, ids, news, inserted)
      ensures ok <==> inserted == |given|
      ensures !ok ==> Refused(m.(subquery := subs(inserted)), list, given[inserted], rows)
    {
      hide Forest.Valid, Forest.InTxn, HoldsRows, IndexesStand;
      ids, news, inserted := [], [], 0;
      ghost var before, mine := forest.plots, {root} + RootsOf(indexes);
      AlikeSelf(before, mine);
      NoneEntered(m, subs, list, given, nextRowid, rows);
      while inserted < |given|
        invariant inserted <= |given| && Valid() && forest.SameBut(mine) && Room(all, rows)
        invariant Entered(m, subs, list, given, old(nextRowid), old(rows), rows, nextRowid, ids, news, inserted)
      {
        ghost var plots, mid, next := forest.plots, rows, nextRowid;
        NextFits(m, subs, list, given, old(nextRowid), old(rows), ids, news, inserted);
        var row, r;
        ok, row, r := InsertOne(m.(subquery := subs(inserted)), list, given[inserted], all);
        AlikeThrough(before, plots, forest.plots, mine, mine);
        if !ok {
          return;
        }
        EnteredStep(m, subs, list, given, old(nextRowid), old(rows), mid, next, ids, news, inserted, r, row);
        ids, news, inserted := ids + [r], news + [row], inserted + 1;
      }
      ok := true;
    }

    lemma NoneEntered(m: Machine, subs: Subqueries, list: Option<seq<string>>, given: seq<seq<Expr>>, next: int, before: Rows)
      ensures Entered(m, subs, list, given, next, before, before, next, [], [], 0)
    {
      assert Inserted(m, subs, list, given, next, [], [], 0) && Added(before, before, [], []) && NextAfter(next, [], next);
    }

    /** Without a primary key the next rowid is in range. */
    lemma NextFits(m: Machine, subs: Subqueries, list: Option<seq<string>>, given: seq<seq<Expr>>, next: int, before: Rows,
                   ids: seq<Int64>, news: seq<seq<Value>>, n: nat)
      requires Entered(m, subs, list, given, next, before, rows, nextRowid, ids, news, n)
      ensures pk.None? ==> nextRowid == next + n
    {
      assert Inserted(m, subs, list, given, next, ids, news, n);
    }

    lemma EnteredStep(m: Machine, subs: Subqueries, list: Option<seq<string>>, given: seq<seq<Expr>>, next: int,
                      before: Rows, mid: Rows, was: int, ids: seq<Int64>, news: seq<seq<Value>>, n: nat, r: Int64, row: seq<Value>)
      requires Entered(m, subs, list, given, next, before, mid, was, ids, news, n) && n < |given| && r !in mid
      requires Given(m.(subquery := subs(n)), list, given[n]) == Some(row)
      requires r == if pk.None? then was else RowidFor(pk, row, 0)
      ensures Entered(m, subs, list, given, next, before, mid[r := row], if r >= was then r + 1 else was, ids + [r], news + [row], n + 1)
    {
      var was' := if r >= was then r + 1 else was;
      assert Inserted(m, subs, list, given, next, ids, news, n);
      assert Added(before, mid[r := row], ids + [r], news + [row]) by {
        AddedStep(before, mid, ids, news, r, row);
      }
      assert NextAfter(next, ids + [r], was') by {
        NextStep(next, ids, was, r);
      }
      InsertedStep(m, subs, list, given, next, ids, news, n, r, row);
    }

    lemma InsertedStep(m: Machine, subs: Subqueries, list: Option<seq<string>>, given: seq<seq<Expr>>, next: int,
                       ids: seq<Int64>, news: seq<seq<Value>>, n: nat, r: Int64, row: seq<Value>)
      requires Inserted(m, subs, list, given, next, ids, news, n) && n < |given|
      requires Given(m.(subquery := subs(n)), list, given[n]) == Some(row)
      requires r == if pk.None? then next + n else RowidFor(pk, row, 0)
      ensures Inserted(m, subs, list, given, next, ids + [r], news + [row], n + 1)
    {}

    /** One row of an INSERT. */
    method InsertOne(m: Machine, list: Option<seq<string>>, given: seq<Expr>, ghost all: iset<seq<Value>>)
      returns (ok: bool, row: seq<Value>, r: Int64)
      requires Valid() && Room(all, rows) && GivenIn(m, list, given, all) && (pk.None? ==> nextRowid < TWO63)
      modifies `rows, `nextRowid
      modifies forest`plots, forest.pager`disk, forest.pager`tick, forest.pager`run, forest.pager`pages, forest.pager`durable
      modifies forest.pager`numPages, forest.pager`freeListHead, forest.pager`freeList, forest.pager`live
      modifies forest.pager.frames, forest.pager.txn`file, forest.pager.txn`journaled
      ensures Valid() && forest.SameBut({root} + RootsOf(indexes)) && Room(all, rows)
      ensures if ok then && Given(m, list, given) == Some(row) && r == (if pk.None? then old(nextRowid) else RowidFor(pk, row, 0))
                         && r !in old(rows) && rows == old(rows)[r := row]
              else rows == old(rows) && Refused(m, list, given, rows)
      ensures nextRowid == if ok && r >= old(nextRowid) then r + 1 else old(nextRowid)
    {
      hide Forest.Valid, Forest.InTxn;
      row, r := [], 0;
      var news := Given(m, list, given);
      if news.None? {
        AlikeSelf(forest.plots, {root} + RootsOf(indexes));
        return false, row, r;
      }
      row := news.value;
      NextIsNew();
      r := if pk.None? then nextRowid else RowidFor(pk, row, 0);
      ok := PutRoomy(row, r, true, all);
    }

    lemma NextIsNew()
      requires Valid()
      ensures pk.None? ==> 1 <= nextRowid && nextRowid !in rows
    {
      assert Stands(forest.plots, indexes, nextRowid, rows);
    }
  }

  // ---------- tables that never lose a row ----------

  predicate NoText(columns: seq<ColumnDef>) {
    forall c :: 0 <= c < |columns| ==> !columns[c].kind.TextColumn?
  }

  lemma {:induction false} RecordSize(columns: seq<ColumnDef>, row: seq<Value>)
    requires NoText(columns) && RowStorable(columns, row)
    ensures |row| <= |Record(row)| <= 9 * |row|
  {
    if row != [] {
      var n := |row| - 1;
      assert RowStorable(columns[..n], row[..n]) && NoText(columns[..n]);
      RecordSize(columns[..n], row[..n]);
      FieldSize(columns[n], row[n]);
    }
  }

  lemma FieldSize(column: ColumnDef, v: Value)
    requires Storable(column, v) && !column.kind.TextColumn?
    ensures 1 <= |Field(v)| <= 9
  {}

  /** A table without TEXT columns never loses a row to a split, whatever is stored in it. */
  lemma NoTextIsRoomy(columns: seq<ColumnDef>)
    requires NoText(columns) && |columns| <= 32
    ensures Splittable(Kind.Table, CellsOf(iset row | RowStorable(columns, row)))
    ensures forall row :: RowStorable(columns, row) ==> FitsPage(row) && forall c :: 0 <= c < |row| ==> |Prefix(row[c])| <= 88
  {
    var all, k := iset row | RowStorable(columns, row), |columns|;
    forall row | RowStorable(columns, row)
      ensures k <= |Record(row)| <= 9 * k && forall c :: 0 <= c < |row| ==> |Prefix(row[c])| <= 88
    {
      RecordSize(columns, row);
      forall c | 0 <= c < |row| ensures |Prefix(row[c])| <= 88 {
        assert Storable(columns[c], row[c]);
      }
    }
    SimilarRowsSplit(Kind.Table, CellsOf(all), 14 + k, 14 + 9 * k, 14);
  }

  /** The rows but those with the first n rowids. */
  ghost predicate Deleted(was: Rows, now: Rows, ids: seq<Int64>, n: nat) {
    n <= |ids| && now == was - set r | r in ids[..n]
  }

  lemma DeletedStep(was: Rows, now: Rows, ids: seq<Int64>, n: nat)
    requires Deleted(was, now, ids, n) && n < |ids|
    ensures Deleted(was, now - {ids[n]}, ids, n + 1)
  {
    assert ids[..n + 1] == ids[..n] + [ids[n]];
  }

  /** A change of the table tree leaves the indexes, and one of these the table tree. */
  lemma IndexesStay(plots: Plots, plots': Plots, root: PageId, ixs: seq<IndexState>, rs: Rows)
    requires Rooted(root, ixs) && Alike(plots, plots', {root}) && IndexesStand(plots, ixs, rs, rs, 0)
    ensures IndexesStand(plots', ixs, rs, rs, 0)
    ensures Alike(plots, plots', {root} + RootsOf(ixs))
  {
    assert SamePlots(plots, plots', {root}) && SamePlots(plots, plots', {root} + RootsOf(ixs));
    forall i | 0 <= i < |ixs| ensures IndexStands(plots', ixs[i], rs) {
      assert IndexStands(plots, ixs[i], rs);
    }
  }

  /** One more index with a tree of its own. */
  lemma OneMoreStands(plots: Plots, plots': Plots, root: PageId, ixs: seq<IndexState>, ix: IndexState, rs: Rows)
    requires Rooted(root, ixs) && IndexesStand(plots, ixs, rs, rs, 0) && TreeStands(plots, root, rs)
    requires ix.root != root && (forall i :: 0 <= i < |ixs| ==> ixs[i].root != ix.root)
    requires Alike(plots, plots', {ix.root}) && IndexStands(plots', ix, rs)
    ensures Rooted(root, ixs + [ix]) && IndexesStand(plots', ixs + [ix], rs, rs, 0) && TreeStands(plots', root, rs)
  {
    assert SamePlots(plots, plots', {ix.root});
    forall i | 0 <= i < |ixs + [ix]| ensures IndexStands(plots', (ixs + [ix])[i], rs) {
      if i < |ixs| {
        assert IndexStands(plots, ixs[i], rs);
      }
    }
  }

  lemma TreeStays(plots: Plots, plots': Plots, root: PageId, ixs: seq<IndexState>, rs: Rows)
    requires Rooted(root, ixs) && Alike(plots, plots', RootsOf(ixs))
    ensures TreeStands(plots, root, rs) <==> TreeStands(plots', root, rs)
  {
    assert SamePlots(plots, plots', RootsOf(ixs));
  }

  /** The tree holds the new row and the old ones exactly if the insertion lost none. */
  lemma HeldIffFits(p: Plot, p': Plot, was: Rows, r: Int64, row: seq<Value>)
    requires HoldsRows(Contents(p.tree), was) && r !in was && Sorted(Contents(p.tree)) && Sorted(Contents(p'.tree))
    requires Came(p, p', RowCell(r, row))
    ensures HoldsRows(Contents(p'.tree), was[r := row]) <==> SplitFits(Kind.Table, p.tree, RowCell(r, row))
  {
    var cells, cells', leaf := Contents(p.tree), Contents(p'.tree), LeafFor(p.tree, r);
    assert RowCame(p, p', RowCell(r, row));
    if IsInserted(cells, RowCell(r, row), cells') {
      HoldsInserted(cells, was, r, row, cells');
    }
    if HoldsRows(cells', was[r := row]) {
      HoldsCount(cells, was);
      HoldsCount(cells', was[r := row]);
      PutCounts(Kind.Table, cells, leaf, RowCell(r, row), cells');
    }
  }
}
