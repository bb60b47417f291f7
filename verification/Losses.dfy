/** Rows that a split loses: the insertions report success, and the row is gone. */
module Losses {
  import opened Pages
  import opened Values
  import opened Records
  import opened Journal
  import opened Trees
  import opened Splits
  import opened Inserts
  import opened BTrees
  import opened Tables
  import opened Holdings
  import opened Forests
  import opened CatalogEntries
  import opened Catalogs

  /** A row after all others of a leaf that has room for it. */
  lemma AddedAtEnd(s: seq<Cell>, c: Cell, s': seq<Cell>)
    requires IsPut(Table, s, s, c, s') && Below(s, c.key.rank) && Used(Table, s) + CellCost(Table, c) <= CAPACITY
    ensures s' == s + [c] && Used(Table, s') == Used(Table, s) + CellCost(Table, c)
  {
    SoleLeafPut(Table, s, c, s', |s|);
    assert Spliced(s, |s|, c) == s + [c];
    UsedWith(Table, s, c);
  }

  /** A row after three others, all four together too large for a page and the last two as
      well: the right half keeps the third only. */
  lemma LastOfFourLost(s: seq<Cell>, c: Cell, s': seq<Cell>)
    requires |s| == 3 && IsPut(Table, s, s, c, s') && Below(s, c.key.rank) && Used(Table, s) <= CAPACITY
    requires CellCost(Table, s[2]) + CellCost(Table, c) > CAPACITY
    ensures s' == s && LeafSplitReadable(Table, s, c, 3)
  {
    SoleLeafPut(Table, s, c, s', 3);
    assert Spliced(s, 3, c) == s + [c];
    assert s == s[..2] + [s[2]];
    UsedWith(Table, s, c);
    UsedWith(Table, s[..2], s[2]);
    assert (s + [c])[..2] == s[..2];
    HalvesOfFour(s + [c]);
    assert Settled(Table, s + [c]) == s[..2] + [s[2]];
  }

  lemma HalvesOfFour(cells: seq<Cell>)
    requires |cells| == 4 && Used(Table, cells[..2]) <= CAPACITY
    requires CellCost(Table, cells[2]) <= CAPACITY < CellCost(Table, cells[2]) + CellCost(Table, cells[3])
    ensures LeftHalf(Table, cells) == Filled(cells[..2], false) && RightHalf(Table, cells) == Filled([cells[2]], false)
  {
    FillFits(Table, cells[..2], 2);
    assert cells[..2][..2] == cells[..2];
    TwoFilled(cells[2..]);
  }

  lemma TwoFilled(cells: seq<Cell>)
    requires |cells| == 2 && CellCost(Table, cells[0]) <= CAPACITY < CellCost(Table, cells[0]) + CellCost(Table, cells[1])
    ensures Fill(Table, cells, 2) == Filled([cells[0]], false)
  {
    assert Used(Table, [cells[0]]) == CellCost(Table, cells[0]);
    assert Fill(Table, cells, 1) == Filled([cells[0]], false);
  }

  /** A one-column row of NULL, and one of a text of 4061 bytes: the largest record there is. */
  function SmallRow(): seq<Value> {
    [Null]
  }

  function LargeRow(): seq<Value> {
    [Text(seq(4061, _ => 0))]
  }

  lemma RecordSizes()
    ensures |Record(SmallRow())| == 1 && |Record(LargeRow())| == 4066 && FitsPage(LargeRow())
  {
    assert SmallRow()[..0] == [] && LargeRow()[..0] == [];
    assert Record(SmallRow()) == Record([]) + Field(Null);
    assert Record(LargeRow()) == Record([]) + Field(LargeRow()[0]);
  }

  /** A tree of height 0 is one leaf. */
  lemma OneLeaf(t: BTree, rank: int)
    requires t.Valid() && t.height == 0
    ensures LeafFor(t.tree, rank) == t.Rows() && Used(t.kind, t.Rows()) <= CAPACITY
  {
    assert t.pager.pages[t.root] == Raw(0) ==> Used(t.kind, []) == 0;
  }

  /** Small rows under 1, 2 and so on. */
  function Smalls(n: nat): (s: seq<Cell>)
    requires n < 8
    ensures |s| == n
  {
    if n == 0 then [] else Smalls(n - 1) + [RowCell(n, SmallRow())]
  }

  lemma {:induction false} SmallsUse(n: nat)
    requires n < 8
    ensures Below(Smalls(n), n + 1) && Used(Table, Smalls(n)) == 15 * n
  {
    if n > 0 {
      SmallsUse(n - 1);
      RecordSizes();
      UsedWith(Table, Smalls(n - 1), RowCell(n, SmallRow()));
    }
  }

  /** A leaf with exactly these rows. */
  ghost predicate LeafWith(t: BTree, n: nat)
    reads t, t.pager, t.pager.frames, t.pager.txn
  {
    n < 8 && t.Valid() && t.kind == Table && t.height == 0 && t.Rows() == Smalls(n)
  }

  /** Three small rows and a large one into an empty tree: four successes, three rows. */
  method LargeRowIsLost(t: BTree) returns (oks: seq<bool>)
    requires LeafWith(t, 0)
    modifies t
    modifies t.pager`disk, t.pager`tick, t.pager`run, t.pager`pages, t.pager`durable, t.pager.frames, t.pager.txn`file, t.pager.txn`journaled
    modifies t.pager`numPages, t.pager`freeListHead, t.pager`freeList, t.pager`live
    ensures t.Valid() && t.Rows() == Smalls(3) && oks == [true, true, true, true]
  {
    var a := InsertSmall(t, 1);
    var b := InsertSmall(t, 2);
    var c := InsertSmall(t, 3);
    var d := InsertLarge(t);
    oks := [a, b, c, d];
  }

  method InsertSmall(t: BTree, n: nat) returns (ok: bool)
    requires 0 < n < 8 && LeafWith(t, n - 1)
    modifies t
    modifies t.pager`disk, t.pager`tick, t.pager`run, t.pager`pages, t.pager`durable, t.pager.frames, t.pager.txn`file, t.pager.txn`journaled
    modifies t.pager`numPages, t.pager`freeListHead, t.pager`freeList, t.pager`live
    ensures LeafWith(t, n) && ok
  {
    ghost var c := RowCell(n, SmallRow());
    RecordSizes();
    SmallsUse(n - 1);
    OneLeaf(t, n);
    RoomReads(t.tree, c);
    ghost var fix;
    ok, fix := t.TableInsert(n, Record(SmallRow()));
    AddedAtEnd(Smalls(n - 1), c, t.Rows());
  }

  lemma RoomReads(t: Tree, c: Cell)
    requires Used(Table, LeafFor(t, c.key.rank)) + CellCost(Table, c) <= CAPACITY
    ensures SplitReadable(Table, t, c)
  {
    var rows := LeafFor(t, c.key.rank);
    forall i | IsBound(rows, c.key.rank, false, i) ensures LeafSplitReadable(Table, rows, c, i) {
      SplicedUsed(Table, rows, c, i);
    }
  }

  method InsertLarge(t: BTree) returns (ok: bool)
    requires LeafWith(t, 3)
    modifies t
    modifies t.pager`disk, t.pager`tick, t.pager`run, t.pager`pages, t.pager`durable, t.pager.frames, t.pager.txn`file, t.pager.txn`journaled
    modifies t.pager`numPages, t.pager`freeListHead, t.pager`freeList, t.pager`live
    ensures t.Valid() && t.Rows() == Smalls(3) && ok
  {
    RecordSizes();
    OneLeaf(t, 4);
    LargeReads(t.tree);
    ghost var fix;
    ok, fix := t.TableInsert(4, Record(LargeRow()));
    LargeIsLost(t.Rows());
  }

  lemma LargeReads(t: Tree)
    requires LeafFor(t, 4) == Smalls(3)
    ensures SplitReadable(Table, t, RowCell(4, LargeRow()))
  {
    LeafPut(Table, Smalls(3), RowCell(4, LargeRow()), 3);
    SmallsUse(3);
    OneBound(Smalls(3), 4, 3);
    LargeIsLost(Settled(Table, Spliced(Smalls(3), 3, RowCell(4, LargeRow()))));
  }

  lemma LargeIsLost(s: seq<Cell>)
    requires IsPut(Table, Smalls(3), Smalls(3), RowCell(4, LargeRow()), s)
    ensures s == Smalls(3) && LeafSplitReadable(Table, Smalls(3), RowCell(4, LargeRow()), 3)
  {
    RecordSizes();
    SmallsUse(3);
    assert Smalls(3)[2] == RowCell(3, SmallRow());
    LastOfFourLost(Smalls(3), RowCell(4, LargeRow()), s);
  }

  // ---------- the catalog ----------

  /** A row after four others, too large for a page with the last two of them: the right half
      keeps these two only. */
  lemma LastOfFiveLost(s: seq<Cell>, c: Cell, s': seq<Cell>)
    requires |s| == 4 && IsPut(Table, s, s, c, s') && Below(s, c.key.rank) && Used(Table, s) <= CAPACITY
    requires CellCost(Table, s[2]) + CellCost(Table, s[3]) + CellCost(Table, c) > CAPACITY
    ensures s' == s && LeafSplitReadable(Table, s, c, 4) && !IsInserted(s, c, s')
  {
    SoleLeafPut(Table, s, c, s', 4);
    assert Spliced(s, 4, c) == s + [c];
    FiveHalved(s, c);
    assert s == s[..2] + s[2..];
  }

  lemma FiveHalved(s: seq<Cell>, c: Cell)
    requires |s| == 4 && Used(Table, s) <= CAPACITY
    requires CellCost(Table, s[2]) + CellCost(Table, s[3]) + CellCost(Table, c) > CAPACITY
    ensures Used(Table, s + [c]) > CAPACITY
    ensures LeftHalf(Table, s + [c]) == Filled(s[..2], false) && RightHalf(Table, s + [c]) == Filled(s[2..], false)
  {
    assert s == s[..2] + s[2..];
    UsedConcat(Table, s[..2], s[2..]);
    UsedWith(Table, s, c);
    assert (s + [c])[..2] == s[..2] && (s + [c])[2..] == s[2..] + [c];
    FillFits(Table, s[..2], 2);
    assert s[..2][..2] == s[..2];
    assert s[2..][0] == s[2] && s[2..][1] == s[3];
    ThirdIsLost(s[2..], c);
  }

  lemma ThirdIsLost(s: seq<Cell>, c: Cell)
    requires |s| == 2 && Used(Table, s) <= CAPACITY
    requires CellCost(Table, s[0]) + CellCost(Table, s[1]) + CellCost(Table, c) > CAPACITY
    ensures Used(Table, s) == CellCost(Table, s[0]) + CellCost(Table, s[1])
    ensures Fill(Table, s + [c], 3) == Filled(s, false)
  {
    assert s == [s[0]] + [s[1]];
    UsedWith(Table, [s[0]], s[1]);
    assert Used(Table, [s[0]]) == CellCost(Table, s[0]);
    FillFits(Table, s + [c], 2);
    assert (s + [c])[..2] == s;
  }

  /** Names of one letter and of 63. */
  function Short(letter: Byte): Name {
    [letter]
  }

  function Long(letter: Byte): Name {
    seq(63, _ => letter)
  }

  function NarrowTable(letter: Byte): TableDef {
    TableDef(Short(letter), 0, [Column(Short(99), IntColumn, false, false)], None, 1)
  }

  function WideTable(letter: Byte): TableDef {
    TableDef(Long(letter), 0, WideColumns(32), None, 1)
  }

  function WideColumns(n: nat): (cs: seq<Column>)
    ensures |cs| == n && PkColumn(cs) == None
  {
    if n == 0 then [] else WideColumns(n - 1) + [Column(Long(99), TextColumn, false, false)]
  }

  lemma {:induction false} WideSize(n: nat)
    ensures |ColumnBytes(WideColumns(n))| == 66 * n
  {
    if n > 0 {
      ColumnBytesConcat(WideColumns(n - 1), [Column(Long(99), TextColumn, false, false)]);
      WideSize(n - 1);
      var last := [Column(Long(99), TextColumn, false, false)];
      assert last[1..] == [];
      assert ColumnBytes(last) == NameBytes(last[0].name) + ([KindByte(last[0].kind), Flags(last[0])] + ColumnBytes([]));
    }
  }

  lemma {:induction false} ColumnBytesConcat(a: seq<Column>, b: seq<Column>)
    ensures ColumnBytes(a + b) == ColumnBytes(a) + ColumnBytes(b)
  {
    if a == [] {
      assert a + b == b;
    } else {
      assert (a + b)[1..] == a[1..] + b;
      ColumnBytesConcat(a[1..], b);
    }
  }

  lemma DefSizes(letter: Byte, root: PageId)
    ensures TableOk(NarrowTable(letter)) && |TableEntry(NarrowTable(letter).(root := root))| == 12
    ensures TableOk(WideTable(letter)) && |TableEntry(WideTable(letter).(root := root))| == 2182
  {
    WideSize(32);
    var cs := NarrowTable(letter).columns;
    assert cs[1..] == [] && ColumnBytes(cs) == NameBytes(cs[0].name) + ([KindByte(cs[0].kind), Flags(cs[0])] + ColumnBytes([]));
    assert PkColumn(cs[..0]) == None;
  }

  /** A catalog whose tree is one leaf: its rows, all below the next number. */
  ghost predicate OneLeafOf(c: Catalog, cells: seq<Cell>)
    reads c, c.forest.Repr()
  {
    && c.Valid() && c.forest.pager.txn.active
    && CATALOG_ROOT in c.forest.plots && c.forest.plots[CATALOG_ROOT].height == 0 && c.forest.Rows(CATALOG_ROOT) == cells
  }

  lemma LeafOfCatalog(c: Catalog, cells: seq<Cell>, r: int)
    requires OneLeafOf(c, cells)
    ensures LeafFor(c.forest.plots[CATALOG_ROOT].tree, r) == cells && Used(Table, cells) <= CAPACITY
    ensures Below(cells, c.nextCatalogRowid)
  {
    c.forest.PlotsPlanted();
    assert Stands(c.forest.plots, c.entries, c.nextCatalogRowid, c.tables, c.indexes);
    var p := c.forest.plots[CATALOG_ROOT];
    assert Grows(c.forest.pager.pages, CATALOG_ROOT, p);
    assert Used(Table, []) == 0;
    assert HoldsEntries(cells, c.entries);
    assert forall i :: 0 <= i < |cells| ==> cells[i] in cells;
  }

  lemma RoomFits(t: Tree, c: Cell)
    requires Used(Table, LeafFor(t, c.key.rank)) + CellCost(Table, c) <= CAPACITY
    ensures SplitFits(Table, t, c)
  {
    var rows := LeafFor(t, c.key.rank);
    forall i | IsBound(rows, c.key.rank, false, i) ensures LeafSplitFits(Table, rows, c, i) {
      SplicedUsed(Table, rows, c, i);
    }
  }

  /** CREATE TABLE while the leaf has room. */
  method CreateWithRoom(c: Catalog, def: TableDef, ghost cells: seq<Cell>, ghost size: nat) returns (ok: bool, ghost cell: Cell)
    requires OneLeafOf(c, cells) && TableOk(def) && |c.tables| < 5
    requires forall i :: 0 <= i < |c.tables| ==> c.tables[i].def.name != def.name
    requires (forall p :: |TableEntry(def.(root := p))| == size) && Used(Table, cells) + 14 + size <= CAPACITY
    modifies c`nextCatalogRowid, c`entries, c`tables
    modifies c.forest`plots, c.forest.pager`disk, c.forest.pager`tick, c.forest.pager`run, c.forest.pager`pages, c.forest.pager`durable
    modifies c.forest.pager`numPages, c.forest.pager`freeListHead, c.forest.pager`freeList, c.forest.pager`live
    modifies c.forest.pager.frames, c.forest.pager.txn`file, c.forest.pager.txn`journaled
    ensures ok && OneLeafOf(c, cells + [cell]) && CellCost(Table, cell) == 14 + size
    ensures Used(Table, cells + [cell]) == Used(Table, cells) + 14 + size
    ensures |c.tables| == |old(c.tables)| + 1 && c.tables[..|c.tables| - 1] == old(c.tables) && c.tables[|c.tables| - 1].def.name == def.name
  {
    hide Forest.Valid, Forest.InTxn, Stands;
    ghost var plot, r := c.forest.plots[CATALOG_ROOT], c.nextCatalogRowid;
    cell := EntryCell(r, TableEntry(def.(root := c.forest.pager.NextPage())));
    LeafOfCatalog(c, cells, r);
    RoomReads(plot.tree, cell);
    RoomFits(plot.tree, cell);
    var root;
    ok, root := c.CreateTable(def);
    assert RowCame(plot, c.forest.plots[CATALOG_ROOT], cell);
    AddedAtEnd(cells, cell, c.forest.Rows(CATALOG_ROOT));
  }

  /** CREATE TABLE when the leaf has not. */
  method CreateWithoutRoom(c: Catalog, def: TableDef, ghost cells: seq<Cell>, ghost size: nat) returns (ok: bool)
    requires OneLeafOf(c, cells) && TableOk(def) && |c.tables| < 5 && |cells| == 4
    requires forall i :: 0 <= i < |c.tables| ==> c.tables[i].def.name != def.name
    requires (forall p :: |TableEntry(def.(root := p))| == size) && 14 + size <= CAPACITY
    requires CellCost(Table, cells[2]) + CellCost(Table, cells[3]) + 14 + size > CAPACITY
    modifies c`nextCatalogRowid, c`entries, c`tables
    modifies c.forest`plots, c.forest.pager`disk, c.forest.pager`tick, c.forest.pager`run, c.forest.pager`pages, c.forest.pager`durable
    modifies c.forest.pager`numPages, c.forest.pager`freeListHead, c.forest.pager`freeList, c.forest.pager`live
    modifies c.forest.pager.frames, c.forest.pager.txn`file, c.forest.pager.txn`journaled
    ensures ok && CATALOG_ROOT in c.forest.plots && c.forest.Rows(CATALOG_ROOT) == cells && !c.Valid()
    ensures |c.tables| == |old(c.tables)| + 1
  {
    hide Forest.Valid, Forest.InTxn, Stands;
    ghost var plot, r := c.forest.plots[CATALOG_ROOT], c.nextCatalogRowid;
    ghost var cell := EntryCell(r, TableEntry(def.(root := c.forest.pager.NextPage())));
    LeafOfCatalog(c, cells, r);
    SplitOfFive(plot.tree, cells, cell);
    var root;
    ok, root := c.CreateTable(def);
    assert RowCame(plot, c.forest.plots[CATALOG_ROOT], cell);
    LastOfFiveLost(cells, cell, c.forest.Rows(CATALOG_ROOT));
  }

  lemma SplitOfFive(t: Tree, s: seq<Cell>, c: Cell)
    requires LeafFor(t, c.key.rank) == s && |s| == 4 && Below(s, c.key.rank) && Used(Table, s) <= CAPACITY
    requires CellCost(Table, s[2]) + CellCost(Table, s[3]) + CellCost(Table, c) > CAPACITY
    ensures SplitReadable(Table, t, c)
  {
    LeafPut(Table, s, c, 4);
    LastOfFiveLost(s, c, Settled(Table, Spliced(s, 4, c)));
    OneBound(s, c.key.rank, 4);
  }

  /** CREATE TABLE of a narrow table while the names so far are these letters. */
  method CreateNarrow(c: Catalog, letter: Byte, ghost cells: seq<Cell>) returns (ok: bool, ghost cell: Cell)
    requires OneLeafOf(c, cells) && |c.tables| < 5 && Used(Table, cells) <= 100 && NamedBelow(c.tables, letter)
    modifies c`nextCatalogRowid, c`entries, c`tables
    modifies c.forest`plots, c.forest.pager`disk, c.forest.pager`tick, c.forest.pager`run, c.forest.pager`pages, c.forest.pager`durable
    modifies c.forest.pager`numPages, c.forest.pager`freeListHead, c.forest.pager`freeList, c.forest.pager`live
    modifies c.forest.pager.frames, c.forest.pager.txn`file, c.forest.pager.txn`journaled
    ensures ok && OneLeafOf(c, cells + [cell]) && Used(Table, cells + [cell]) == Used(Table, cells) + 26
    ensures |c.tables| == |old(c.tables)| + 1 && NamedBelow(c.tables, letter + 1)
  {
    hide Forest.Valid, Forest.InTxn, Stands;
    forall p ensures |TableEntry(NarrowTable(letter).(root := p))| == 12 && TableOk(NarrowTable(letter)) {
      DefSizes(letter, p);
    }
    ghost var tables := c.tables;
    NewName(c.tables, letter, NarrowTable(letter).name);
    ok, cell := CreateWithRoom(c, NarrowTable(letter), cells, 12);
    NamedWith(tables, letter, c.tables);
  }

  /** The first letter of each name is below this one. */
  ghost predicate NamedBelow(tables: seq<Numbered<TableDef>>, letter: int) {
    forall i :: 0 <= i < |tables| ==> |tables[i].def.name| > 0 && tables[i].def.name[0] < letter
  }

  lemma NewName(tables: seq<Numbered<TableDef>>, letter: Byte, name: Name)
    requires NamedBelow(tables, letter) && |name| > 0 && name[0] == letter
    ensures forall i :: 0 <= i < |tables| ==> tables[i].def.name != name
  {}

  lemma NamedWith(tables: seq<Numbered<TableDef>>, letter: Byte, tables': seq<Numbered<TableDef>>)
    requires NamedBelow(tables, letter) && |tables'| == |tables| + 1 && tables'[..|tables|] == tables
    requires |tables'[|tables|].def.name| > 0 && tables'[|tables|].def.name[0] == letter
    ensures NamedBelow(tables', letter + 1)
  {
    forall i | 0 <= i < |tables'| ensures |tables'[i].def.name| > 0 && tables'[i].def.name[0] < letter + 1 {
      assert i < |tables| ==> tables'[i] == tables[i];
    }
  }

  /** CREATE TABLE of a first wide table, and of a second. */
  method CreateWide(c: Catalog, ghost cells: seq<Cell>) returns (ok: bool, ghost cell: Cell)
    requires OneLeafOf(c, cells) && |c.tables| < 5 && Used(Table, cells) <= 100 && NamedBelow(c.tables, 4)
    modifies c`nextCatalogRowid, c`entries, c`tables
    modifies c.forest`plots, c.forest.pager`disk, c.forest.pager`tick, c.forest.pager`run, c.forest.pager`pages, c.forest.pager`durable
    modifies c.forest.pager`numPages, c.forest.pager`freeListHead, c.forest.pager`freeList, c.forest.pager`live
    modifies c.forest.pager.frames, c.forest.pager.txn`file, c.forest.pager.txn`journaled
    ensures ok && OneLeafOf(c, cells + [cell]) && CellCost(Table, cell) == 2196
    ensures |c.tables| == |old(c.tables)| + 1 && NamedBelow(c.tables, 5)
  {
    hide Forest.Valid, Forest.InTxn, Stands;
    forall p ensures |TableEntry(WideTable(4).(root := p))| == 2182 && TableOk(WideTable(4)) {
      DefSizes(4, p);
    }
    ghost var tables := c.tables;
    NewName(c.tables, 4, WideTable(4).name);
    ok, cell := CreateWithRoom(c, WideTable(4), cells, 2182);
    NamedWith(tables, 4, c.tables);
  }

  method CreateWideAgain(c: Catalog, ghost cells: seq<Cell>) returns (ok: bool)
    requires OneLeafOf(c, cells) && |c.tables| < 5 && |cells| == 4 && NamedBelow(c.tables, 5) && CellCost(Table, cells[3]) == 2196
    modifies c`nextCatalogRowid, c`entries, c`tables
    modifies c.forest`plots, c.forest.pager`disk, c.forest.pager`tick, c.forest.pager`run, c.forest.pager`pages, c.forest.pager`durable
    modifies c.forest.pager`numPages, c.forest.pager`freeListHead, c.forest.pager`freeList, c.forest.pager`live
    modifies c.forest.pager.frames, c.forest.pager.txn`file, c.forest.pager.txn`journaled
    ensures ok && CATALOG_ROOT in c.forest.plots && c.forest.Rows(CATALOG_ROOT) == cells && !c.Valid()
    ensures |c.tables| == |old(c.tables)| + 1
  {
    hide Forest.Valid, Forest.InTxn, Stands;
    forall p ensures |TableEntry(WideTable(5).(root := p))| == 2182 && TableOk(WideTable(5)) {
      DefSizes(5, p);
    }
    NewName(c.tables, 5, WideTable(5).name);
    ok := CreateWithoutRoom(c, WideTable(5), cells, 2182);
  }

  method CreateThree(c: Catalog) returns (ok: bool, ghost cells: seq<Cell>)
    requires OneLeafOf(c, []) && c.tables == []
    modifies c`nextCatalogRowid, c`entries, c`tables
    modifies c.forest`plots, c.forest.pager`disk, c.forest.pager`tick, c.forest.pager`run, c.forest.pager`pages, c.forest.pager`durable
    modifies c.forest.pager`numPages, c.forest.pager`freeListHead, c.forest.pager`freeList, c.forest.pager`live
    modifies c.forest.pager.frames, c.forest.pager.txn`file, c.forest.pager.txn`journaled
    ensures ok && OneLeafOf(c, cells) && |cells| == 3 && Used(Table, cells) == 78
    ensures |c.tables| == 3 && NamedBelow(c.tables, 4)
  {
    hide Forest.Valid, Forest.InTxn, Stands;
    ghost var x: Cell;
    cells := [];
    var a, b, d;
    a, x := CreateNarrow(c, 1, cells);
    cells := cells + [x];
    b, x := CreateNarrow(c, 2, cells);
    cells := cells + [x];
    d, x := CreateNarrow(c, 3, cells);
    ok, cells := a && b && d, cells + [x];
  }

  /** Three one-column tables with short names and two of 32 columns with names of 63 bytes:
      five successes, five tables in the array, four entries in the tree. */
  method FifthTableIsLost(c: Catalog) returns (ok: bool)
    requires OneLeafOf(c, []) && c.tables == []
    modifies c`nextCatalogRowid, c`entries, c`tables
    modifies c.forest`plots, c.forest.pager`disk, c.forest.pager`tick, c.forest.pager`run, c.forest.pager`pages, c.forest.pager`durable
    modifies c.forest.pager`numPages, c.forest.pager`freeListHead, c.forest.pager`freeList, c.forest.pager`live
    modifies c.forest.pager.frames, c.forest.pager.txn`file, c.forest.pager.txn`journaled
    ensures ok && |c.tables| == 5 && !c.Valid()
    ensures CATALOG_ROOT in c.forest.plots && |c.forest.Rows(CATALOG_ROOT)| == 4
  {
    hide Forest.Valid, Forest.InTxn, Stands;
    ghost var cells, x;
    var a, b, d;
    a, cells := CreateThree(c);
    b, x := CreateWide(c, cells);
    d := CreateWideAgain(c, cells + [x]);
    ok := a && b && d;
  }

  /** A new database meets the hypothesis: its catalog tree is one empty leaf. */
  method NewDatabase() returns (c: Catalog)
    ensures fresh(c) && fresh(c.forest.Repr()) && OneLeafOf(c, []) && c.tables == []
  {
    var forest := new Forest.Create();
    c := new Catalog(forest);
    var ok := forest.Begin(true);
  }

  // ---------- a table without a tree ----------

  /** BEGIN; CREATE TABLE; ROLLBACK: the trees are those of the begin, but the array keeps
      the table, whose root page is no tree's. */
  method RolledBackTableStays(c: Catalog, def: TableDef) returns (ok: bool)
    requires c.Valid() && !c.forest.pager.txn.active && TableOk(def)
    requires c.EntryReads(TableEntry(def.(root := c.forest.pager.NextPage())))
    modifies c`nextCatalogRowid, c`entries, c`tables, c.forest`plots, c.forest`begun
    modifies c.forest.pager, c.forest.pager.frames, c.forest.pager.txn
    ensures c.forest.Valid() && c.forest.plots == old(c.forest.plots)
    ensures ok <==> |old(c.tables)| < MAX_TABLES && forall i :: 0 <= i < |old(c.tables)| ==> old(c.tables)[i].def.name != def.name
    ensures if ok then |c.tables| == |old(c.tables)| + 1 && c.tables[|old(c.tables)|].def.root !in c.forest.plots && !c.Valid()
            else c.Valid() && c.tables == old(c.tables)
  {
    var begins := c.forest.Begin(true);
    var root;
    ok, root := c.CreateTable(def);
    var rolled := c.forest.Rollback();
    if ok {
      NoTreeNotValid(c, |c.tables| - 1);
    }
  }

  lemma NoTreeNotValid(c: Catalog, i: nat)
    requires i < |c.tables| && c.tables[i].def.root !in c.forest.plots
    ensures !c.Valid()
  {
    if c.Valid() {
      EachHasTree(c, i);
    }
  }

  lemma EachHasTree(c: Catalog, i: nat)
    requires c.Valid() && i < |c.tables|
    ensures c.tables[i].def.root in c.forest.plots
  {
    assert Stands(c.forest.plots, c.entries, c.nextCatalogRowid, c.tables, c.indexes);
    assert KindAt(c.forest.plots, c.tables[i].def.root, Table);
  }
}
