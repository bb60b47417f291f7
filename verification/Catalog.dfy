/** The catalog of catalog.c over the trees of the database: each definition is in an array
    and, as an entry, in the catalog tree at page 2, and has a tree of its own. */
module Catalogs {
  import opened Pages
  import opened Journal
  import opened Trees
  import opened Splits
  import opened Inserts
  import opened Deletes
  import opened Tables
  import opened Holdings
  import opened Forests
  import opened CatalogEntries

  const CATALOG_ROOT: PageId := 2

  type Entries = map<int, seq<Byte>>

  // ---------- the catalog tree ----------

  function EntryCell(rowid: int, entry: seq<Byte>): Cell {
    Row(Key(rowid, 8), entry)
  }

  ghost predicate HoldsEntries(cells: seq<Cell>, es: Entries) {
    && (forall c :: c in cells ==> c.key.rank in es && c == EntryCell(c.key.rank, es[c.key.rank]))
    && forall r :: r in es ==> HasRank(cells, r)
  }

  lemma EntryRank(cells: seq<Cell>, es: Entries, r: int)
    requires HoldsEntries(cells, es)
    ensures HasRank(cells, r) <==> r in es
  {
    RanksOfCells(cells);
  }

  lemma EntriesCount(cells: seq<Cell>, es: Entries)
    requires HoldsEntries(cells, es) && Sorted(cells)
    ensures |cells| == |es|
  {
    var ranks := RanksIn(cells);
    forall r | r in ranks ensures r in es.Keys {
      var i :| 0 <= i < |ranks| && ranks[i] == r;
      assert cells[i] in cells;
    }
    forall r | r in es.Keys ensures r in ranks {
      RankIsIn(cells, r);
    }
    DistinctCount(ranks, es.Keys);
    assert |es| == |es.Keys|;
  }

  function RanksIn(cells: seq<Cell>): (ranks: seq<int>)
    ensures |ranks| == |cells| && forall i :: 0 <= i < |ranks| ==> ranks[i] == cells[i].key.rank
  {
    seq(|cells|, i requires 0 <= i < |cells| => cells[i].key.rank)
  }

  lemma EntryInserted(cells: seq<Cell>, es: Entries, r: int, entry: seq<Byte>, cells': seq<Cell>)
    requires HoldsEntries(cells, es) && r !in es && IsInserted(cells, EntryCell(r, entry), cells')
    ensures HoldsEntries(cells', es[r := entry])
  {
    InsertedCells(cells, EntryCell(r, entry), cells');
    EntryRank(cells, es, r);
  }

  lemma EntryCounted(cells: seq<Cell>, leaf: seq<Cell>, es: Entries, r: int, entry: seq<Byte>, cells': seq<Cell>)
    requires HoldsEntries(cells, es) && r !in es && HoldsEntries(cells', es[r := entry]) && Sorted(cells) && Sorted(cells')
    requires IsPut(Table, cells, leaf, EntryCell(r, entry), cells')
    ensures IsInserted(cells, EntryCell(r, entry), cells')
  {
    EntriesCount(cells, es);
    EntriesCount(cells', es[r := entry]);
    PutCounts(Table, cells, leaf, EntryCell(r, entry), cells');
  }

  /** The tree holds the new entry and the old ones exactly if the insertion lost none. */
  lemma EntryHeldIffFits(p: Plot, p': Plot, es: Entries, r: int, entry: seq<Byte>)
    requires HoldsEntries(Contents(p.tree), es) && r !in es && Sorted(Contents(p.tree)) && Sorted(Contents(p'.tree))
    requires Came(p, p', EntryCell(r, entry))
    ensures HoldsEntries(Contents(p'.tree), es[r := entry]) <==> SplitFits(Table, p.tree, EntryCell(r, entry))
  {
    assert RowCame(p, p', EntryCell(r, entry));
    if SplitFits(Table, p.tree, EntryCell(r, entry)) {
      EntryInserted(Contents(p.tree), es, r, entry, Contents(p'.tree));
    } else if HoldsEntries(Contents(p'.tree), es[r := entry]) {
      EntryCounted(Contents(p.tree), LeafFor(p.tree, r), es, r, entry, Contents(p'.tree));
    }
  }

  lemma NewEntry(plots: Plots, es: Entries, next: int)
    requires EntriesStand(plots, es) && Numbers(es, next)
    ensures !HasRank(Contents(plots[CATALOG_ROOT].tree), next)
  {
    assert HoldsEntries(Contents(plots[CATALOG_ROOT].tree), es);
    EntryRank(Contents(plots[CATALOG_ROOT].tree), es, next);
  }

  lemma EntryStandsIffFits(plots: Plots, plots': Plots, es: Entries, next: int, entry: seq<Byte>)
    requires EntriesStand(plots, es) && Numbers(es, next) && EntryCame(plots, plots', next, entry)
    requires Sorted(Contents(plots[CATALOG_ROOT].tree)) && Sorted(Contents(plots'[CATALOG_ROOT].tree)) && plots'[CATALOG_ROOT].kind == Table
    ensures EntriesStand(plots', es[next := entry]) <==> FitsAmongEntries(plots, next, entry)
  {
    assert HoldsEntries(Contents(plots[CATALOG_ROOT].tree), es);
    EntryHeldIffFits(plots[CATALOG_ROOT], plots'[CATALOG_ROOT], es, next, entry);
    assert EntriesStand(plots', es[next := entry]) <==> HoldsEntries(Contents(plots'[CATALOG_ROOT].tree), es[next := entry]);
  }

  lemma EntryRemoved(cells: seq<Cell>, es: Entries, r: int, cells': seq<Cell>)
    requires HoldsEntries(cells, es) && Sorted(cells) && IsRemoved(cells, r, cells')
    ensures HoldsEntries(cells', es - {r})
  {
    RemovedCells(cells, r, cells');
  }

  // ---------- the invariant, as values ----------

  /** (The quantifier keeps HoldsEntries folded.) */
  ghost predicate EntriesStand(plots: Plots, es: Entries) {
    && CATALOG_ROOT in plots && plots[CATALOG_ROOT].kind == Table
    && forall e :: e == es ==> HoldsEntries(Contents(plots[CATALOG_ROOT].tree), e)
  }

  /** Apart from the catalog tree there are exactly the trees of the definitions, each of its
      own kind. */
  ghost predicate TreesStand(plots: Plots, tables: seq<Numbered<TableDef>>, indexes: seq<Numbered<IndexDef>>) {
    && Shares(plots.Keys - {CATALOG_ROOT}, Roots(tables, TableRoot), Roots(indexes, IndexRoot))
    && (forall i :: 0 <= i < |tables| ==> KindAt(plots, tables[i].def.root, Table))
    && (forall i :: 0 <= i < |indexes| ==> KindAt(plots, indexes[i].def.root, Index))
  }

  ghost predicate KindAt(plots: Plots, root: PageId, kind: Kind) {
    root in plots && root != CATALOG_ROOT && plots[root].kind == kind
  }

  ghost predicate Numbers(es: Entries, next: int) {
    1 <= next && forall r :: r in es ==> 1 <= r < next
  }

  /** Arrays, entries and trees agree. */
  ghost predicate Stands(plots: Plots, es: Entries, next: int, tables: seq<Numbered<TableDef>>, indexes: seq<Numbered<IndexDef>>) {
    && |tables| <= MAX_TABLES && |indexes| <= MAX_INDEXES
    && Stored(es, tables, indexes) && Named(tables, indexes) && Numbers(es, next)
    && EntriesStand(plots, es) && TreesStand(plots, tables, indexes)
  }

  class Catalog {
    const forest: Forest
    var nextCatalogRowid: int
    var tables: seq<Numbered<TableDef>>
    var indexes: seq<Numbered<IndexDef>>
    // what the catalog tree should hold
    ghost var entries: Entries

    /** (The quantifier keeps Stands folded.) */
    ghost predicate Valid()
      reads this, forest, forest.pager, forest.pager.frames, forest.pager.txn
    {
      forest.Valid() && forall es :: es == entries ==> Stands(forest.plots, es, nextCatalogRowid, tables, indexes)
    }

    /** An empty database. */
    constructor (forest: Forest)
      requires forest.Valid() && forest.plots.Keys == {CATALOG_ROOT}
      requires forest.plots[CATALOG_ROOT].kind == Table && forest.Rows(CATALOG_ROOT) == []
      ensures Valid() && this.forest == forest && tables == [] && indexes == [] && nextCatalogRowid == 1
    {
      this.forest, nextCatalogRowid, tables, indexes, entries := forest, 1, [], [], map[];
    }

    /** catalog_open, on the trees of any valid catalog (was), from the rows a cursor gives of
        the catalog tree and, by rowidsOf, of the tables.  The arrays come back as they were,
        in the same order; the next rowid of each table is above all its rowids. */
    constructor Open(forest: Forest, cells: seq<Cell>, rowidsOf: PageId -> seq<int>, ghost es: Entries, ghost next: int,
                     ghost wasTables: seq<Numbered<TableDef>>, ghost wasIndexes: seq<Numbered<IndexDef>>)
      requires forest.Valid() && Stands(forest.plots, es, next, wasTables, wasIndexes) && AllInRange(wasTables, wasIndexes)
      requires cells == forest.Rows(CATALOG_ROOT) && Sorted(cells)
      requires forall r :: r in forest.plots ==> rowidsOf(r) == RanksIn(forest.Rows(r))
      ensures Valid() && this.forest == forest && entries == es && indexes == wasIndexes && |tables| == |wasTables|
      ensures forall i :: 0 <= i < |tables| ==>
                tables[i].rowid == wasTables[i].rowid && Reopened(tables[i].def, wasTables[i].def, rowidsOf(wasTables[i].def.root))
      ensures forall i, r :: 0 <= i < |tables| && tables[i].def.root in forest.plots && HasRank(forest.Rows(tables[i].def.root), r) ==>
                r < tables[i].def.nextRowid
    {
      this.forest, this.entries, nextCatalogRowid, tables, indexes := forest, es, 1, [], [];
      new;
      hide Forest.Valid;
      LoadEntries(cells, wasTables, wasIndexes);
      LoadNextRowids(rowidsOf, wasTables);
      ReopenedStands(forest.plots, es, next, nextCatalogRowid, tables, wasTables, indexes);
      forall i, r | 0 <= i < |tables| && tables[i].def.root in forest.plots && HasRank(forest.Rows(tables[i].def.root), r)
        ensures r < tables[i].def.nextRowid
      {
        RankIsIn(forest.Rows(tables[i].def.root), r);
      }
    }

    /** The cursor loop of catalog_open. */
    method LoadEntries(cells: seq<Cell>, ghost wasTables: seq<Numbered<TableDef>>, ghost wasIndexes: seq<Numbered<IndexDef>>)
      requires |wasTables| <= MAX_TABLES && |wasIndexes| <= MAX_INDEXES && Stored(entries, wasTables, wasIndexes)
      requires AllInRange(wasTables, wasIndexes) && forall r :: r in entries ==> 1 <= r
      requires HoldsEntries(cells, entries) && Sorted(cells) && tables == [] && indexes == [] && nextCatalogRowid == 1
      modifies `tables, `indexes, `nextCatalogRowid
      ensures Same(tables, wasTables) && indexes == wasIndexes && Numbers(entries, nextCatalogRowid)
    {
      ghost var scan := RanksIn(cells);
      ScanOf(cells, entries);
      var most := 0;
      var i := 0;
      assert Loading(scan, 0, wasTables, wasIndexes, 0, 0);
      while i < |cells|
        invariant 0 <= i <= |cells| && 0 <= most && UpTo(scan, i, most)
        invariant Loading(scan, i, wasTables, wasIndexes, |tables|, |indexes|)
        invariant Same(tables, wasTables[..|tables|]) && indexes == wasIndexes[..|indexes|]
      {
        EntryAt(cells, entries, i);
        UpToNext(scan, i, most);
        if cells[i].key.rank > most {
          most := cells[i].key.rank;
        }
        LoadNext(cells[i], scan, i, wasTables, wasIndexes);
        i := i + 1;
      }
      LoadedAll(scan, entries, most, tables, indexes, wasTables, wasIndexes);
      nextCatalogRowid := most + 1;
    }

    /** One round of that loop, but for the greatest number. */
    method LoadNext(c: Cell, ghost scan: seq<int>, ghost i: nat, ghost wasTables: seq<Numbered<TableDef>>, ghost wasIndexes: seq<Numbered<IndexDef>>)
      requires |wasTables| <= MAX_TABLES && |wasIndexes| <= MAX_INDEXES && Stored(entries, wasTables, wasIndexes)
      requires AllInRange(wasTables, wasIndexes)
      requires Increasing(scan) && Elements(scan) == entries.Keys && i < |scan| && scan[i] in entries && c == EntryCell(scan[i], entries[scan[i]])
      requires Loading(scan, i, wasTables, wasIndexes, |tables|, |indexes|)
      requires Same(tables, wasTables[..|tables|]) && indexes == wasIndexes[..|indexes|]
      modifies `tables, `indexes
      ensures Loading(scan, i + 1, wasTables, wasIndexes, |tables|, |indexes|)
      ensures Same(tables, wasTables[..|tables|]) && indexes == wasIndexes[..|indexes|]
    {
      LoadingStep(scan, i, entries, wasTables, wasIndexes, |tables|, |indexes|);
      LoadEntry(c.key.rank, c.payload, wasTables, wasIndexes);
    }

    /** One entry: a table or an index, by its first byte. */
    method LoadEntry(rowid: int, payload: seq<Byte>, ghost wasTables: seq<Numbered<TableDef>>, ghost wasIndexes: seq<Numbered<IndexDef>>)
      requires |tables| <= |wasTables| <= MAX_TABLES && |indexes| <= |wasIndexes| <= MAX_INDEXES
      requires Same(tables, wasTables[..|tables|]) && indexes == wasIndexes[..|indexes|]
      requires || (|tables| < |wasTables| && rowid == wasTables[|tables|].rowid && TableOk(wasTables[|tables|].def) && InRange(wasTables[|tables|].def.root)
                   && payload == TableEntry(wasTables[|tables|].def))
               || (|indexes| < |wasIndexes| && rowid == wasIndexes[|indexes|].rowid && IndexOk(wasIndexes[|indexes|].def) && InRange(wasIndexes[|indexes|].def.root)
                   && payload == IndexEntry(wasIndexes[|indexes|].def))
      modifies `tables, `indexes
      ensures |tables| <= |wasTables| && |indexes| <= |wasIndexes|
      ensures Same(tables, wasTables[..|tables|]) && indexes == wasIndexes[..|indexes|]
      ensures if payload[0] == ENTRY_TABLE then |tables| == |old(tables)| + 1 <= |wasTables| && indexes == old(indexes) && rowid == wasTables[|old(tables)|].rowid
              else |indexes| == |old(indexes)| + 1 <= |wasIndexes| && tables == old(tables) && rowid == wasIndexes[|old(indexes)|].rowid
    {
      if payload[0] == ENTRY_TABLE && |tables| < MAX_TABLES {
        var t := DeserializeTable(payload, wasTables[|tables|].def);
        tables := tables + [Numbered(rowid, t)];
      } else if payload[0] == ENTRY_INDEX && |indexes| < MAX_INDEXES {
        var ix := DeserializeIndex(payload, wasIndexes[|indexes|].def);
        indexes := indexes + [Numbered(rowid, ix)];
      }
    }

    /** The last loop of catalog_open. */
    method LoadNextRowids(rowidsOf: PageId -> seq<int>, ghost wasTables: seq<Numbered<TableDef>>)
      requires Same(tables, wasTables)
      modifies `tables
      ensures |tables| == |wasTables|
      ensures forall i :: 0 <= i < |tables| ==>
                tables[i].rowid == wasTables[i].rowid && Reopened(tables[i].def, wasTables[i].def, rowidsOf(wasTables[i].def.root))
    {
      var i := 0;
      while i < |tables|
        invariant 0 <= i <= |tables| == |wasTables|
        invariant forall j :: 0 <= j < i ==>
                    tables[j].rowid == wasTables[j].rowid && Reopened(tables[j].def, wasTables[j].def, rowidsOf(wasTables[j].def.root))
        invariant forall j :: i <= j < |tables| ==> tables[j].rowid == wasTables[j].rowid && tables[j].def == wasTables[j].def.(nextRowid := 1)
      {
        var next := NextRowid(rowidsOf(tables[i].def.root));
        tables := tables[i := tables[i].(def := tables[i].def.(nextRowid := next))];
        i := i + 1;
      }
    }

    /** catalog_find_table; the number of tables stands for not found. */
    method FindTable(name: Name) returns (i: nat)
      ensures i <= |tables| && (i < |tables| ==> tables[i].def.name == name)
      ensures forall j :: 0 <= j < i ==> tables[j].def.name != name
    {
      i := 0;
      while i < |tables| && tables[i].def.name != name
        invariant i <= |tables| && forall j :: 0 <= j < i ==> tables[j].def.name != name
      {
        i := i + 1;
      }
    }

    /** catalog_find_index */
    method FindIndex(name: Name) returns (i: nat)
      ensures i <= |indexes| && (i < |indexes| ==> indexes[i].def.name == name)
      ensures forall j :: 0 <= j < i ==> indexes[j].def.name != name
    {
      i := 0;
      while i < |indexes| && indexes[i].def.name != name
        invariant i <= |indexes| && forall j :: 0 <= j < i ==> indexes[j].def.name != name
      {
        i := i + 1;
      }
    }

    // ---------- CREATE ----------

    /** btree_table_insert into the catalog tree: the size is no problem and the number is new. */
    method PutEntry(entry: seq<Byte>)
      requires forest.InTxn() && EntriesStand(forest.plots, entries) && Numbers(entries, nextCatalogRowid) && |entry| <= 2182
      requires EntryReads(entry)
      modifies `nextCatalogRowid, `entries
      modifies forest`plots, forest.pager`disk, forest.pager`tick, forest.pager`run, forest.pager`pages, forest.pager`durable
      modifies forest.pager`numPages, forest.pager`freeListHead, forest.pager`freeList, forest.pager`live
      modifies forest.pager.frames, forest.pager.txn`file, forest.pager.txn`journaled
      ensures forest.InTxn() && forest.SameBut({CATALOG_ROOT}) && nextCatalogRowid == old(nextCatalogRowid) + 1
      ensures entries == old(entries)[old(nextCatalogRowid) := entry]
      ensures EntryCame(old(forest.plots), forest.plots, old(nextCatalogRowid), entry)
      ensures EntriesStand(forest.plots, entries) <==> old(EntryFits(entry))
    {
      ghost var before, r := forest.plots, nextCatalogRowid;
      NewEntry(before, entries, r);
      forest.RowsInOrder(CATALOG_ROOT);
      var ok := forest.InsertRow(CATALOG_ROOT, nextCatalogRowid, entry);
      forest.RowsInOrder(CATALOG_ROOT);
      EntryStandsIffFits(before, forest.plots, entries, r, entry);
      entries := entries[r := entry];
      nextCatalogRowid := nextCatalogRowid + 1;
    }

    /** The split for the entry, if there is one, leaves two pages; and it loses nothing. */
    ghost predicate EntryReads(entry: seq<Byte>)
      reads `nextCatalogRowid, forest`plots
    {
      CATALOG_ROOT in forest.plots ==> SplitReadable(Table, forest.plots[CATALOG_ROOT].tree, EntryCell(nextCatalogRowid, entry))
    }

    ghost predicate EntryFits(entry: seq<Byte>)
      reads `nextCatalogRowid, forest`plots
    {
      FitsAmongEntries(forest.plots, nextCatalogRowid, entry)
    }

    /** catalog_create_table: refused for a known name or a full catalog; otherwise there is
        a new empty tree, and the array holds the table.  Reopening would give it back exactly
        if the split of the catalog leaf, if there was one, lost no entry. */
    method CreateTable(def: TableDef) returns (ok: bool, root: PageId)
      requires Valid() && forest.pager.txn.active && TableOk(def)
      requires EntryReads(TableEntry(def.(root := forest.pager.NextPage())))
      modifies `nextCatalogRowid, `entries, `tables
      modifies forest`plots, forest.pager`disk, forest.pager`tick, forest.pager`run, forest.pager`pages, forest.pager`durable
      modifies forest.pager`numPages, forest.pager`freeListHead, forest.pager`freeList, forest.pager`live
      modifies forest.pager.frames, forest.pager.txn`file, forest.pager.txn`journaled
      ensures ok <==> |old(tables)| < MAX_TABLES && forall i :: 0 <= i < |old(tables)| ==> old(tables)[i].def.name != def.name
      ensures tables == old(tables) + if ok then [Numbered(old(nextCatalogRowid), def.(root := root, nextRowid := 1))] else []
      ensures !ok ==> Valid() && forest.plots == old(forest.plots) && nextCatalogRowid == old(nextCatalogRowid) && entries == old(entries)
      ensures ok ==> && root == old(forest.pager.NextPage()) && root !in old(forest.plots) && nextCatalogRowid == old(nextCatalogRowid) + 1
                     && Alike(old(forest.plots)[root := NewPlot(root, Table)], forest.plots, {CATALOG_ROOT})
      ensures ok ==> forest.InTxn() && EntryCame(old(forest.plots), forest.plots, old(nextCatalogRowid), TableEntry(def.(root := root)))
      ensures ok ==> (Valid() <==> old(EntryFits(TableEntry(def.(root := forest.pager.NextPage())))))
    {
      hide Forest.Valid;
      root := 0;
      var i := FindTable(def.name);
      if i < |tables| || |tables| >= MAX_TABLES {
        return false, root;
      }
      root := EnterTable(def);
      tables := tables + [Numbered(nextCatalogRowid - 1, def.(root := root, nextRowid := 1))];
      assert Valid() <==> Stands(forest.plots, entries, nextCatalogRowid, tables, indexes);
      ok := true;
    }

    /** The new tree and the entry. */
    method EnterTable(def: TableDef) returns (root: PageId)
      requires Valid() && forest.pager.txn.active && TableOk(def) && |tables| < MAX_TABLES
      requires forall i :: 0 <= i < |tables| ==> tables[i].def.name != def.name
      requires EntryReads(TableEntry(def.(root := forest.pager.NextPage())))
      modifies `nextCatalogRowid, `entries
      modifies forest`plots, forest.pager`disk, forest.pager`tick, forest.pager`run, forest.pager`pages, forest.pager`durable
      modifies forest.pager`numPages, forest.pager`freeListHead, forest.pager`freeList, forest.pager`live
      modifies forest.pager.frames, forest.pager.txn`file, forest.pager.txn`journaled
      ensures root == old(forest.pager.NextPage()) && root !in old(forest.plots) && nextCatalogRowid == old(nextCatalogRowid) + 1
      ensures Alike(old(forest.plots)[root := NewPlot(root, Table)], forest.plots, {CATALOG_ROOT})
      ensures forest.InTxn() && EntryCame(old(forest.plots), forest.plots, old(nextCatalogRowid), TableEntry(def.(root := root)))
      ensures var n := Numbered(old(nextCatalogRowid), def.(root := root, nextRowid := 1));
              Stands(forest.plots, entries, nextCatalogRowid, tables + [n], indexes) <==> old(EntryFits(TableEntry(def.(root := forest.pager.NextPage()))))
    {
      hide Forest.Valid, TreesStand, HoldsEntries;
      assert Stands(forest.plots, entries, nextCatalogRowid, tables, indexes);
      ghost var before := forest.plots;
      root := forest.NewTree(Table);
      var n := Numbered(nextCatalogRowid, def.(root := root, nextRowid := 1));
      var entry := SerializeTable(n.def);
      EntryIgnoresNext(def.(root := root), 1);
      EntrySizes(n.def, IndexDef([], [], [], 0, 0));
      ghost var mid := forest.plots;
      PutEntry(entry);
      StandsWithTable(before, mid, forest.plots, old(entries), old(nextCatalogRowid), tables, indexes, n, root, entry);
    }

    /** catalog_create_index, likewise. */
    method CreateIndex(def: IndexDef) returns (ok: bool, root: PageId)
      requires Valid() && forest.pager.txn.active && IndexOk(def)
      requires EntryReads(IndexEntry(def.(root := forest.pager.NextPage())))
      modifies `nextCatalogRowid, `entries, `indexes
      modifies forest`plots, forest.pager`disk, forest.pager`tick, forest.pager`run, forest.pager`pages, forest.pager`durable
      modifies forest.pager`numPages, forest.pager`freeListHead, forest.pager`freeList, forest.pager`live
      modifies forest.pager.frames, forest.pager.txn`file, forest.pager.txn`journaled
      ensures ok <==> |old(indexes)| < MAX_INDEXES && forall i :: 0 <= i < |old(indexes)| ==> old(indexes)[i].def.name != def.name
      ensures indexes == old(indexes) + if ok then [Numbered(old(nextCatalogRowid), def.(root := root))] else []
      ensures !ok ==> Valid() && forest.plots == old(forest.plots) && nextCatalogRowid == old(nextCatalogRowid) && entries == old(entries)
      ensures ok ==> && root == old(forest.pager.NextPage()) && root !in old(forest.plots) && nextCatalogRowid == old(nextCatalogRowid) + 1
                     && Alike(old(forest.plots)[root := NewPlot(root, Index)], forest.plots, {CATALOG_ROOT})
      ensures ok ==> forest.InTxn() && EntryCame(old(forest.plots), forest.plots, old(nextCatalogRowid), IndexEntry(def.(root := root)))
      ensures ok ==> (Valid() <==> old(EntryFits(IndexEntry(def.(root := forest.pager.NextPage())))))
    {
      hide Forest.Valid;
      root := 0;
      var i := FindIndex(def.name);
      if i < |indexes| || |indexes| >= MAX_INDEXES {
        return false, root;
      }
      root := EnterIndex(def);
      indexes := indexes + [Numbered(nextCatalogRowid - 1, def.(root := root))];
      assert Valid() <==> Stands(forest.plots, entries, nextCatalogRowid, tables, indexes);
      ok := true;
    }

    /** The new tree and the entry. */
    method EnterIndex(def: IndexDef) returns (root: PageId)
      requires Valid() && forest.pager.txn.active && IndexOk(def) && |indexes| < MAX_INDEXES
      requires forall i :: 0 <= i < |indexes| ==> indexes[i].def.name != def.name
      requires EntryReads(IndexEntry(def.(root := forest.pager.NextPage())))
      modifies `nextCatalogRowid, `entries
      modifies forest`plots, forest.pager`disk, forest.pager`tick, forest.pager`run, forest.pager`pages, forest.pager`durable
      modifies forest.pager`numPages, forest.pager`freeListHead, forest.pager`freeList, forest.pager`live
      modifies forest.pager.frames, forest.pager.txn`file, forest.pager.txn`journaled
      ensures root == old(forest.pager.NextPage()) && root !in old(forest.plots) && nextCatalogRowid == old(nextCatalogRowid) + 1
      ensures Alike(old(forest.plots)[root := NewPlot(root, Index)], forest.plots, {CATALOG_ROOT})
      ensures forest.InTxn() && EntryCame(old(forest.plots), forest.plots, old(nextCatalogRowid), IndexEntry(def.(root := root)))
      ensures var n := Numbered(old(nextCatalogRowid), def.(root := root));
              Stands(forest.plots, entries, nextCatalogRowid, tables, indexes + [n]) <==> old(EntryFits(IndexEntry(def.(root := forest.pager.NextPage()))))
    {
      hide Forest.Valid, TreesStand, HoldsEntries;
      assert Stands(forest.plots, entries, nextCatalogRowid, tables, indexes);
      ghost var before := forest.plots;
      root := forest.NewTree(Index);
      var n := Numbered(nextCatalogRowid, def.(root := root));
      var entry := SerializeIndex(n.def);
      EntrySizes(TableDef([], 0, [], None, 1), n.def);
      ghost var mid := forest.plots;
      PutEntry(entry);
      StandsWithIndex(before, mid, forest.plots, old(entries), old(nextCatalogRowid), tables, indexes, n, root, entry);
    }

    // ---------- DROP ----------

    /** drop_index_at: the index tree is destroyed, the entry deleted, the array closed up. */
    method DropIndexAt(k: nat)
      requires Valid() && forest.pager.txn.active && k < |indexes|
      modifies `indexes, `entries
      modifies forest`plots, forest.pager`disk, forest.pager`tick, forest.pager`run, forest.pager`pages, forest.pager`durable
      modifies forest.pager`numPages, forest.pager`freeListHead, forest.pager`freeList, forest.pager`live
      modifies forest.pager.frames, forest.pager.txn`file, forest.pager.txn`journaled
      ensures Valid() && forest.pager.txn.active && indexes == old(indexes)[..k] + old(indexes)[k + 1..]
      ensures Dropped(old(forest.plots), forest.plots) && forest.plots.Keys == old(forest.plots.Keys) - {old(indexes)[k].def.root}
    {
      hide Forest.Valid, TreesStand, HoldsEntries;
      assert Stands(forest.plots, entries, nextCatalogRowid, tables, indexes);
      ghost var before, gone := forest.plots, indexes[k];
      IndexHasTree(before, tables, indexes, k);
      forest.Destroy(indexes[k].def.root, Index);
      ghost var mid := forest.plots;
      DeleteEntry(indexes[k].rowid);
      StandsWithoutIndex(before, mid, forest.plots, old(entries), entries, nextCatalogRowid, tables, indexes, k);
      CloseIndexes(k);
      assert Stands(forest.plots, entries, nextCatalogRowid, tables, indexes);
    }

    /** btree_table_delete of an entry. */
    method DeleteEntry(rowid: int)
      requires forest.InTxn() && EntriesStand(forest.plots, entries)
      modifies `entries
      modifies forest`plots, forest.pager`disk, forest.pager`tick, forest.pager`run, forest.pager`pages, forest.pager`durable
      modifies forest.pager`numPages, forest.pager`freeListHead, forest.pager`freeList, forest.pager`live
      modifies forest.pager.frames, forest.pager.txn`file, forest.pager.txn`journaled
      ensures forest.InTxn() && forest.SameBut({CATALOG_ROOT}) && EntriesStand(forest.plots, entries)
      ensures entries == old(entries) - {rowid}
      ensures Ids(forest.plots[CATALOG_ROOT].tree) == Ids(old(forest.plots)[CATALOG_ROOT].tree)
    {
      ghost var cells, was := forest.Rows(CATALOG_ROOT), entries;
      EntryRank(cells, was, rowid);
      forest.RowsInOrder(CATALOG_ROOT);
      var ok := forest.Delete(CATALOG_ROOT, Table, rowid);
      entries := was - {rowid};
      if ok {
        EntryRemoved(cells, was, rowid, forest.Rows(CATALOG_ROOT));
      } else {
        assert was - {rowid} == was;
      }
    }

    method CloseIndexes(k: nat)
      requires k < |indexes|
      modifies `indexes
      ensures indexes == old(indexes)[..k] + old(indexes)[k + 1..]
    {
      var i := k;
      while i < |indexes| - 1
        invariant k <= i <= |indexes| - 1 == |old(indexes)| - 1
        invariant forall j :: 0 <= j < |indexes| ==> indexes[j] == old(indexes)[if k <= j < i then j + 1 else j]
      {
        indexes := indexes[i := indexes[i + 1]];
        i := i + 1;
      }
      indexes := indexes[..|indexes| - 1];
      assert |indexes| == |old(indexes)[..k] + old(indexes)[k + 1..]|;
    }

    /** catalog_drop_index: the entry, the tree with its pages, and the place in the array. */
    method DropIndex(name: Name) returns (ok: bool, ghost k: nat)
      requires Valid() && forest.pager.txn.active
      modifies `indexes, `entries
      modifies forest`plots, forest.pager`disk, forest.pager`tick, forest.pager`run, forest.pager`pages, forest.pager`durable
      modifies forest.pager`numPages, forest.pager`freeListHead, forest.pager`freeList, forest.pager`live
      modifies forest.pager.frames, forest.pager.txn`file, forest.pager.txn`journaled
      ensures Valid() && forest.pager.txn.active
      ensures ok <==> exists i :: 0 <= i < |old(indexes)| && old(indexes)[i].def.name == name
      ensures !ok ==> indexes == old(indexes) && entries == old(entries) && forest.plots == old(forest.plots)
      ensures ok ==> && k < |old(indexes)| && old(indexes)[k].def.name == name && indexes == old(indexes)[..k] + old(indexes)[k + 1..]
                     && Dropped(old(forest.plots), forest.plots) && forest.plots.Keys == old(forest.plots.Keys) - {old(indexes)[k].def.root}
    {
      var i := FindIndex(name);
      k, ok := i, i < |indexes|;
      if ok {
        DropIndexAt(i);
      }
    }

    /** catalog_drop_table: its indexes from the last to the first, then the table.  All
        their trees are gone, their pages owned no more, and no other tree has changed. */
    method DropTable(name: Name) returns (ok: bool, ghost k: nat)
      requires Valid() && forest.pager.txn.active
      modifies `tables, `indexes, `entries
      modifies forest`plots, forest.pager`disk, forest.pager`tick, forest.pager`run, forest.pager`pages, forest.pager`durable
      modifies forest.pager`numPages, forest.pager`freeListHead, forest.pager`freeList, forest.pager`live
      modifies forest.pager.frames, forest.pager.txn`file, forest.pager.txn`journaled
      ensures Valid() && forest.pager.txn.active
      ensures ok <==> exists i :: 0 <= i < |old(tables)| && old(tables)[i].def.name == name
      ensures !ok ==> tables == old(tables) && indexes == old(indexes) && entries == old(entries) && forest.plots == old(forest.plots)
      ensures ok ==> && k < |old(tables)| && old(tables)[k].def.name == name && tables == old(tables)[..k] + old(tables)[k + 1..]
                     && indexes == OfOthers(old(indexes), name)
                     && Dropped(old(forest.plots), forest.plots) && PagesFreed(old(forest.plots), forest.plots, forest.pager.live)
    {
      hide Forest.Valid, Forest.InTxn, TreesStand, EntriesStand, Shares;
      ghost var before := forest.plots;
      forest.PlotsPlanted();
      ghost var img, live := forest.pager.pages, forest.pager.live;
      var ti := FindTable(name);
      k, ok := ti, ti < |tables|;
      if ok {
        DropIndexesOf(name);
        ghost var mid := forest.plots;
        DropTableAt(ti);
        DroppedThrough(before, mid, forest.plots);
        forest.PlotsPlanted();
        GonePagesFreed(img, before, live, forest.pager.pages, forest.plots, forest.pager.live);
      }
    }

    method DropIndexesOf(name: Name)
      requires Valid() && forest.pager.txn.active
      modifies `indexes, `entries
      modifies forest`plots, forest.pager`disk, forest.pager`tick, forest.pager`run, forest.pager`pages, forest.pager`durable
      modifies forest.pager`numPages, forest.pager`freeListHead, forest.pager`freeList, forest.pager`live
      modifies forest.pager.frames, forest.pager.txn`file, forest.pager.txn`journaled
      ensures Valid() && forest.pager.txn.active && indexes == OfOthers(old(indexes), name) && Dropped(old(forest.plots), forest.plots)
    {
      hide Forest.Valid, Forest.InTxn;
      var i := |indexes|;
      assert Stands(forest.plots, entries, nextCatalogRowid, tables, indexes);
      ghost var before, was, rest := forest.plots, indexes, [];
      assert was[i..] == [];
      while i > 0
        invariant 0 <= i <= |was| && Valid() && forest.pager.txn.active && Dropped(before, forest.plots)
        invariant indexes == was[..i] + rest && rest == OfOthers(was[i..], name)
      {
        i := i - 1;
        BackOne(was, rest, i, name);
        if indexes[i].def.table == name {
          ghost var mid := forest.plots;
          DropIndexAt(i);
          DroppedThrough(before, mid, forest.plots);
        } else {
          rest := [was[i]] + rest;
        }
      }
      assert was[0..] == was;
    }

    method DropTableAt(k: nat)
      requires Valid() && forest.pager.txn.active && k < |tables|
      modifies `tables, `entries
      modifies forest`plots, forest.pager`disk, forest.pager`tick, forest.pager`run, forest.pager`pages, forest.pager`durable
      modifies forest.pager`numPages, forest.pager`freeListHead, forest.pager`freeList, forest.pager`live
      modifies forest.pager.frames, forest.pager.txn`file, forest.pager.txn`journaled
      ensures Valid() && forest.pager.txn.active && tables == old(tables)[..k] + old(tables)[k + 1..]
      ensures Dropped(old(forest.plots), forest.plots) && forest.plots.Keys == old(forest.plots.Keys) - {old(tables)[k].def.root}
    {
      hide Forest.Valid, TreesStand, HoldsEntries;
      assert Stands(forest.plots, entries, nextCatalogRowid, tables, indexes);
      ghost var before := forest.plots;
      TableHasTree(before, tables, indexes, k);
      forest.Destroy(tables[k].def.root, Table);
      ghost var mid := forest.plots;
      DeleteEntry(tables[k].rowid);
      StandsWithoutTable(before, mid, forest.plots, old(entries), entries, nextCatalogRowid, tables, indexes, k);
      CloseTables(k);
      assert Stands(forest.plots, entries, nextCatalogRowid, tables, indexes);
    }

    method CloseTables(k: nat)
      requires k < |tables|
      modifies `tables
      ensures tables == old(tables)[..k] + old(tables)[k + 1..]
    {
      var i := k;
      while i < |tables| - 1
        invariant k <= i <= |tables| - 1 == |old(tables)| - 1
        invariant forall j :: 0 <= j < |tables| ==> tables[j] == old(tables)[if k <= j < i then j + 1 else j]
      {
        tables := tables[i := tables[i + 1]];
        i := i + 1;
      }
      tables := tables[..|tables| - 1];
      assert |tables| == |old(tables)[..k] + old(tables)[k + 1..]|;
    }
  }

  // ---------- reopening ----------

  ghost predicate AllInRange(tables: seq<Numbered<TableDef>>, indexes: seq<Numbered<IndexDef>>) {
    && (forall i :: 0 <= i < |tables| ==> InRange(tables[i].def.root))
    && (forall i :: 0 <= i < |indexes| ==> InRange(indexes[i].def.root))
  }

  lemma RankIsIn(cells: seq<Cell>, r: int)
    requires HasRank(cells, r)
    ensures r in RanksIn(cells)
  {
    var i :| 0 <= i < |cells| && cells[i].key.rank == r;
    assert RanksIn(cells)[i] == r;
  }

  /** The first i numbers are at most this one. */
  ghost predicate UpTo(scan: seq<int>, i: nat, most: int) {
    i <= |scan| && forall r :: r in scan[..i] ==> r <= most
  }

  lemma UpToNext(scan: seq<int>, i: nat, most: int)
    requires i < |scan| && UpTo(scan, i, most)
    ensures UpTo(scan, i + 1, if scan[i] > most then scan[i] else most)
  {
    assert scan[..i + 1] == scan[..i] + [scan[i]];
  }

  lemma EntryAt(cells: seq<Cell>, es: Entries, i: nat)
    requires HoldsEntries(cells, es) && i < |cells|
    ensures cells[i].key.rank in es && cells[i] == EntryCell(cells[i].key.rank, es[cells[i].key.rank])
  {
    assert cells[i] in cells;
  }

  lemma ScanOf(cells: seq<Cell>, es: Entries)
    requires HoldsEntries(cells, es) && Sorted(cells)
    ensures Increasing(RanksIn(cells)) && Elements(RanksIn(cells)) == es.Keys
  {
    forall i | 0 <= i < |cells| ensures RanksIn(cells)[i] in es {
      assert cells[i] in cells;
    }
    forall r | r in es ensures r in RanksIn(cells) {
      RankIsIn(cells, r);
    }
  }

  lemma ReopenedStands(plots: Plots, es: Entries, next: int, next': int, tables: seq<Numbered<TableDef>>, was: seq<Numbered<TableDef>>,
                       indexes: seq<Numbered<IndexDef>>)
    requires Stands(plots, es, next, was, indexes) && Numbers(es, next') && |tables| == |was|
    requires forall i :: 0 <= i < |tables| ==> tables[i].rowid == was[i].rowid && tables[i].def == was[i].def.(nextRowid := tables[i].def.nextRowid)
    ensures Stands(plots, es, next', tables, indexes)
  {
    assert Rowids(tables) == Rowids(was) && Roots(tables, TableRoot) == Roots(was, TableRoot);
    forall i | 0 <= i < |tables| ensures TableEntry(tables[i].def) == TableEntry(was[i].def) {}
  }

  /** The roots catalog_open makes leaves where they are all zeros. */
  ghost function OpenedRoots(tables: seq<Numbered<TableDef>>): set<PageId> {
    {CATALOG_ROOT} + Elements(Roots(tables, TableRoot))
  }

  /** Opening the catalog of a file leaves its trees; and, unless the cache overflows
      meanwhile, the session's first transaction is protected exactly if neither the catalog
      nor any table of it is still untouched in the file. */
  lemma OpenedProtectsIff(r: Run, plots: Plots, live: set<PageId>, es: Entries, next: int, tables: seq<Numbered<TableDef>>,
                          indexes: seq<Numbered<IndexDef>>)
    requires Stands(plots, es, next, tables, indexes) && Opening(r, OpenedRoots(tables))
    requires Planted(ImageOf(r.states[0].disk), plots, live) && forall j :: 0 <= j < |r.steps| ==> !r.steps[j].Flush?
    ensures Planted(Logical(End(r)), plots, live) && Enabled(End(r), Begin)
    ensures TakenBack(Apply(End(r), Begin)) <==>
              && At(r.states[0].disk, CATALOG_ROOT) != Raw(0)
              && forall i :: 0 <= i < |tables| ==> At(r.states[0].disk, tables[i].def.root) != Raw(0)
  {
    var roots := OpenedRoots(tables);
    OpenedRootsAre(plots, es, tables, indexes);
    OpeningKeepsTrees(r, roots, plots, live);
    FirstTransactionProtectedIff(r, roots);
  }

  lemma OpenedRootsAre(plots: Plots, es: Entries, tables: seq<Numbered<TableDef>>, indexes: seq<Numbered<IndexDef>>)
    requires EntriesStand(plots, es) && TreesStand(plots, tables, indexes)
    ensures forall p :: p in OpenedRoots(tables) <==> p == CATALOG_ROOT || exists i :: 0 <= i < |tables| && p == tables[i].def.root
    ensures forall p :: p in OpenedRoots(tables) ==> p in plots && plots[p].kind == Table
  {
    var a := Roots(tables, TableRoot);
    forall p | p in a ensures exists i :: 0 <= i < |tables| && p == tables[i].def.root {
      var i :| 0 <= i < |a| && a[i] == p;
    }
    forall i | 0 <= i < |tables| ensures tables[i].def.root in a && KindAt(plots, tables[i].def.root, Table) {
      assert a[i] in a;
    }
  }

  // ---------- definitions come and go ----------

  function NewPlot(root: PageId, kind: Kind): Plot {
    Plot(kind, Tip(root, []), 0, 1, 0)
  }

  /** The split of its leaf, if there is one, loses no entry. */
  ghost predicate FitsAmongEntries(plots: Plots, rowid: int, entry: seq<Byte>) {
    CATALOG_ROOT in plots && SplitFits(Table, plots[CATALOG_ROOT].tree, EntryCell(rowid, entry))
  }

  /** What the insertion of an entry did to the catalog tree. */
  ghost predicate EntryCame(plots: Plots, plots': Plots, rowid: int, entry: seq<Byte>) {
    CATALOG_ROOT in plots && CATALOG_ROOT in plots' && Came(plots[CATALOG_ROOT], plots'[CATALOG_ROOT], EntryCell(rowid, entry))
  }

  lemma StandsWithTable(plots: Plots, mid: Plots, plots': Plots, es: Entries, next: int, tables: seq<Numbered<TableDef>>,
                        indexes: seq<Numbered<IndexDef>>, n: Numbered<TableDef>, root: PageId, entry: seq<Byte>)
    requires Stands(plots, es, next, tables, indexes) && root !in plots && mid == plots[root := NewPlot(root, Table)]
    requires Alike(mid, plots', {CATALOG_ROOT}) && n.rowid == next && n.def.root == root && TableOk(n.def) && |tables| < MAX_TABLES
    requires entry == TableEntry(n.def) && forall i :: 0 <= i < |tables| ==> tables[i].def.name != n.def.name
    ensures Stands(plots', es[next := entry], next + 1, tables + [n], indexes)
            <==> EntriesStand(plots', es[next := entry])
  {
    assert Stored(es[next := entry], tables + [n], indexes) by {
      StoredWithTable(es, tables, indexes, n);
    }
    assert TreesStand(plots', tables + [n], indexes) by {
      TreesStandWithTable(plots, mid, plots', tables, indexes, n, root);
    }
  }

  lemma TreesStandWithTable(plots: Plots, mid: Plots, plots': Plots, tables: seq<Numbered<TableDef>>, indexes: seq<Numbered<IndexDef>>,
                            n: Numbered<TableDef>, root: PageId)
    requires TreesStand(plots, tables, indexes) && CATALOG_ROOT in plots && root !in plots && mid == plots[root := NewPlot(root, Table)]
    requires Alike(mid, plots', {CATALOG_ROOT}) && n.def.root == root
    ensures TreesStand(plots', tables + [n], indexes)
  {
    assert SamePlots(mid, plots', {CATALOG_ROOT});
    SharesWith(plots.Keys - {CATALOG_ROOT}, Roots(tables, TableRoot), Roots(indexes, IndexRoot), root);
    assert Roots(tables + [n], TableRoot) == Roots(tables, TableRoot) + [root];
    assert plots'.Keys - {CATALOG_ROOT} == plots.Keys - {CATALOG_ROOT} + {root};
    TreesStandWith(plots, mid, plots', tables, indexes, root, Table);
  }

  lemma StandsWithIndex(plots: Plots, mid: Plots, plots': Plots, es: Entries, next: int, tables: seq<Numbered<TableDef>>,
                        indexes: seq<Numbered<IndexDef>>, n: Numbered<IndexDef>, root: PageId, entry: seq<Byte>)
    requires Stands(plots, es, next, tables, indexes) && root !in plots && mid == plots[root := NewPlot(root, Index)]
    requires Alike(mid, plots', {CATALOG_ROOT}) && n.rowid == next && n.def.root == root && IndexOk(n.def) && |indexes| < MAX_INDEXES
    requires entry == IndexEntry(n.def) && forall i :: 0 <= i < |indexes| ==> indexes[i].def.name != n.def.name
    ensures Stands(plots', es[next := entry], next + 1, tables, indexes + [n])
            <==> EntriesStand(plots', es[next := entry])
  {
    assert Stored(es[next := entry], tables, indexes + [n]) by {
      StoredWithIndex(es, tables, indexes, n);
    }
    assert TreesStand(plots', tables, indexes + [n]) by {
      TreesStandWithIndex(plots, mid, plots', tables, indexes, n, root);
    }
  }

  lemma TreesStandWithIndex(plots: Plots, mid: Plots, plots': Plots, tables: seq<Numbered<TableDef>>, indexes: seq<Numbered<IndexDef>>,
                            n: Numbered<IndexDef>, root: PageId)
    requires TreesStand(plots, tables, indexes) && CATALOG_ROOT in plots && root !in plots && mid == plots[root := NewPlot(root, Index)]
    requires Alike(mid, plots', {CATALOG_ROOT}) && n.def.root == root
    ensures TreesStand(plots', tables, indexes + [n])
  {
    assert SamePlots(mid, plots', {CATALOG_ROOT});
    SharesWith(plots.Keys - {CATALOG_ROOT}, Roots(tables, TableRoot), Roots(indexes, IndexRoot), root);
    assert Roots(indexes + [n], IndexRoot) == Roots(indexes, IndexRoot) + [root];
    assert plots'.Keys - {CATALOG_ROOT} == plots.Keys - {CATALOG_ROOT} + {root};
    TreesStandWith(plots, mid, plots', tables, indexes, root, Index);
  }

  lemma TreesStandWith(plots: Plots, mid: Plots, plots': Plots, tables: seq<Numbered<TableDef>>, indexes: seq<Numbered<IndexDef>>,
                       root: PageId, kind: Kind)
    requires TreesStand(plots, tables, indexes) && CATALOG_ROOT in plots && root !in plots && mid == plots[root := NewPlot(root, kind)]
    requires SamePlots(mid, plots', {CATALOG_ROOT})
    ensures (forall i :: 0 <= i < |tables| ==> KindAt(plots', tables[i].def.root, Table))
    ensures (forall i :: 0 <= i < |indexes| ==> KindAt(plots', indexes[i].def.root, Index))
    ensures KindAt(plots', root, kind)
  {
    forall i | 0 <= i < |tables| ensures KindAt(plots', tables[i].def.root, Table) {
      assert KindAt(plots, tables[i].def.root, Table);
    }
    forall i | 0 <= i < |indexes| ensures KindAt(plots', indexes[i].def.root, Index) {
      assert KindAt(plots, indexes[i].def.root, Index);
    }
  }

  /** No new tree, and but for the catalog tree, whose pages stay, none has changed. */
  ghost predicate Dropped(plots: Plots, plots': Plots) {
    && plots'.Keys <= plots.Keys && CATALOG_ROOT in plots'
    && (forall r :: r in plots' && r != CATALOG_ROOT ==> plots'[r] == plots[r])
    && Ids(plots'[CATALOG_ROOT].tree) == Ids(plots[CATALOG_ROOT].tree)
  }

  lemma DroppedThrough(a: Plots, b: Plots, c: Plots)
    requires Dropped(a, b) && Dropped(b, c)
    ensures Dropped(a, c)
  {}

  /** No page of a tree that is gone is owned. */
  ghost predicate PagesFreed(plots: Plots, plots': Plots, live: set<PageId>) {
    forall r :: r in plots && r !in plots' ==> Ids(plots[r].tree) !! live
  }

  lemma GonePagesFreed(img: Image, plots: Plots, live: set<PageId>, img': Image, plots': Plots, live': set<PageId>)
    requires Planted(img, plots, live) && Planted(img', plots', live') && Dropped(plots, plots')
    ensures PagesFreed(plots, plots', live')
  {
    forall r, q | r in plots && r !in plots' && q in Ids(plots[r].tree) ensures q !in live' {
      forall s | s in plots' ensures q !in Ids(plots'[s].tree) {
        assert Ids(plots'[s].tree) == Ids(plots[s].tree) && r != s;
      }
      NotOwned(plots', live', q);
    }
  }

  lemma NotOwned(plots: Plots, live: set<PageId>, q: PageId)
    requires Owned(plots, live) && forall s :: s in plots ==> q !in Ids(plots[s].tree)
    ensures q !in live
  {}

  lemma IndexHasTree(plots: Plots, tables: seq<Numbered<TableDef>>, indexes: seq<Numbered<IndexDef>>, k: nat)
    requires TreesStand(plots, tables, indexes) && k < |indexes|
    ensures KindAt(plots, indexes[k].def.root, Index)
  {}

  lemma TableHasTree(plots: Plots, tables: seq<Numbered<TableDef>>, indexes: seq<Numbered<IndexDef>>, k: nat)
    requires TreesStand(plots, tables, indexes) && k < |tables|
    ensures KindAt(plots, tables[k].def.root, Table)
  {}

  lemma StandsWithoutIndex(plots: Plots, mid: Plots, plots': Plots, es: Entries, es': Entries, next: int, tables: seq<Numbered<TableDef>>,
                           indexes: seq<Numbered<IndexDef>>, k: nat)
    requires Stands(plots, es, next, tables, indexes) && k < |indexes| && mid == plots - {indexes[k].def.root}
    requires Alike(mid, plots', {CATALOG_ROOT}) && EntriesStand(plots', es') && es' == es - {indexes[k].rowid}
    requires CATALOG_ROOT in mid && Ids(plots'[CATALOG_ROOT].tree) == Ids(mid[CATALOG_ROOT].tree)
    ensures Stands(plots', es', next, tables, indexes[..k] + indexes[k + 1..])
    ensures Dropped(plots, plots') && plots'.Keys == plots.Keys - {indexes[k].def.root}
  {
    assert SamePlots(mid, plots', {CATALOG_ROOT});
    assert Stored(es', tables, indexes[..k] + indexes[k + 1..]) by {
      StoredWithoutIndex(es, tables, indexes, k);
    }
    assert Named(tables, indexes[..k] + indexes[k + 1..]) by {
      NamedWithout(tables, indexes, k);
    }
    assert TreesStand(plots', tables, indexes[..k] + indexes[k + 1..]) by {
      TreesWithoutIndex(plots, mid, plots', tables, indexes, k);
    }
  }

  lemma TreesWithoutIndex(plots: Plots, mid: Plots, plots': Plots, tables: seq<Numbered<TableDef>>, indexes: seq<Numbered<IndexDef>>, k: nat)
    requires TreesStand(plots, tables, indexes) && CATALOG_ROOT in plots && k < |indexes|
    requires mid == plots - {indexes[k].def.root} && SamePlots(mid, plots', {CATALOG_ROOT})
    ensures TreesStand(plots', tables, indexes[..k] + indexes[k + 1..])
  {
    var rest := indexes[..k] + indexes[k + 1..];
    assert Shares(plots'.Keys - {CATALOG_ROOT}, Roots(tables, TableRoot), Roots(rest, IndexRoot)) by {
      SharesWithout(plots.Keys - {CATALOG_ROOT}, Roots(tables, TableRoot), Roots(indexes, IndexRoot), k);
      assert Roots(rest, IndexRoot) == Roots(indexes, IndexRoot)[..k] + Roots(indexes, IndexRoot)[k + 1..];
      assert plots'.Keys - {CATALOG_ROOT} == plots.Keys - {CATALOG_ROOT} - {indexes[k].def.root};
    }
    RootsApart(plots, tables, indexes);
    forall i | 0 <= i < |tables| && tables[i].def.root != indexes[k].def.root ensures KindAt(plots', tables[i].def.root, Table) {
      assert KindAt(plots, tables[i].def.root, Table);
    }
    forall i | 0 <= i < |indexes| && indexes[i].def.root != indexes[k].def.root ensures KindAt(plots', indexes[i].def.root, Index) {
      assert KindAt(plots, indexes[i].def.root, Index);
    }
    assert forall i :: 0 <= i < |rest| ==> rest[i] == indexes[if i < k then i else i + 1];
  }

  lemma StandsWithoutTable(plots: Plots, mid: Plots, plots': Plots, es: Entries, es': Entries, next: int, tables: seq<Numbered<TableDef>>,
                           indexes: seq<Numbered<IndexDef>>, k: nat)
    requires Stands(plots, es, next, tables, indexes) && k < |tables| && mid == plots - {tables[k].def.root}
    requires Alike(mid, plots', {CATALOG_ROOT}) && EntriesStand(plots', es') && es' == es - {tables[k].rowid}
    requires CATALOG_ROOT in mid && Ids(plots'[CATALOG_ROOT].tree) == Ids(mid[CATALOG_ROOT].tree)
    ensures Stands(plots', es', next, tables[..k] + tables[k + 1..], indexes)
    ensures Dropped(plots, plots') && plots'.Keys == plots.Keys - {tables[k].def.root}
  {
    assert SamePlots(mid, plots', {CATALOG_ROOT});
    assert Stored(es', tables[..k] + tables[k + 1..], indexes) by {
      StoredWithoutTable(es, tables, indexes, k);
    }
    assert Named(tables[..k] + tables[k + 1..], indexes) by {
      NamedWithout(tables, indexes, k);
    }
    assert TreesStand(plots', tables[..k] + tables[k + 1..], indexes) by {
      TreesWithoutTable(plots, mid, plots', tables, indexes, k);
    }
  }

  lemma TreesWithoutTable(plots: Plots, mid: Plots, plots': Plots, tables: seq<Numbered<TableDef>>, indexes: seq<Numbered<IndexDef>>, k: nat)
    requires TreesStand(plots, tables, indexes) && CATALOG_ROOT in plots && k < |tables|
    requires mid == plots - {tables[k].def.root} && SamePlots(mid, plots', {CATALOG_ROOT})
    ensures TreesStand(plots', tables[..k] + tables[k + 1..], indexes)
  {
    var rest := tables[..k] + tables[k + 1..];
    assert Shares(plots'.Keys - {CATALOG_ROOT}, Roots(rest, TableRoot), Roots(indexes, IndexRoot)) by {
      SharesWithout(plots.Keys - {CATALOG_ROOT}, Roots(tables, TableRoot), Roots(indexes, IndexRoot), k);
      assert Roots(rest, TableRoot) == Roots(tables, TableRoot)[..k] + Roots(tables, TableRoot)[k + 1..];
      assert plots'.Keys - {CATALOG_ROOT} == plots.Keys - {CATALOG_ROOT} - {tables[k].def.root};
    }
    RootsApart(plots, tables, indexes);
    forall i | 0 <= i < |tables| && tables[i].def.root != tables[k].def.root ensures KindAt(plots', tables[i].def.root, Table) {
      assert KindAt(plots, tables[i].def.root, Table);
    }
    forall i | 0 <= i < |indexes| && indexes[i].def.root != tables[k].def.root ensures KindAt(plots', indexes[i].def.root, Index) {
      assert KindAt(plots, indexes[i].def.root, Index);
    }
    assert forall i :: 0 <= i < |rest| ==> rest[i] == tables[if i < k then i else i + 1];
  }

  lemma RootsApart(plots: Plots, tables: seq<Numbered<TableDef>>, indexes: seq<Numbered<IndexDef>>)
    requires TreesStand(plots, tables, indexes)
    ensures forall i, j :: 0 <= i < |tables| && 0 <= j < |indexes| ==> tables[i].def.root != indexes[j].def.root
    ensures forall i, j :: 0 <= i < j < |tables| ==> tables[i].def.root != tables[j].def.root
    ensures forall i, j :: 0 <= i < j < |indexes| ==> indexes[i].def.root != indexes[j].def.root
  {
    var a, b := Roots(tables, TableRoot), Roots(indexes, IndexRoot);
    forall i, j | 0 <= i < |tables| && 0 <= j < |indexes| ensures a[i] != b[j] {
      assert a[i] in Elements(a) && b[j] in Elements(b);
    }
    assert forall i :: 0 <= i < |a| ==> a[i] == tables[i].def.root;
    assert forall i :: 0 <= i < |b| ==> b[i] == indexes[i].def.root;
  }
}
