/** A database: the catalog and all its tables over one set of trees, each statement in a
    transaction of its own or in the explicit one (src/main.c:88-133). */
module Databases {
  import opened Pages
  import opened Values
  import opened Records
  import opened Expressions
  import opened Tables
  import opened Holdings
  import opened Forests
  import opened CatalogEntries
  import Catalogs
  import Statements

  // ---------- the catalog describes the tables ----------

  function AsText(name: Name): (text: string)
    ensures |text| == |name| && forall i :: 0 <= i < |name| ==> text[i] as int == name[i]
  {
    seq(|name|, i requires 0 <= i < |name| => name[i] as char)
  }

  function ColumnsOf(columns: seq<Column>): (r: seq<ColumnDef>)
    ensures |r| == |columns|
  {
    seq(|columns|, i requires 0 <= i < |columns| => ColumnDef(AsText(columns[i].name), columns[i].kind, columns[i].notNull))
  }

  /** catalog_indexes_for_table */
  function IndexesOf(indexes: seq<Numbered<IndexDef>>, table: Name): seq<IndexState> {
    if indexes == [] then [] else OneOf(indexes[0].def, table) + IndexesOf(indexes[1..], table)
  }

  function OneOf(def: IndexDef, table: Name): seq<IndexState> {
    if def.table == table then [IndexState(def.columnIndex, def.root)] else []
  }

  /** What of a table changes: its indexes, its next rowid and its rows. */
  datatype Part = Part(indexes: seq<IndexState>, next: int, rows: Rows)

  ghost function PartOf(t: Statements.Table): Part
    reads t
  {
    Part(t.indexes, t.nextRowid, t.rows)
  }

  ghost function PartsOf(ts: seq<Statements.Table>): (parts: seq<Part>)
    reads ts
    ensures |parts| == |ts| && forall i :: 0 <= i < |ts| ==> parts[i] == PartOf(ts[i])
  {
    if ts == [] then [] else PartsOf(ts[..|ts| - 1]) + [PartOf(ts[|ts| - 1])]
  }

  /** The table is the one defined, with the indexes the catalog has for it. */
  ghost predicate Described(def: TableDef, indexes: seq<Numbered<IndexDef>>, t: Statements.Table, part: Part) {
    && t.root == def.root && t.name == AsText(def.name) && t.columns == ColumnsOf(def.columns)
    && t.pk == def.pkColumn && KeyColumn(t.columns, t.pk)
    && part.indexes == IndexesOf(indexes, def.name)
  }

  /** Its trees hold its rows and their keys.  (The quantifier keeps Stands folded.) */
  ghost predicate Settled(t: Statements.Table, plots: Plots, part: Part) {
    forall p :: p == plots ==> t.Stands(p, part.indexes, part.next, part.rows)
  }

  /** The roots of a table. */
  ghost function RootsIn(t: Statements.Table, part: Part): set<PageId> {
    {t.root} + Statements.RootsOf(part.indexes)
  }

  /** The catalog arrays and the numbers to come. */
  datatype Schemas = Schemas(entries: Catalogs.Entries, next: int, tables: seq<Numbered<TableDef>>, indexes: seq<Numbered<IndexDef>>)

  ghost predicate CatalogStands(plots: Plots, c: Schemas) {
    Catalogs.Stands(plots, c.entries, c.next, c.tables, c.indexes)
  }

  /** No index without its table. */
  ghost predicate Attached(c: Schemas) {
    forall k :: 0 <= k < |c.indexes| ==> HasTable(c, c.indexes[k].def.table)
  }

  ghost predicate HasTable(c: Schemas, name: Name) {
    exists i :: 0 <= i < |c.tables| && c.tables[i].def.name == name
  }

  /** The trees are the catalog's and those of its tables. */
  ghost predicate AllStand(forest: Forest, ts: seq<Statements.Table>, parts: seq<Part>, plots: Plots, c: Schemas) {
    && |ts| == |parts| == |c.tables| && CatalogStands(plots, c) && (forall d :: d == c ==> Attached(d))
    && forall i :: 0 <= i < |ts| ==>
         ts[i].forest == forest && Described(c.tables[i].def, c.indexes, ts[i], parts[i]) && Settled(ts[i], plots, parts[i])
  }

  // ---------- each root is of one table ----------

  lemma {:induction false} IndexRoots(indexes: seq<Numbered<IndexDef>>, table: Name, r: PageId)
    ensures r in Statements.RootsOf(IndexesOf(indexes, table)) <==>
              exists k :: 0 <= k < |indexes| && indexes[k].def.table == table && indexes[k].def.root == r
  {
    if indexes != [] {
      var one, rest := OneOf(indexes[0].def, table), IndexesOf(indexes[1..], table);
      IndexRoots(indexes[1..], table, r);
      RootsOfBoth(one, rest, r);
      assert r in Statements.RootsOf(one) <==> one != [] && one[0].root == r;
      if exists k :: 0 <= k < |indexes| && indexes[k].def.table == table && indexes[k].def.root == r {
        var k :| 0 <= k < |indexes| && indexes[k].def.table == table && indexes[k].def.root == r;
        assert k > 0 ==> indexes[1..][k - 1] == indexes[k];
      }
    }
  }

  lemma RootsOfBoth(a: seq<IndexState>, b: seq<IndexState>, r: PageId)
    ensures r in Statements.RootsOf(a + b) <==> r in Statements.RootsOf(a) || r in Statements.RootsOf(b)
  {
    if r in Statements.RootsOf(a) {
      var i :| 0 <= i < |a| && a[i].root == r;
      assert (a + b)[i].root == r;
    }
    if r in Statements.RootsOf(b) {
      var i :| 0 <= i < |b| && b[i].root == r;
      assert (a + b)[|a| + i].root == r;
    }
  }

  /** No root is of two tables, or of a table and of the catalog. */
  lemma RootsApart(forest: Forest, ts: seq<Statements.Table>, parts: seq<Part>, plots: Plots, c: Schemas, i: nat, j: nat)
    requires AllStand(forest, ts, parts, plots, c) && i < |ts| && j < |ts| && i != j
    ensures RootsIn(ts[i], parts[i]) !! RootsIn(ts[j], parts[j]) && ts[i] != ts[j]
  {
    forall r | r in RootsIn(ts[i], parts[i]) ensures r !in RootsIn(ts[j], parts[j]) {
      DefinedRootsApart(plots, c, i, j, r);
    }
    assert ts[i].root in RootsIn(ts[i], parts[i]);
  }

  ghost predicate IsRootOf(c: Schemas, i: nat, r: PageId)
    requires i < |c.tables|
  {
    r == c.tables[i].def.root || r in Statements.RootsOf(IndexesOf(c.indexes, c.tables[i].def.name))
  }

  lemma DefinedRootsApart(plots: Plots, c: Schemas, i: nat, j: nat, r: PageId)
    requires Catalogs.TreesStand(plots, c.tables, c.indexes) && CatalogEntries.Named(c.tables, c.indexes)
    requires i < |c.tables| && j < |c.tables| && i != j && IsRootOf(c, i, r)
    ensures !IsRootOf(c, j, r)
  {
    Catalogs.RootsApart(plots, c.tables, c.indexes);
    IndexRoots(c.indexes, c.tables[i].def.name, r);
    IndexRoots(c.indexes, c.tables[j].def.name, r);
  }

  lemma NotTheCatalog(forest: Forest, ts: seq<Statements.Table>, parts: seq<Part>, plots: Plots, c: Schemas, i: nat)
    requires AllStand(forest, ts, parts, plots, c) && i < |ts|
    ensures Catalogs.CATALOG_ROOT !in RootsIn(ts[i], parts[i]) && RootsIn(ts[i], parts[i]) <= plots.Keys
  {
    assert Catalogs.KindAt(plots, c.tables[i].def.root, Kind.Table);
    forall r | r in RootsIn(ts[i], parts[i]) && r != ts[i].root ensures r != Catalogs.CATALOG_ROOT && r in plots {
      IndexRoots(c.indexes, c.tables[i].def.name, r);
      var k :| 0 <= k < |c.indexes| && c.indexes[k].def.table == c.tables[i].def.name && c.indexes[k].def.root == r;
      assert Catalogs.KindAt(plots, c.indexes[k].def.root, Index);
    }
  }

  // ---------- what a change of some trees leaves ----------

  /** The trees at these roots are as they were. */
  ghost predicate Stay(plots: Plots, plots': Plots, roots: set<PageId>) {
    forall r :: r in roots && r in plots ==> r in plots' && plots'[r] == plots[r]
  }

  lemma OthersStay(plots: Plots, plots': Plots, roots: set<PageId>, others: set<PageId>)
    requires Alike(plots, plots', roots) && roots !! others
    ensures Stay(plots, plots', others)
  {
    assert SamePlots(plots, plots', roots);
  }

  lemma OtherSettled(t: Statements.Table, plots: Plots, plots': Plots, part: Part)
    requires Settled(t, plots, part) && Stay(plots, plots', RootsIn(t, part))
    ensures Settled(t, plots', part)
  {
    assert t.Stands(plots, part.indexes, part.next, part.rows);
    assert t.root in RootsIn(t, part);
    forall i | 0 <= i < |part.indexes| ensures Statements.IndexStands(plots', part.indexes[i], part.rows) {
      assert Statements.IndexStands(plots, part.indexes[i], part.rows);
      assert part.indexes[i].root in RootsIn(t, part);
    }
    assert t.Stands(plots', part.indexes, part.next, part.rows);
  }

  lemma CatalogStandsStill(plots: Plots, plots': Plots, roots: set<PageId>, c: Schemas)
    requires CatalogStands(plots, c) && Alike(plots, plots', roots) && Catalogs.CATALOG_ROOT !in roots
    ensures CatalogStands(plots', c)
  {
    assert SamePlots(plots, plots', roots);
    forall i | 0 <= i < |c.tables| ensures Catalogs.KindAt(plots', c.tables[i].def.root, Kind.Table) {
      assert Catalogs.KindAt(plots, c.tables[i].def.root, Kind.Table);
    }
    forall i | 0 <= i < |c.indexes| ensures Catalogs.KindAt(plots', c.indexes[i].def.root, Index) {
      assert Catalogs.KindAt(plots, c.indexes[i].def.root, Index);
    }
  }

  /** A statement on one table keeps the catalog and all other tables. */
  lemma OthersStand(forest: Forest, ts: seq<Statements.Table>, parts: seq<Part>, plots: Plots, plots': Plots, c: Schemas, i: nat, part: Part)
    requires AllStand(forest, ts, parts, plots, c) && i < |ts| && Alike(plots, plots', RootsIn(ts[i], parts[i]))
    requires part.indexes == parts[i].indexes && Settled(ts[i], plots', part)
    ensures AllStand(forest, ts, parts[i := part], plots', c)
  {
    NotTheCatalog(forest, ts, parts, plots, c, i);
    CatalogStandsStill(plots, plots', RootsIn(ts[i], parts[i]), c);
    forall j | 0 <= j < |ts| && j != i ensures Settled(ts[j], plots', parts[j]) {
      RootsApart(forest, ts, parts, plots, c, i, j);
      OthersStay(plots, plots', RootsIn(ts[i], parts[i]), RootsIn(ts[j], parts[j]));
      OtherSettled(ts[j], plots, plots', parts[j]);
    }
  }

  /** Only next rowids have grown since. */
  ghost predicate Since(was: seq<Part>, now: seq<Part>) {
    |was| == |now| && forall i :: 0 <= i < |was| ==> was[i].indexes == now[i].indexes && was[i].next <= now[i].next
  }

  /** The rows of then with the next rowids of now. */
  ghost function Back(was: seq<Part>, now: seq<Part>): seq<Part>
    requires |was| == |now|
  {
    seq(|was|, i requires 0 <= i < |was| => now[i].(rows := was[i].rows))
  }

  /** Next rowids may be greater than needed. */
  lemma BackStands(forest: Forest, ts: seq<Statements.Table>, was: seq<Part>, now: seq<Part>, plots: Plots, c: Schemas)
    requires AllStand(forest, ts, was, plots, c) && Since(was, now)
    ensures AllStand(forest, ts, Back(was, now), plots, c)
  {
    forall i | 0 <= i < |ts| ensures Settled(ts[i], plots, Back(was, now)[i]) {
      assert ts[i].Stands(plots, was[i].indexes, was[i].next, was[i].rows);
      assert ts[i].Stands(plots, now[i].indexes, now[i].next, was[i].rows);
    }
  }

  /** Only this table has changed, and its indexes are the same. */
  ghost predicate OnlyAt(i: nat, was: seq<Part>, now: seq<Part>) {
    && |was| == |now| && (forall j :: 0 <= j < |was| && j != i ==> now[j] == was[j])
    && (i < |was| ==> now[i].indexes == was[i].indexes)
  }

  /** A statement on one table, and its end: kept or taken back. */
  lemma EndOf(i: nat, was: seq<Part>, mid: seq<Part>, now: seq<Part>, kept: bool)
    requires i < |was| && |mid| == |was| && mid == was[i := mid[i]] && mid[i].indexes == was[i].indexes
    requires now == if kept then mid else Back(was, mid)
    ensures OnlyAt(i, was, now) && now[i].rows == if kept then mid[i].rows else was[i].rows
  {}

  // ---------- definitions come and go ----------

  lemma {:induction false} IndexesOfBoth(a: seq<Numbered<IndexDef>>, b: seq<Numbered<IndexDef>>, table: Name)
    ensures IndexesOf(a + b, table) == IndexesOf(a, table) + IndexesOf(b, table)
  {
    if a == [] {
      assert a + b == b;
    } else {
      assert (a + b)[1..] == a[1..] + b;
      IndexesOfBoth(a[1..], b, table);
    }
  }

  lemma IndexesWith(indexes: seq<Numbered<IndexDef>>, n: Numbered<IndexDef>, table: Name)
    ensures IndexesOf(indexes + [n], table) == IndexesOf(indexes, table) + OneOf(n.def, table)
  {
    IndexesOfBoth(indexes, [n], table);
    assert IndexesOf([n], table) == OneOf(n.def, table);
  }

  /** The indexes of one table are not among those of others. */
  lemma {:induction false} IndexesOfOthers(indexes: seq<Numbered<IndexDef>>, name: Name, table: Name)
    ensures IndexesOf(OfOthers(indexes, name), table) == if table == name then [] else IndexesOf(indexes, table)
  {
    if indexes != [] {
      IndexesOfOthers(indexes[1..], name, table);
      var one := if indexes[0].def.table == name then [] else [indexes[0]];
      IndexesOfBoth(one, OfOthers(indexes[1..], name), table);
      assert IndexesOf([indexes[0]], table) == OneOf(indexes[0].def, table);
    }
  }

  /** A new tree, entered in the catalog: the tables' trees are as they were. */
  ghost predicate TreeCame(plots: Plots, plots': Plots, root: PageId, kind: Kind) {
    root !in plots && Alike(plots[root := Catalogs.NewPlot(root, kind)], plots', {Catalogs.CATALOG_ROOT})
  }

  lemma CameBeside(forest: Forest, ts: seq<Statements.Table>, parts: seq<Part>, plots: Plots, plots': Plots, c: Schemas, root: PageId, kind: Kind, i: nat)
    requires AllStand(forest, ts, parts, plots, c) && TreeCame(plots, plots', root, kind) && i < |ts|
    ensures root !in RootsIn(ts[i], parts[i]) && Settled(ts[i], plots', parts[i])
  {
    NotTheCatalog(forest, ts, parts, plots, c, i);
    var mid := plots[root := Catalogs.NewPlot(root, kind)];
    OthersStay(mid, plots', {Catalogs.CATALOG_ROOT}, RootsIn(ts[i], parts[i]));
    assert Stay(plots, plots', RootsIn(ts[i], parts[i]));
    OtherSettled(ts[i], plots, plots', parts[i]);
  }

  lemma NewTreeIsEmpty(plots: Plots, plots': Plots, root: PageId, kind: Kind)
    requires TreeCame(plots, plots', root, kind) && Catalogs.CATALOG_ROOT in plots
    ensures root in plots' && plots'[root] == Catalogs.NewPlot(root, kind)
  {
    assert SamePlots(plots[root := Catalogs.NewPlot(root, kind)], plots', {Catalogs.CATALOG_ROOT});
  }

  lemma {:induction false} NoIndexes(indexes: seq<Numbered<IndexDef>>, table: Name)
    requires forall k :: 0 <= k < |indexes| ==> indexes[k].def.table != table
    ensures IndexesOf(indexes, table) == []
  {
    if indexes != [] {
      NoIndexes(indexes[1..], table);
    }
  }

  lemma AttachedWith(c: Schemas, c': Schemas, n: Numbered<IndexDef>, i: nat)
    requires Attached(c) && c'.tables == c.tables && c'.indexes == c.indexes + [n] && i < |c.tables| && n.def.table == c.tables[i].def.name
    ensures Attached(c')
  {
    forall k | 0 <= k < |c'.indexes| ensures HasTable(c', c'.indexes[k].def.table) {
      assert k < |c.indexes| ==> c'.indexes[k] == c.indexes[k] && HasTable(c, c.indexes[k].def.table);
    }
  }

  lemma AttachedAnew(c: Schemas, c': Schemas, n: Numbered<TableDef>)
    requires Attached(c) && c'.tables == c.tables + [n] && c'.indexes == c.indexes && !HasTable(c, n.def.name)
    ensures Attached(c') && IndexesOf(c.indexes, n.def.name) == []
  {
    forall k | 0 <= k < |c.indexes| ensures HasTable(c', c.indexes[k].def.table) && c.indexes[k].def.table != n.def.name {
      assert HasTable(c, c.indexes[k].def.table);
      var i :| 0 <= i < |c.tables| && c.tables[i].def.name == c.indexes[k].def.table;
      assert c'.tables[i] == c.tables[i];
    }
    NoIndexes(c.indexes, n.def.name);
  }

  lemma IndexBeside(forest: Forest, ts: seq<Statements.Table>, parts: seq<Part>, plots: Plots, mid: Plots, plots': Plots, c: Schemas, j: nat, root: PageId)
    requires AllStand(forest, ts, parts, plots, c) && j < |ts| && TreeCame(plots, mid, root, Index) && Alike(mid, plots', {root})
    ensures Settled(ts[j], plots', parts[j])
  {
    CameBeside(forest, ts, parts, plots, mid, c, root, Index, j);
    OthersStay(mid, plots', {root}, RootsIn(ts[j], parts[j]));
    OtherSettled(ts[j], mid, plots', parts[j]);
  }

  /** An index more of one table, its tree filled. */
  lemma IndexCame(forest: Forest, ts: seq<Statements.Table>, parts: seq<Part>, plots: Plots, mid: Plots, plots': Plots, c: Schemas, c': Schemas,
                  i: nat, part: Part, n: Numbered<IndexDef>)
    requires AllStand(forest, ts, parts, plots, c) && i < |ts| && TreeCame(plots, mid, n.def.root, Index)
    requires CatalogStands(mid, c') && c'.tables == c.tables && c'.indexes == c.indexes + [n] && n.def.table == c.tables[i].def.name
    requires Alike(mid, plots', {n.def.root}) && Settled(ts[i], plots', part)
    requires part.indexes == parts[i].indexes + [IndexState(n.def.columnIndex, n.def.root)]
    ensures AllStand(forest, ts, parts[i := part], plots', c')
  {
    hide CatalogStands, Settled, TreeCame, Alike;
    NotTheRoot(plots, mid, c, n.def.root, Index);
    CatalogStandsStill(mid, plots', {n.def.root}, c');
    AttachedWith(c, c', n, i);
    forall j | 0 <= j < |ts|
      ensures Described(c'.tables[j].def, c'.indexes, ts[j], parts[i := part][j]) && Settled(ts[j], plots', parts[i := part][j])
    {
      IndexesWith(c.indexes, n, c.tables[j].def.name);
      if j != i {
        OtherName(plots, c, i, j);
        IndexBeside(forest, ts, parts, plots, mid, plots', c, j, n.def.root);
      }
    }
  }

  lemma NotTheRoot(plots: Plots, plots': Plots, c: Schemas, root: PageId, kind: Kind)
    requires CatalogStands(plots, c) && TreeCame(plots, plots', root, kind)
    ensures root != Catalogs.CATALOG_ROOT
  {}

  lemma OtherName(plots: Plots, c: Schemas, i: nat, j: nat)
    requires CatalogStands(plots, c) && i < |c.tables| && j < |c.tables| && i != j
    ensures c.tables[i].def.name != c.tables[j].def.name
  {}

  /** A new table, its tree empty. */
  lemma TableCame(forest: Forest, ts: seq<Statements.Table>, parts: seq<Part>, plots: Plots, plots': Plots, c: Schemas, c': Schemas,
                  t: Statements.Table, n: Numbered<TableDef>)
    requires AllStand(forest, ts, parts, plots, c) && TreeCame(plots, plots', n.def.root, Kind.Table) && CatalogStands(plots', c')
    requires c'.tables == c.tables + [n] && c'.indexes == c.indexes && !HasTable(c, n.def.name)
    requires t.forest == forest && Described(n.def, [], t, Part([], 1, map[])) && Settled(t, plots', Part([], 1, map[]))
    ensures AllStand(forest, ts + [t], parts + [Part([], 1, map[])], plots', c')
  {
    hide CatalogStands, TreeCame, Settled, Catalogs.Stands;
    AttachedAnew(c, c', n);
    forall i | 0 <= i < |ts| ensures Settled(ts[i], plots', parts[i]) {
      CameBeside(forest, ts, parts, plots, plots', c, n.def.root, Kind.Table, i);
    }
  }

  function Without<T>(s: seq<T>, k: nat): (r: seq<T>)
    requires k < |s|
    ensures |r| == |s| - 1 && forall i :: 0 <= i < |r| ==> r[i] == s[if i < k then i else i + 1]
  {
    s[..k] + s[k + 1..]
  }

  /** A root of the remaining definitions that was not gone is as it was. */
  lemma StillRooted(plots: Plots, plots': Plots, c': Schemas, i: nat, t: Statements.Table, part: Part)
    requires CatalogStands(plots', c') && Catalogs.Dropped(plots, plots') && i < |c'.tables| && Described(c'.tables[i].def, c'.indexes, t, part)
    ensures Stay(plots, plots', RootsIn(t, part))
  {
    forall r | r in RootsIn(t, part) ensures r in plots' && r != Catalogs.CATALOG_ROOT {
      if r == t.root {
        assert Catalogs.KindAt(plots', c'.tables[i].def.root, Kind.Table);
      } else {
        IndexRoots(c'.indexes, c'.tables[i].def.name, r);
        var k :| 0 <= k < |c'.indexes| && c'.indexes[k].def.table == c'.tables[i].def.name && c'.indexes[k].def.root == r;
        assert Catalogs.KindAt(plots', c'.indexes[k].def.root, Index);
      }
    }
  }

  lemma {:induction false} OthersAre(indexes: seq<Numbered<IndexDef>>, name: Name)
    ensures forall k :: 0 <= k < |OfOthers(indexes, name)| ==>
              OfOthers(indexes, name)[k].def.table != name && OfOthers(indexes, name)[k] in indexes
  {
    if indexes != [] {
      OthersAre(indexes[1..], name);
      var rest := OfOthers(indexes[1..], name);
      assert forall n :: n in rest ==> n in indexes[1..];
    }
  }

  /** A table and exactly its indexes go. */
  ghost predicate TableGone(c: Schemas, c': Schemas, k: nat) {
    && k < |c.tables| && c'.tables == Without(c.tables, k) && c'.indexes == OfOthers(c.indexes, c.tables[k].def.name)
  }

  lemma AttachedWithoutTable(c: Schemas, c': Schemas, k: nat)
    requires Attached(c) && TableGone(c, c', k)
    ensures Attached(c')
  {
    OthersAre(c.indexes, c.tables[k].def.name);
    forall j | 0 <= j < |c'.indexes| ensures HasTable(c', c'.indexes[j].def.table) {
      var n := c'.indexes[j];
      var m :| 0 <= m < |c.indexes| && c.indexes[m] == n;
      assert HasTable(c, c.indexes[m].def.table);
      var i :| 0 <= i < |c.tables| && c.tables[i].def.name == n.def.table;
      assert c'.tables[if i < k then i else i - 1] == c.tables[i];
    }
  }

  lemma TableWent(forest: Forest, ts: seq<Statements.Table>, parts: seq<Part>, plots: Plots, plots': Plots, c: Schemas, c': Schemas, k: nat)
    requires AllStand(forest, ts, parts, plots, c) && TableGone(c, c', k) && CatalogStands(plots', c') && Catalogs.Dropped(plots, plots')
    ensures AllStand(forest, Without(ts, k), Without(parts, k), plots', c')
  {
    hide CatalogStands, Catalogs.Dropped, Settled;
    AttachedWithoutTable(c, c', k);
    forall i | 0 <= i < |ts| - 1
      ensures Described(c'.tables[i].def, c'.indexes, Without(ts, k)[i], Without(parts, k)[i]) && Settled(Without(ts, k)[i], plots', Without(parts, k)[i])
    {
      var j := if i < k then i else i + 1;
      OtherName(plots, c, j, k);
      IndexesOfOthers(c.indexes, c.tables[k].def.name, c.tables[j].def.name);
      StillRooted(plots, plots', c', i, ts[j], parts[j]);
      OtherSettled(ts[j], plots, plots', parts[j]);
    }
  }

  lemma OnlyOne(plots: Plots, c: Schemas, i: nat, k: nat)
    requires CatalogStands(plots, c) && i < |c.tables| && k < |c.tables| && c.tables[i].def.name == c.tables[k].def.name
    ensures i == k
  {}

  /** One index goes, of one table. */
  ghost predicate IndexDropped(was: seq<Part>, now: seq<Part>, c: Schemas, c': Schemas, k: nat, i: nat) {
    && IndexGone(c, c', k) && i < |c.tables| && c.indexes[k].def.table == c.tables[i].def.name
    && i < |was| && now == was[i := was[i].(indexes := IndexesOf(c'.indexes, c.tables[i].def.name))]
  }

  lemma OneDropped(was: seq<Part>, now: seq<Part>, c: Schemas, c': Schemas, k: nat, i: nat)
    requires IndexGone(c, c', k) && i < |c.tables| && c.indexes[k].def.table == c.tables[i].def.name
    requires i < |was| && now == was[i := was[i].(indexes := IndexesOf(c'.indexes, c.tables[i].def.name))]
    ensures IndexDropped(was, now, c, c', k, i)
  {}

  lemma PartsWithout(ts: seq<Statements.Table>, i: nat)
    requires i < |ts|
    ensures |PartsOf(ts)| == |ts| && PartsOf(Without(ts, i)) == Without(PartsOf(ts), i)
  {}

  lemma OnlyOneIndex(plots: Plots, c: Schemas, i: nat, k: nat)
    requires CatalogStands(plots, c) && i < |c.indexes| && k < |c.indexes| && c.indexes[i].def.name == c.indexes[k].def.name
    ensures i == k
  {}

  /** One index goes. */
  ghost predicate IndexGone(c: Schemas, c': Schemas, k: nat) {
    k < |c.indexes| && c'.tables == c.tables && c'.indexes == Without(c.indexes, k)
  }

  lemma IndexesWithout(indexes: seq<Numbered<IndexDef>>, k: nat, table: Name) returns (a: seq<IndexState>, b: seq<IndexState>)
    requires k < |indexes|
    ensures IndexesOf(indexes, table) == a + OneOf(indexes[k].def, table) + b
    ensures IndexesOf(Without(indexes, k), table) == a + b
  {
    a, b := IndexesOf(indexes[..k], table), IndexesOf(indexes[k + 1..], table);
    assert indexes == indexes[..k] + [indexes[k]] + indexes[k + 1..];
    IndexesOfBoth(indexes[..k] + [indexes[k]], indexes[k + 1..], table);
    IndexesWith(indexes[..k], indexes[k], table);
    IndexesOfBoth(indexes[..k], indexes[k + 1..], table);
  }

  /** A table stands with one index less. */
  lemma FewerStand(t: Statements.Table, plots: Plots, part: Part, a: seq<IndexState>, x: seq<IndexState>, b: seq<IndexState>)
    requires Settled(t, plots, part) && part.indexes == a + x + b
    ensures Settled(t, plots, part.(indexes := a + b))
  {
    assert t.Stands(plots, part.indexes, part.next, part.rows);
    forall i | 0 <= i < |a + b| ensures Statements.IndexStands(plots, (a + b)[i], part.rows) && (a + b)[i] == part.indexes[if i < |a| then i else i + |x|] {
      assert Statements.IndexStands(plots, part.indexes[if i < |a| then i else i + |x|], part.rows);
    }
    assert t.Stands(plots, a + b, part.next, part.rows);
  }

  lemma IndexWent(forest: Forest, ts: seq<Statements.Table>, parts: seq<Part>, plots: Plots, plots': Plots, c: Schemas, c': Schemas, k: nat, i: nat)
    requires AllStand(forest, ts, parts, plots, c) && IndexGone(c, c', k) && CatalogStands(plots', c') && Catalogs.Dropped(plots, plots')
    requires i < |c.tables| && c.indexes[k].def.table == c.tables[i].def.name
    ensures AllStand(forest, ts, parts[i := parts[i].(indexes := IndexesOf(c'.indexes, c.tables[i].def.name))], plots', c')
  {
    hide CatalogStands, Catalogs.Dropped, Settled;
    var parts' := parts[i := parts[i].(indexes := IndexesOf(c'.indexes, c.tables[i].def.name))];
    AttachedWithoutIndex(c, c', k);
    forall j | 0 <= j < |ts| ensures Described(c'.tables[j].def, c'.indexes, ts[j], parts'[j]) && Settled(ts[j], plots', parts'[j]) {
      if j != i {
        OtherName(plots, c, i, j);
      }
      FewerSettled(plots, c, c', k, j, ts[j], parts[j]);
      StillRooted(plots, plots', c', j, ts[j], parts'[j]);
      OtherSettled(ts[j], plots, plots', parts'[j]);
    }
  }

  lemma FewerSettled(plots: Plots, c: Schemas, c': Schemas, k: nat, j: nat, t: Statements.Table, part: Part)
    requires IndexGone(c, c', k) && j < |c.tables| && Described(c.tables[j].def, c.indexes, t, part) && Settled(t, plots, part)
    ensures Settled(t, plots, part.(indexes := IndexesOf(c'.indexes, c.tables[j].def.name)))
    ensures c.indexes[k].def.table != c.tables[j].def.name ==> IndexesOf(c'.indexes, c.tables[j].def.name) == part.indexes
  {
    var a, b := IndexesWithout(c.indexes, k, c.tables[j].def.name);
    assert a + [] + b == a + b;
    FewerStand(t, plots, part, a, OneOf(c.indexes[k].def, c.tables[j].def.name), b);
  }

  lemma AttachedWithoutIndex(c: Schemas, c': Schemas, k: nat)
    requires Attached(c) && IndexGone(c, c', k)
    ensures Attached(c')
  {
    forall j | 0 <= j < |c'.indexes| ensures HasTable(c', c'.indexes[j].def.table) {
      assert HasTable(c, c.indexes[if j < k then j else j + 1].def.table);
    }
  }

  /** The catalog and this table have one index more. */
  ghost predicate IndexMade(was: seq<Part>, now: seq<Part>, c: Schemas, c': Schemas, i: nat, def: IndexDef) {
    && c'.tables == c.tables && c'.indexes == c.indexes + [Numbered(c.next, def)]
    && i < |was| && now == was[i := was[i].(indexes := was[i].indexes + [IndexState(def.columnIndex, def.root)])]
  }

  /** The first table of the name, or their number. */
  ghost predicate Found(tables: seq<Numbered<TableDef>>, name: Name, i: nat) {
    i <= |tables| && (i < |tables| ==> tables[i].def.name == name) && forall j :: 0 <= j < i ==> tables[j].def.name != name
  }

  /** CREATE INDEX fails exactly for an unknown table or column, a known name or a full
      catalog, and then changes nothing; otherwise catalog and table have the index. */
  ghost predicate IndexOutcome(ok: bool, i: nat, ts: seq<Statements.Table>, c: Schemas, c': Schemas, was: seq<Part>, now: seq<Part>,
                               table: Name, name: Name, column: Name, root: PageId) {
    && Found(c.tables, table, i) && |ts| == |c.tables|
    && (ok <==> && i < |ts| && ColumnIndex(Names(ts[i].columns), AsText(column)) < |ts[i].columns| && |c.indexes| < MAX_INDEXES
                && forall k :: 0 <= k < |c.indexes| ==> c.indexes[k].def.name != name)
    && (ok ==> IndexMade(was, now, c, c', i, IndexDef(name, table, column, ColumnIndex(Names(ts[i].columns), AsText(column)), root)))
    && (!ok ==> now == was && c' == c)
  }

  lemma OutcomeOf(ok: bool, i: nat, ts: seq<Statements.Table>, c: Schemas, c': Schemas, was: seq<Part>, now: seq<Part>,
                  table: Name, name: Name, column: Name, root: PageId)
    requires |ts| == |c.tables| && i <= |c.tables| && (i < |c.tables| ==> c.tables[i].def.name == table)
    requires forall j :: 0 <= j < i ==> c.tables[j].def.name != table
    requires ok <==> && i < |ts| && ColumnIndex(Names(ts[i].columns), AsText(column)) < |ts[i].columns| && |c.indexes| < MAX_INDEXES
                     && forall k :: 0 <= k < |c.indexes| ==> c.indexes[k].def.name != name
    requires ok ==> IndexMade(was, now, c, c', i, IndexDef(name, table, column, ColumnIndex(Names(ts[i].columns), AsText(column)), root))
    requires !ok ==> now == was && c' == c
    ensures IndexOutcome(ok, i, ts, c, c', was, now, table, name, column, root)
  {}

  lemma NoOutcome(ok: bool, i: nat, ts: seq<Statements.Table>, c: Schemas, c': Schemas, was: seq<Part>, now: seq<Part>,
                  table: Name, name: Name, column: Name, root: PageId)
    requires IndexOutcome(ok, i, ts, c, c', was, now, table, name, column, root)
    ensures !ok ==> now == was && c' == c
  {}

  ghost predicate SameText(name: Name, text: string) {
    |text| == |name| && forall i :: 0 <= i < |name| ==> text[i] as int == name[i]
  }

  /** The table has the name, the columns with name, type and NOT NULL, and the primary key of
      its definition. */
  ghost predicate Conforms(def: TableDef, t: Statements.Table) {
    && SameText(def.name, t.name) && |t.columns| == |def.columns|
    && (forall c :: 0 <= c < |t.columns| ==>
          && SameText(def.columns[c].name, t.columns[c].name)
          && t.columns[c].kind == def.columns[c].kind && t.columns[c].notNull == def.columns[c].notNull)
    && if t.pk.Some? then t.pk.value < |def.columns| && def.columns[t.pk.value].pk else forall c :: 0 <= c < |def.columns| ==> !def.columns[c].pk
  }

  lemma DescribedConforms(def: TableDef, t: Statements.Table)
    requires t.name == AsText(def.name) && t.columns == ColumnsOf(def.columns) && t.pk == def.pkColumn == PkColumn(def.columns)
    ensures Conforms(def, t)
  {
    PkFlagged(def.columns);
    assert forall c :: 0 <= c < |t.columns| ==> t.columns[c].name == AsText(def.columns[c].name);
  }

  lemma {:induction false} PkFlagged(columns: seq<Column>)
    ensures match PkColumn(columns)
            case None => forall c :: 0 <= c < |columns| ==> !columns[c].pk
            case Some(c) => c < |columns| && columns[c].pk
  {
    if columns != [] && !columns[|columns| - 1].pk {
      PkFlagged(columns[..|columns| - 1]);
    }
  }

  lemma OkAnywhere(def: TableDef, root: PageId)
    requires TableOk(def)
    ensures TableOk(def.(root := root))
  {}

  /** The catalog and the database have one table more, without rows. */
  ghost predicate TableMade(ts: seq<Statements.Table>, ts': seq<Statements.Table>, was: seq<Part>, now: seq<Part>, c: Schemas, c': Schemas, def: TableDef) {
    && c'.tables == c.tables + [Numbered(c.next, def)] && c'.indexes == c.indexes
    && |ts'| == |ts| + 1 && ts' == ts + [ts'[|ts|]] && now == was + [Part([], 1, map[])] && Conforms(def, ts'[|ts|])
  }

  /** CREATE TABLE fails exactly for two primary keys or one that is not INT, a known name or
      a full catalog, and then changes nothing. */
  ghost predicate TableOutcome(ok: bool, ts: seq<Statements.Table>, ts': seq<Statements.Table>, c: Schemas, c': Schemas, was: seq<Part>, now: seq<Part>,
                               def: TableDef) {
    && (ok <==> KeysOk(def.columns) && |c.tables| < MAX_TABLES && forall k :: 0 <= k < |c.tables| ==> c.tables[k].def.name != def.name)
    && (if ok then TableMade(ts, ts', was, now, c, c', def) else ts' == ts && now == was && c' == c)
  }

  lemma NoTable(ok: bool, ts: seq<Statements.Table>, ts': seq<Statements.Table>, c: Schemas, c': Schemas, was: seq<Part>, now: seq<Part>, def: TableDef)
    requires TableOutcome(ok, ts, ts', c, c', was, now, def)
    ensures !ok ==> ts' == ts && now == was && c' == c
  {}

  lemma BackSelf(parts: seq<Part>)
    ensures Back(parts, parts) == parts
  {}

  // ---------- primary keys ----------

  /** At most one column is the primary key, and it is INT. */
  ghost predicate KeysOk(columns: seq<Column>) {
    && (forall i :: 0 <= i < |columns| && columns[i].pk ==> columns[i].kind.IntColumn?)
    && forall i, j :: 0 <= i < j < |columns| ==> !(columns[i].pk && columns[j].pk)
  }

  /** The parser makes a primary key NOT NULL (src/parser.c:344-345). */
  ghost predicate KeysNotNull(columns: seq<Column>) {
    forall i :: 0 <= i < |columns| && columns[i].pk ==> columns[i].notNull
  }

  /** The column loop of exec_create_table. */
  method CheckKeys(columns: seq<Column>) returns (ok: bool, pk: Option<nat>)
    ensures ok <==> KeysOk(columns)
    ensures ok ==> pk == PkColumn(columns)
  {
    pk := None;
    var count := 0;
    for i := 0 to |columns|
      invariant pk == PkColumn(columns[..i]) && (pk.Some? ==> pk.value < i && columns[pk.value].pk)
      invariant forall j :: 0 <= j < i && columns[j].pk ==> columns[j].kind.IntColumn?
      invariant count == 0 <==> forall j :: 0 <= j < i ==> !columns[j].pk
      invariant count <= 1 <==> forall j, k :: 0 <= j < k < i ==> !(columns[j].pk && columns[k].pk)
      invariant count >= 0
    {
      assert columns[..i + 1][..i] == columns[..i];
      if columns[i].pk {
        if !columns[i].kind.IntColumn? {
          return false, pk;
        }
        count, pk := count + 1, Some(i);
      }
    }
    assert columns[..|columns|] == columns;
    ok := count <= 1;
  }

  lemma {:induction false} PkIsKey(columns: seq<Column>)
    requires KeysOk(columns) && KeysNotNull(columns)
    ensures KeyColumn(ColumnsOf(columns), PkColumn(columns))
  {
    if columns != [] && !columns[|columns| - 1].pk {
      PkIsKey(columns[..|columns| - 1]);
    }
  }

  class Database {
    const forest: Forest
    const catalog: Catalogs.Catalog
    var tables: seq<Statements.Table>
    // the tables at the last begin, unless a definition has come since
    ghost var begun: Option<seq<Part>>

    // ---------- invariant ----------

    ghost function Schema(): Schemas
      reads catalog
    {
      Schemas(catalog.entries, catalog.nextCatalogRowid, catalog.tables, catalog.indexes)
    }

    /** (The quantifiers keep AllStand folded.) */
    ghost predicate Valid()
      reads this, catalog, tables, forest, forest.pager, forest.pager.frames, forest.pager.txn
    {
      && forest.Valid() && catalog.forest == forest
      && (forall parts :: parts == PartsOf(tables) ==> AllStand(forest, tables, parts, forest.plots, Schema()))
      && (forest.pager.txn.active && begun.Some? ==> Recalls(begun.value, PartsOf(tables), tables, forest.begun, Schema()))
    }

    /** What a rollback would bring back. */
    ghost predicate Recalls(was: seq<Part>, now: seq<Part>, ts: seq<Statements.Table>, plots: Plots, c: Schemas) {
      Since(was, now) && forall parts :: parts == was ==> AllStand(forest, ts, parts, plots, c)
    }

    /** pager_open on a missing file, and the catalog on it. */
    constructor Create()
      ensures Valid() && fresh(forest) && fresh(forest.Repr()) && tables == [] && !forest.pager.txn.active
    {
      var f := new Forest.Create();
      var c := new Catalogs.Catalog(f);
      forest, catalog, tables, begun := f, c, [], None;
      new;
      assert CatalogStands(forest.plots, Schema());
    }

    // ---------- transactions ----------

    /** begin_internal */
    method Begin(isExplicit: bool)
      requires Valid() && !forest.pager.txn.active
      modifies `begun, forest`begun, forest.pager`run, forest.pager`pages, forest.pager`durable, forest.pager`begun, forest.pager.txn
      ensures Valid() && forest.pager.txn.active && forest.plots == old(forest.plots) && forest.pager.pages == old(forest.pager.pages)
      ensures begun == Some(PartsOf(tables)) && forest.begun == forest.plots && forest.pager.durable == forest.pager.pages
      ensures forest.pager.txn.isExplicit == isExplicit
    {
      hide Forest.Valid, AllStand, Since;
      ghost var parts := PartsOf(tables);
      NothingSince(parts, forest.plots);
      var ok := forest.Begin(isExplicit);
      begun := Some(parts);
    }

    lemma NothingSince(parts: seq<Part>, plots: Plots)
      requires forall ps :: ps == parts ==> AllStand(forest, tables, ps, plots, Schema())
      ensures Recalls(parts, parts, tables, plots, Schema())
    {}

    /** commit_internal */
    method Commit()
      requires Valid() && forest.pager.txn.active
      modifies forest.pager`disk, forest.pager`run, forest.pager`pages, forest.pager`durable, forest.pager`images, forest.pager.frames, forest.pager.txn
      ensures Valid() && !forest.pager.txn.active && forest.plots == old(forest.plots) && forest.pager.pages == old(forest.pager.pages)
      ensures forest.pager.durable == forest.pager.pages
    {
      var ok := forest.Commit();
    }

    /** rollback_internal, where no definition has come since the begin: all tables have the
        rows and the index keys of the begin; the next rowids stay as they are. */
    method Rollback()
      requires Valid() && forest.pager.txn.active && begun.Some?
      modifies tables`rows, forest`plots, forest.pager, forest.pager.frames, forest.pager.txn
      ensures Valid() && !forest.pager.txn.active && forest.plots == old(forest.begun)
      ensures |begun.value| == |tables| && PartsOf(tables) == Back(begun.value, old(PartsOf(tables)))
      ensures forest.pager.pages == forest.pager.durable == old(forest.pager.durable)
    {
      hide *;
      ghost var parts := Recalled(begun.value, PartsOf(tables), forest.begun);
      var ok := forest.Rollback();
      PutBack(begun.value);
      Quiet(parts);
    }

    /** Outside a transaction there is nothing to recall. */
    lemma Quiet(parts: seq<Part>)
      requires forest.Valid() && !forest.pager.txn.active && catalog.forest == forest && PartsOf(tables) == parts
      requires forall ps :: ps == parts ==> AllStand(forest, tables, ps, forest.plots, Schema())
      ensures Valid()
    {}

    lemma Recalled(was: seq<Part>, now: seq<Part>, plots: Plots) returns (parts: seq<Part>)
      requires Valid() && forest.pager.txn.active && begun == Some(was) && now == PartsOf(tables) && plots == forest.begun
      ensures forest.Valid() && catalog.forest == forest && |was| == |now| == |tables| && parts == Back(was, now)
      ensures forall ps :: ps == parts ==> AllStand(forest, tables, ps, plots, Schema())
      ensures forall i, j :: 0 <= i < j < |tables| ==> tables[i] != tables[j]
    {
      parts := Back(was, now);
      assert AllStand(forest, tables, was, plots, Schema());
      Distinct(plots, was);
      BackStands(forest, tables, was, now, plots, Schema());
    }

    lemma Distinct(plots: Plots, parts: seq<Part>)
      requires AllStand(forest, tables, parts, plots, Schema())
      ensures forall i, j :: 0 <= i < j < |tables| ==> tables[i] != tables[j]
    {
      forall i, j | 0 <= i < j < |tables| ensures tables[i] != tables[j] {
        RootsApart(forest, tables, parts, plots, Schema(), i, j);
      }
    }

    ghost method PutBack(was: seq<Part>)
      requires |was| == |tables| && forall i, j :: 0 <= i < j < |tables| ==> tables[i] != tables[j]
      modifies tables`rows
      ensures |PartsOf(tables)| == |was| == |old(PartsOf(tables))| && PartsOf(tables) == Back(was, old(PartsOf(tables)))
    {
      forall i | 0 <= i < |tables| {
        tables[i].rows := was[i].rows;
      }
    }

    /** txn_autobegin */
    method AutoBegin()
      requires Valid()
      modifies `begun, forest`begun, forest.pager`run, forest.pager`pages, forest.pager`durable, forest.pager`begun, forest.pager.txn
      ensures Valid() && forest.pager.txn.active && forest.plots == old(forest.plots) && forest.pager.pages == old(forest.pager.pages)
      ensures if old(forest.pager.txn.active) then begun == old(begun) && forest.begun == old(forest.begun) && forest.pager.durable == old(forest.pager.durable)
              else begun == Some(PartsOf(tables)) && forest.begun == forest.plots && forest.pager.durable == forest.pager.pages
      ensures forest.pager.txn.isExplicit == (old(forest.pager.txn.active) && old(forest.pager.txn.isExplicit))
    {
      if !forest.pager.txn.active {
        Begin(false);
      }
    }

    /** txn_autoend */
    method AutoEnd(success: bool)
      requires Valid() && forest.pager.txn.active && (!forest.pager.txn.isExplicit && !success ==> begun.Some?)
      modifies tables`rows, forest`plots, forest.pager, forest.pager.frames, forest.pager.txn
      ensures Valid() && forest.pager.txn.active == old(forest.pager.txn.isExplicit)
      ensures if old(forest.pager.txn.isExplicit) || success then PartsOf(tables) == old(PartsOf(tables)) && forest.plots == old(forest.plots)
              else |begun.value| == |tables| && PartsOf(tables) == Back(begun.value, old(PartsOf(tables))) && forest.plots == old(forest.begun)
      ensures !old(forest.pager.txn.isExplicit) ==> forest.pager.durable == forest.pager.pages
    {
      hide Forest.Valid, Forest.InTxn;
      if !forest.pager.txn.isExplicit {
        if success {
          Commit();
        } else {
          Rollback();
        }
      }
    }

    // ---------- statements on the rows of a table ----------

    /** What a statement on this table finds. */
    lemma Before(i: nat, t: Statements.Table)
      requires Valid() && i < |tables| && t == tables[i] && forest.pager.txn.active
      ensures t.Valid() && t.forest == forest && forall j :: 0 <= j < |tables| && j != i ==> tables[j] != t
      ensures var parts := PartsOf(tables);
              && Noted(parts, forest.plots) && |parts| == |tables| && parts[i] == Part(t.indexes, t.nextRowid, t.rows)
              && forall j :: 0 <= j < |tables| && j != i ==> PartOf(tables[j]) == parts[j]
    {
      var parts := PartsOf(tables);
      assert AllStand(forest, tables, parts, forest.plots, Schema());
      Distinct(forest.plots, parts);
    }

    /** What it has to keep. */
    ghost predicate Noted(parts: seq<Part>, plots: Plots)
      reads `tables, `begun, catalog, forest`begun
    {
      && catalog.forest == forest && |parts| == |tables|
      && (forall ps :: ps == parts ==> AllStand(forest, tables, ps, plots, Schema()))
      && (begun.Some? ==> Recalls(begun.value, parts, tables, forest.begun, Schema()))
    }

    lemma SettledNow(t: Statements.Table)
      requires t.Valid()
      ensures t.forest.InTxn() && Settled(t, t.forest.plots, PartOf(t))
    {}

    /** It has changed this table and its trees only. */
    lemma After(i: nat, t: Statements.Table, was: Plots, parts: seq<Part>)
      requires i < |tables| && t == tables[i] && t.Valid() && t.forest == forest && Noted(parts, was)
      requires |parts| == |tables| && forall j :: 0 <= j < |tables| && j != i ==> PartOf(tables[j]) == parts[j]
      requires t.indexes == parts[i].indexes && parts[i].next <= t.nextRowid
      requires Alike(was, forest.plots, {t.root} + Statements.RootsOf(t.indexes))
      ensures Valid() && PartsOf(tables) == parts[i := PartOf(t)]
    {
      SettledNow(t);
      Noting(i, PartOf(t), was, parts);
      assert PartsOf(tables) == parts[i := PartOf(t)];
    }

    lemma Noting(i: nat, part: Part, was: Plots, parts: seq<Part>)
      requires i < |tables| && Noted(parts, was) && |parts| == |tables| && Settled(tables[i], forest.plots, part)
      requires part.indexes == parts[i].indexes && parts[i].next <= part.next
      requires Alike(was, forest.plots, {tables[i].root} + Statements.RootsOf(part.indexes))
      ensures Noted(parts[i := part], forest.plots)
    {
      hide Forest.Valid, CatalogStands, Settled, Described;
      OthersStand(forest, tables, parts, was, forest.plots, Schema(), i, part);
    }

    method InsertInto(ghost i: nat, t: Statements.Table, m: Machine, subs: Subqueries, list: Option<seq<string>>, given: seq<seq<Expr>>,
                      ghost all: iset<seq<Value>>)
      returns (ok: bool, inserted: nat, ghost ids: seq<Int64>, ghost news: seq<seq<Value>>)
      requires Valid() && i < |tables| && t == tables[i] && forest.pager.txn.active
      requires t.Room(all, t.rows) && t.Gives(m, subs, list, given, all) && (t.pk.None? ==> t.nextRowid + |given| <= TWO63)
      modifies t`rows, t`nextRowid
      modifies forest`plots, forest.pager`disk, forest.pager`tick, forest.pager`run, forest.pager`pages, forest.pager`durable
      modifies forest.pager`numPages, forest.pager`freeListHead, forest.pager`freeList, forest.pager`live
      modifies forest.pager.frames, forest.pager.txn`file, forest.pager.txn`journaled
      ensures Valid() && forest.pager.durable == old(forest.pager.durable)
      ensures |PartsOf(tables)| == |old(PartsOf(tables))| && PartsOf(tables) == old(PartsOf(tables))[i := PartOf(t)]
      ensures Added(old(t.rows), t.rows, ids, news) && t.Inserted(m, subs, list, given, old(t.nextRowid), ids, news, inserted)
      ensures t.InsertedRows(m, subs, list, given, old(t.nextRowid), old(t.rows), t.rows, ids, inserted)
      ensures ok <==> t.Listed(list) && inserted == |given|
    {
      hide *;
      ghost var was, parts := forest.plots, PartsOf(tables);
      Before(i, t);
      ok, inserted, ids, news := t.ExecInsert(m, subs, list, given, all);
      After(i, t, was, parts);
    }

    lemma PartAt(i: nat)
      requires i < |tables|
      ensures |PartsOf(tables)| == |tables| && PartsOf(tables)[i] == Part(tables[i].indexes, tables[i].nextRowid, tables[i].rows)
    {}

    /** INSERT (src/executor.c:425-484).  In an explicit transaction the rows before the failing
        one stay; a statement of its own is durable if it succeeds, and if it fails every table
        has the rows and keys it had, though the rowids it used are not used again. */
    method Insert(i: nat, m: Machine, subs: Subqueries, list: Option<seq<string>>, given: seq<seq<Expr>>, ghost all: iset<seq<Value>>)
      returns (ok: bool, inserted: nat, ghost ids: seq<Int64>, ghost news: seq<seq<Value>>)
      requires Valid() && i < |tables| && (forest.pager.txn.active ==> forest.pager.txn.isExplicit)
      requires tables[i].Room(all, tables[i].rows) && tables[i].Gives(m, subs, list, given, all)
      requires tables[i].pk.None? ==> tables[i].nextRowid + |given| <= TWO63
      modifies `begun, tables`rows, tables`nextRowid, forest, forest.pager, forest.pager.frames, forest.pager.txn
      ensures Valid() && forest.pager.txn.active == old(forest.pager.txn.active)
      ensures !old(forest.pager.txn.active) ==> forest.pager.durable == forest.pager.pages
      ensures OnlyAt(i, old(PartsOf(tables)), PartsOf(tables)) && (ok <==> tables[i].Listed(list) && inserted == |given|)
      ensures if ok || old(forest.pager.txn.active)
              then && Added(old(tables[i].rows), tables[i].rows, ids, news)
                   && tables[i].Inserted(m, subs, list, given, old(tables[i].nextRowid), ids, news, inserted)
                   && tables[i].InsertedRows(m, subs, list, given, old(tables[i].nextRowid), old(tables[i].rows), tables[i].rows, ids, inserted)
              else tables[i].rows == old(tables[i].rows) && forest.plots == old(forest.plots)
    {
      hide *;
      ghost var parts := PartsOf(tables);
      PartAt(i);
      AutoBegin();
      ok, inserted, ids, news := InsertInto(i, tables[i], m, subs, list, given, all);
      ghost var mid := PartsOf(tables);
      PartAt(i);
      AutoEnd(ok);
      PartAt(i);
      EndOf(i, parts, mid, PartsOf(tables), ok || old(forest.pager.txn.active));
    }

    method UpdateIn(ghost i: nat, t: Statements.Table, m: Machine, subs: Subqueries, assigns: seq<Assignment>, where: Option<Expr>,
                    ghost all: iset<seq<Value>>)
      returns (ok: bool, updated: nat, ghost ids: seq<Int64>, ghost news: seq<seq<Value>>, ghost dests: seq<Int64>, ghost mid: Rows)
      requires Valid() && i < |tables| && t == tables[i] && forest.pager.txn.active
      requires t.Room(all, t.rows) && t.Makes(m, subs, assigns, t.rows, all)
      modifies t`rows, t`nextRowid
      modifies forest`plots, forest.pager`disk, forest.pager`tick, forest.pager`run, forest.pager`pages, forest.pager`durable
      modifies forest.pager`numPages, forest.pager`freeListHead, forest.pager`freeList, forest.pager`live
      modifies forest.pager.frames, forest.pager.txn`file, forest.pager.txn`journaled
      ensures Valid() && forest.pager.durable == old(forest.pager.durable) && t.nextRowid == old(t.nextRowid)
      ensures |PartsOf(tables)| == |old(PartsOf(tables))| && PartsOf(tables) == old(PartsOf(tables))[i := PartOf(t)]
      ensures t.UpdateOutcome(m, subs, assigns, where, old(t.rows), t.rows, ok, updated, ids, news, dests, mid)
      ensures t.Did(m, subs, assigns, where, old(t.rows), t.rows, ok, updated, ids, dests, mid)
    {
      hide *;
      ghost var was, parts := forest.plots, PartsOf(tables);
      Before(i, t);
      ok, updated, ids, news, dests, mid := t.ExecUpdate(m, subs, assigns, where, all);
      After(i, t, was, parts);
    }

    /** UPDATE (src/executor.c:1149-1222), likewise: a row lost by a failing UPDATE is lost only
        in an explicit transaction. */
    method Update(i: nat, m: Machine, subs: Subqueries, assigns: seq<Assignment>, where: Option<Expr>, ghost all: iset<seq<Value>>)
      returns (ok: bool, updated: nat, ghost ids: seq<Int64>, ghost news: seq<seq<Value>>, ghost dests: seq<Int64>, ghost mid: Rows)
      requires Valid() && i < |tables| && (forest.pager.txn.active ==> forest.pager.txn.isExplicit)
      requires tables[i].Room(all, tables[i].rows) && tables[i].Makes(m, subs, assigns, tables[i].rows, all)
      modifies `begun, tables`rows, tables`nextRowid, forest, forest.pager, forest.pager.frames, forest.pager.txn
      ensures Valid() && forest.pager.txn.active == old(forest.pager.txn.active)
      ensures !old(forest.pager.txn.active) ==> forest.pager.durable == forest.pager.pages
      ensures OnlyAt(i, old(PartsOf(tables)), PartsOf(tables))
      ensures if ok || old(forest.pager.txn.active)
              then && tables[i].UpdateOutcome(m, subs, assigns, where, old(tables[i].rows), tables[i].rows, ok, updated, ids, news, dests, mid)
                   && tables[i].Did(m, subs, assigns, where, old(tables[i].rows), tables[i].rows, ok, updated, ids, dests, mid)
              else tables[i].rows == old(tables[i].rows) && forest.plots == old(forest.plots)
    {
      hide *;
      ghost var parts := PartsOf(tables);
      PartAt(i);
      AutoBegin();
      ok, updated, ids, news, dests, mid := UpdateIn(i, tables[i], m, subs, assigns, where, all);
      ghost var now := PartsOf(tables);
      PartAt(i);
      AutoEnd(ok);
      PartAt(i);
      EndOf(i, parts, now, PartsOf(tables), ok || old(forest.pager.txn.active));
    }

    method DeleteFrom(ghost i: nat, t: Statements.Table, m: Machine, where: Option<Expr>) returns (ok: bool, deleted: nat)
      requires Valid() && i < |tables| && t == tables[i] && forest.pager.txn.active
      modifies t`rows, t`nextRowid
      modifies forest`plots, forest.pager`disk, forest.pager`tick, forest.pager`run, forest.pager`pages, forest.pager`durable
      modifies forest.pager`numPages, forest.pager`freeListHead, forest.pager`freeList, forest.pager`live
      modifies forest.pager.frames, forest.pager.txn`file, forest.pager.txn`journaled
      ensures Valid() && forest.pager.durable == old(forest.pager.durable) && t.nextRowid == old(t.nextRowid)
      ensures |PartsOf(tables)| == |old(PartsOf(tables))| && PartsOf(tables) == old(PartsOf(tables))[i := PartOf(t)]
      ensures t.rows == if ok then old(t.rows) - t.MatchSet(m, where, old(t.rows)) else old(t.rows)
      ensures deleted == |old(t.rows)| - |t.rows|
    {
      hide *;
      ghost var was, parts := forest.plots, PartsOf(tables);
      Before(i, t);
      ok, deleted := t.ExecDelete(m, where);
      After(i, t, was, parts);
    }

    /** DELETE (src/executor.c:1224-1246), likewise. */
    method Delete(i: nat, m: Machine, where: Option<Expr>) returns (ok: bool, deleted: nat)
      requires Valid() && i < |tables| && (forest.pager.txn.active ==> forest.pager.txn.isExplicit)
      modifies `begun, tables`rows, tables`nextRowid, forest, forest.pager, forest.pager.frames, forest.pager.txn
      ensures Valid() && forest.pager.txn.active == old(forest.pager.txn.active)
      ensures !old(forest.pager.txn.active) ==> forest.pager.durable == forest.pager.pages
      ensures OnlyAt(i, old(PartsOf(tables)), PartsOf(tables))
      ensures tables[i].rows == if ok then old(tables[i].rows) - tables[i].MatchSet(m, where, old(tables[i].rows)) else old(tables[i].rows)
      ensures deleted == |old(tables[i].rows)| - |tables[i].rows|
      ensures !ok && !old(forest.pager.txn.active) ==> forest.plots == old(forest.plots)
    {
      hide *;
      ghost var parts := PartsOf(tables);
      PartAt(i);
      AutoBegin();
      ok, deleted := DeleteFrom(i, tables[i], m, where);
      ghost var mid := PartsOf(tables);
      PartAt(i);
      AutoEnd(ok);
      PartAt(i);
      EndOf(i, parts, mid, PartsOf(tables), ok || old(forest.pager.txn.active));
    }

    // ---------- what a definition finds and leaves ----------

    lemma BeforeTable(parts: seq<Part>, schema: Schemas)
      requires Valid() && parts == PartsOf(tables) && schema == Schema() && forest.pager.txn.active
      ensures catalog.Valid() && catalog.forest == forest && |parts| == |tables| == |catalog.tables|
      ensures SchemaIs(schema) && (begun.Some? ==> Recalls(begun.value, parts, tables, forest.begun, schema))
      ensures forall ps :: ps == parts ==> AllStand(forest, tables, ps, forest.plots, schema)
    {
      assert AllStand(forest, tables, parts, forest.plots, schema);
    }

    ghost predicate SchemaIs(schema: Schemas)
      reads catalog
    {
      schema.tables == catalog.tables && schema.indexes == catalog.indexes && schema.next == catalog.nextCatalogRowid && schema.entries == catalog.entries
    }

    lemma StoodBefore(parts: seq<Part>, was: Plots, schema: Schemas)
      requires forall ps :: ps == parts ==> AllStand(forest, tables, ps, was, schema)
      ensures CatalogStands(was, schema)
    {
      assert AllStand(forest, tables, parts, was, schema);
    }

    lemma CatalogIs()
      requires catalog.forest == forest && forest.InTxn()
      ensures catalog.Valid() <==> CatalogStands(forest.plots, Schema())
    {}

    lemma CatalogKept()
      requires catalog.forest == forest && catalog.Valid()
      ensures forest.Valid() && CatalogStands(forest.plots, Schema())
    {}

    lemma NothingNew(parts: seq<Part>, schema: Schemas)
      requires catalog.Valid() && catalog.forest == forest && PartsOf(tables) == parts && SchemaIs(schema)
      requires forall ps :: ps == parts ==> AllStand(forest, tables, ps, forest.plots, schema)
      requires begun.Some? ==> Recalls(begun.value, parts, tables, forest.begun, schema)
      ensures Valid() && Schema() == schema
    {
      assert Schema() == schema;
    }

    /** After a definition there is nothing to recall. */
    lemma Anew(parts: seq<Part>)
      requires forest.Valid() && catalog.forest == forest && begun.None? && PartsOf(tables) == parts
      requires AllStand(forest, tables, parts, forest.plots, Schema())
      ensures Valid()
    {}

    lemma PartsBut(i: nat, parts: seq<Part>)
      requires i < |tables| == |parts| && forall j :: 0 <= j < |tables| && j != i ==> PartOf(tables[j]) == parts[j]
      ensures PartsOf(tables) == parts[i := Part(tables[i].indexes, tables[i].nextRowid, tables[i].rows)]
    {}

    lemma PartsAre(i: nat, t: Statements.Table, parts: seq<Part>)
      requires Valid() && i < |tables| && t == tables[i] && parts == PartsOf(tables)
      ensures |parts| == |tables| && parts[i] == PartOf(t) == Part(t.indexes, t.nextRowid, t.rows)
      ensures forall j :: 0 <= j < |tables| && j != i ==> tables[j] != t && PartOf(tables[j]) == parts[j]
    {
      hide Forest.Valid, CatalogStands, Settled, Described;
      assert AllStand(forest, tables, parts, forest.plots, Schema());
      Distinct(forest.plots, parts);
    }

    // ---------- CREATE TABLE ----------

    /** The new tree is one for a table. */
    lemma ReadyForTable(was: Plots, parts: seq<Part>, schema: Schemas, root: PageId)
      requires forall ps :: ps == parts ==> AllStand(forest, tables, ps, was, schema)
      requires root !in was && Alike(was[root := Catalogs.NewPlot(root, Kind.Table)], forest.plots, {Catalogs.CATALOG_ROOT})
      ensures TreeCame(was, forest.plots, root, Kind.Table)
      ensures root in forest.plots && forest.plots[root].kind == Kind.Table && forest.Rows(root) == []
    {
      assert AllStand(forest, tables, parts, was, schema);
      NewTreeIsEmpty(was, forest.plots, root, Kind.Table);
    }

    /** catalog_create_table, and the table it makes. */
    method AddTable(def: TableDef, toReal: Int64 -> Bits64) returns (ok: bool)
      requires Valid() && forest.pager.txn.active && TableOk(def) && KeyColumn(ColumnsOf(def.columns), def.pkColumn) && def.nextRowid == 1
      requires catalog.EntryReads(TableEntry(def.(root := forest.pager.NextPage()))) && catalog.EntryFits(TableEntry(def.(root := forest.pager.NextPage())))
      modifies `begun, `tables, catalog`nextCatalogRowid, catalog`entries, catalog`tables
      modifies forest`plots, forest.pager`disk, forest.pager`tick, forest.pager`run, forest.pager`pages, forest.pager`durable
      modifies forest.pager`numPages, forest.pager`freeListHead, forest.pager`freeList, forest.pager`live
      modifies forest.pager.frames, forest.pager.txn`file, forest.pager.txn`journaled
      ensures Valid() && forall k :: 0 <= k < |tables| ==> tables[k] in old(tables) || fresh(tables[k])
      ensures ok <==> |old(catalog.tables)| < MAX_TABLES && forall k :: 0 <= k < |old(catalog.tables)| ==> old(catalog.tables)[k].def.name != def.name
      ensures if ok then TableMade(old(tables), tables, old(PartsOf(tables)), PartsOf(tables), old(Schema()), Schema(), def.(root := old(forest.pager.NextPage())))
              else && tables == old(tables) && begun == old(begun) && PartsOf(tables) == old(PartsOf(tables))
                   && Schema() == old(Schema()) && forest.plots == old(forest.plots)
    {
      hide *;
      ghost var was, ts, parts, c0 := forest.plots, tables, PartsOf(tables), Schema();
      BeforeTable(parts, c0);
      var root;
      ok, root := catalog.CreateTable(def);
      if !ok {
        NothingNew(parts, c0);
        return;
      }
      CatalogIs();
      begun := None;
      ReadyForTable(was, parts, c0, root);
      var t := new Statements.Table(forest, root, AsText(def.name), ColumnsOf(def.columns), def.pkColumn, toReal);
      tables := tables + [t];
      OkAnywhere(def, root);
      AfterTable(ts, t, was, parts, c0, def.(root := root));
    }

    lemma AfterTable(ts: seq<Statements.Table>, t: Statements.Table, was: Plots, parts: seq<Part>, schema: Schemas, def: TableDef)
      requires tables == ts + [t] && t.Valid() && t.forest == forest && catalog.forest == forest && begun.None? && PartsOf(ts) == parts
      requires t.root == def.root && t.name == AsText(def.name) && t.columns == ColumnsOf(def.columns) && t.pk == def.pkColumn && t.indexes == [] && t.nextRowid == 1 && t.rows == map[]
      requires forall ps :: ps == parts ==> AllStand(forest, ts, ps, was, schema)
      requires TreeCame(was, forest.plots, def.root, Kind.Table) && CatalogStands(forest.plots, Schema())
      requires catalog.tables == schema.tables + [Numbered(schema.next, def)] && catalog.indexes == schema.indexes && TableOk(def)
      requires forall k :: 0 <= k < |schema.tables| ==> schema.tables[k].def.name != def.name
      ensures Valid() && TableMade(ts, tables, parts, PartsOf(tables), schema, Schema(), def)
    {
      SettledNow(t);
      DescribedConforms(def, t);
      TableCame(forest, ts, parts, was, forest.plots, schema, Schema(), t, Numbered(schema.next, def));
      assert PartsOf(tables) == parts + [PartOf(t)];
    }

    /** The catalog's leaf takes the entry of the new table. */
    ghost predicate Creatable(name: Name, columns: seq<Column>)
      reads catalog`nextCatalogRowid, catalog.forest`plots, forest.pager`numPages, forest.pager`freeListHead
    {
      var entry := TableEntry(NewTable(name, columns));
      catalog.EntryReads(entry) && catalog.EntryFits(entry)
    }

    /** The definition a new table would get. */
    ghost function NewTable(name: Name, columns: seq<Column>): TableDef
      reads forest.pager`numPages, forest.pager`freeListHead
    {
      TableDef(name, forest.pager.NextPage(), columns, PkColumn(columns), 1)
    }

    method MakeTable(name: Name, columns: seq<Column>, toReal: Int64 -> Bits64) returns (ok: bool)
      requires Valid() && forest.pager.txn.active && |columns| <= MAX_COLUMNS && KeysNotNull(columns) && Creatable(name, columns)
      modifies `begun, `tables, catalog`nextCatalogRowid, catalog`entries, catalog`tables
      modifies forest`plots, forest.pager`disk, forest.pager`tick, forest.pager`run, forest.pager`pages, forest.pager`durable
      modifies forest.pager`numPages, forest.pager`freeListHead, forest.pager`freeList, forest.pager`live
      modifies forest.pager.frames, forest.pager.txn`file, forest.pager.txn`journaled
      ensures Valid() && forall k :: 0 <= k < |tables| ==> tables[k] in old(tables) || fresh(tables[k])
      ensures TableOutcome(ok, old(tables), tables, old(Schema()), Schema(), old(PartsOf(tables)), PartsOf(tables), old(NewTable(name, columns)))
      ensures !ok ==> begun == old(begun) && forest.plots == old(forest.plots)
    {
      hide Forest.Valid, Forest.InTxn;
      var pk;
      ok, pk := CheckKeys(columns);
      if ok {
        PkIsKey(columns);
        ok := AddTable(TableDef(name, 0, columns, pk, 1), toReal);
      }
    }

    /** CREATE TABLE (src/executor.c:314-338) as a statement. */
    method CreateTable(name: Name, columns: seq<Column>, toReal: Int64 -> Bits64) returns (ok: bool)
      requires Valid() && (forest.pager.txn.active ==> forest.pager.txn.isExplicit)
      requires |columns| <= MAX_COLUMNS && KeysNotNull(columns) && Creatable(name, columns)
      modifies `begun, `tables, tables`rows, catalog`nextCatalogRowid, catalog`entries, catalog`tables
      modifies forest, forest.pager, forest.pager.frames, forest.pager.txn
      ensures Valid() && forest.pager.txn.active == old(forest.pager.txn.active) && forall k :: 0 <= k < |tables| ==> tables[k] in old(tables) || fresh(tables[k])
      ensures !old(forest.pager.txn.active) ==> forest.pager.durable == forest.pager.pages
      ensures TableOutcome(ok, old(tables), tables, old(Schema()), Schema(), old(PartsOf(tables)), PartsOf(tables), old(NewTable(name, columns)))
      ensures !ok ==> forest.plots == old(forest.plots)
    {
      hide *;
      ghost var ts, parts, c0 := tables, PartsOf(tables), Schema();
      BackSelf(parts);
      AutoBegin();
      ok := MakeTable(name, columns, toReal);
      NoTable(ok, ts, tables, c0, Schema(), parts, PartsOf(tables), old(NewTable(name, columns)));
      AutoEnd(ok);
    }

    // ---------- CREATE INDEX ----------

    /** What the parts of CREATE INDEX find. */
    lemma BeforeIndex(i: nat, t: Statements.Table, parts: seq<Part>, schema: Schemas)
      requires Valid() && i < |tables| && t == tables[i] && parts == PartsOf(tables) && schema == Schema() && forest.pager.txn.active
      ensures catalog.Valid() && t.forest == forest && catalog.forest == forest && |parts| == |tables| && |t.columns| <= MAX_COLUMNS
      ensures SchemaIs(schema) && (begun.Some? ==> Recalls(begun.value, parts, tables, forest.begun, schema))
      ensures forall ps :: ps == parts ==> AllStand(forest, tables, ps, forest.plots, schema)
    {
      assert AllStand(forest, tables, parts, forest.plots, schema);
      assert Described(catalog.tables[i].def, catalog.indexes, t, parts[i]);
    }

    lemma LastOfName(was: seq<Numbered<IndexDef>>, indexes: seq<Numbered<IndexDef>>, name: Name, k: nat)
      requires |indexes| == |was| + 1 && indexes == was + [indexes[|was|]] && indexes[|was|].def.name == name
      requires forall j :: 0 <= j < |was| ==> was[j].def.name != name
      requires k <= |indexes| && (k < |indexes| ==> indexes[k].def.name == name) && forall j :: 0 <= j < k ==> indexes[j].def.name != name
      ensures k == |was|
    {
      assert forall j :: 0 <= j < |was| ==> indexes[j] == was[j];
    }

    /** With a new tree in the catalog the table is as it was. */
    lemma ReadyForIndex(i: nat, t: Statements.Table, was: Plots, parts: seq<Part>, c: Schemas, root: PageId)
      requires i < |tables| && t == tables[i] && t.forest == forest && forest.InTxn() && |parts| == |tables| && parts[i] == PartOf(t)
      requires forall ps :: ps == parts ==> AllStand(forest, tables, ps, was, c)
      requires root !in was && Alike(was[root := Catalogs.NewPlot(root, Index)], forest.plots, {Catalogs.CATALOG_ROOT})
      ensures t.Valid() && t.NewIndexTree(root) && TreeCame(was, forest.plots, root, Index)
    {
      assert TreeCame(was, forest.plots, root, Index);
      CameBeside(forest, tables, parts, was, forest.plots, c, root, Index, i);
      NewTreeIsEmpty(was, forest.plots, root, Index);
      assert t.root in RootsIn(t, parts[i]);
      forall j | 0 <= j < |t.indexes| ensures t.indexes[j].root != root {
        assert t.indexes[j].root in RootsIn(t, parts[i]);
      }
    }

    lemma SmallIsOk(def: IndexDef)
      requires def.columnIndex <= MAX_COLUMNS
      ensures IndexOk(def)
    {}

    /** catalog_create_index, and catalog_find_index of what it made. */
    method DefineIndex(ghost i: nat, ghost t: Statements.Table, def: IndexDef) returns (ok: bool, root: PageId)
      requires Valid() && i < |tables| && t == tables[i] && forest.pager.txn.active && IndexOk(def)
      requires catalog.EntryReads(IndexEntry(def.(root := forest.pager.NextPage())))
      modifies catalog`nextCatalogRowid, catalog`entries, catalog`indexes
      modifies forest`plots, forest.pager`disk, forest.pager`tick, forest.pager`run, forest.pager`pages, forest.pager`durable
      modifies forest.pager`numPages, forest.pager`freeListHead, forest.pager`freeList, forest.pager`live
      modifies forest.pager.frames, forest.pager.txn`file, forest.pager.txn`journaled
      ensures ok <==> |old(catalog.indexes)| < MAX_INDEXES && forall k :: 0 <= k < |old(catalog.indexes)| ==> old(catalog.indexes)[k].def.name != def.name
      ensures !ok ==> Valid() && Schema() == old(Schema()) && forest.plots == old(forest.plots)
      ensures ok ==> && root == old(forest.pager.NextPage()) && t.Valid() && t.NewIndexTree(root)
                     && catalog.indexes == old(catalog.indexes) + [Numbered(old(catalog.nextCatalogRowid), def.(root := root))]
                     && TreeCame(old(forest.plots), forest.plots, root, Index)
      ensures ok ==> (CatalogStands(forest.plots, Schema()) <==> old(catalog.EntryFits(IndexEntry(def.(root := forest.pager.NextPage())))))
    {
      hide *;
      ghost var was, parts, c0 := forest.plots, PartsOf(tables), Schema();
      BeforeIndex(i, t, parts, c0);
      PartsAre(i, t, parts);
      ok, root := catalog.CreateIndex(def);
      if !ok {
        NothingNew(parts, c0);
        return;
      }
      CatalogIs();
      var k := catalog.FindIndex(def.name);
      LastOfName(c0.indexes, catalog.indexes, def.name, k);
      ReadyForIndex(i, t, was, parts, c0, root);
      root := catalog.indexes[k].def.root;
    }

    /** The same, and the filling of the tree. */
    method AddIndex(ghost i: nat, t: Statements.Table, def: IndexDef) returns (ok: bool)
      requires Valid() && i < |tables| && t == tables[i] && forest.pager.txn.active && i < |catalog.tables| && catalog.tables[i].def.name == def.table
      requires def.columnIndex < |t.columns| && def.columnIndex == ColumnIndex(Names(t.columns), AsText(def.column))
      requires catalog.EntryReads(IndexEntry(def.(root := forest.pager.NextPage()))) && catalog.EntryFits(IndexEntry(def.(root := forest.pager.NextPage())))
      requires forall r :: r in t.rows ==> t.ColumnKeyShort(def.columnIndex, t.rows[r])
      modifies `begun, t`indexes, catalog`nextCatalogRowid, catalog`entries, catalog`indexes
      modifies forest`plots, forest.pager`disk, forest.pager`tick, forest.pager`run, forest.pager`pages, forest.pager`durable
      modifies forest.pager`numPages, forest.pager`freeListHead, forest.pager`freeList, forest.pager`live
      modifies forest.pager.frames, forest.pager.txn`file, forest.pager.txn`journaled
      ensures Valid()
      ensures ok <==> |old(catalog.indexes)| < MAX_INDEXES && forall k :: 0 <= k < |old(catalog.indexes)| ==> old(catalog.indexes)[k].def.name != def.name
      ensures if ok then IndexMade(old(PartsOf(tables)), PartsOf(tables), old(Schema()), Schema(), i, def.(root := old(forest.pager.NextPage())))
              else begun == old(begun) && PartsOf(tables) == old(PartsOf(tables)) && Schema() == old(Schema()) && forest.plots == old(forest.plots)
    {
      hide *;
      ghost var was, parts, c0 := forest.plots, PartsOf(tables), Schema();
      BeforeIndex(i, t, parts, c0);
      PartsAre(i, t, parts);
      SmallIsOk(def);
      var root;
      ok, root := DefineIndex(i, t, def);
      if !ok {
        return;
      }
      ghost var mid := forest.plots;
      begun := None;
      ok := t.CreateIndex(AsText(def.column), Some(root));
      AfterIndex(i, t, was, mid, parts, c0, def.(root := root));
    }

    /** One index more, of this table only. */
    lemma AfterIndex(i: nat, t: Statements.Table, was: Plots, mid: Plots, parts: seq<Part>, schema: Schemas, def: IndexDef)
      requires i < |tables| && t == tables[i] && t.Valid() && t.forest == forest && catalog.forest == forest && begun.None?
      requires |parts| == |tables| && (forall j :: 0 <= j < |tables| && j != i ==> PartOf(tables[j]) == parts[j])
      requires t.indexes == parts[i].indexes + [IndexState(def.columnIndex, def.root)] && t.nextRowid == parts[i].next && t.rows == parts[i].rows
      requires forall ps :: ps == parts ==> AllStand(forest, tables, ps, was, schema)
      requires TreeCame(was, mid, def.root, Index) && CatalogStands(mid, Schema()) && Alike(mid, forest.plots, {def.root})
      requires catalog.tables == schema.tables && catalog.indexes == schema.indexes + [Numbered(schema.next, def)]
      requires i < |catalog.tables| && def.table == catalog.tables[i].def.name
      ensures Valid() && IndexMade(parts, PartsOf(tables), schema, Schema(), i, def)
    {
      SettledNow(t);
      IndexCame(forest, tables, parts, was, mid, forest.plots, schema, Schema(), i, PartOf(t), Numbered(schema.next, def));
      PartsBut(i, parts);
    }

    /** The definition a new index on a column of this table would get. */
    ghost function NewIndex(t: Statements.Table, table: Name, name: Name, column: Name): IndexDef
      reads forest.pager`numPages, forest.pager`freeListHead
    {
      IndexDef(name, table, column, ColumnIndex(Names(t.columns), AsText(column)), forest.pager.NextPage())
    }

    /** The catalog's leaf takes the entry, and the keys fit the executor's buffers. */
    ghost predicate Indexable(t: Statements.Table, table: Name, name: Name, column: Name)
      reads t, catalog`nextCatalogRowid, catalog.forest`plots, forest.pager`numPages, forest.pager`freeListHead
    {
      var def := NewIndex(t, table, name, column);
      def.columnIndex < |t.columns| ==>
        && catalog.EntryReads(IndexEntry(def)) && catalog.EntryFits(IndexEntry(def))
        && forall r :: r in t.rows ==> t.ColumnKeyShort(def.columnIndex, t.rows[r])
    }

    ghost predicate AllIndexable(table: Name, name: Name, column: Name)
      reads `tables, tables, catalog, catalog.forest`plots, forest.pager`numPages, forest.pager`freeListHead
    {
      forall j :: 0 <= j < |tables| && j < |catalog.tables| && catalog.tables[j].def.name == table ==> Indexable(tables[j], table, name, column)
    }

    method IndexColumn(ghost i: nat, t: Statements.Table, table: Name, name: Name, column: Name) returns (ok: bool)
      requires Valid() && i < |tables| && t == tables[i] && forest.pager.txn.active && i < |catalog.tables| && catalog.tables[i].def.name == table
      requires Indexable(t, table, name, column)
      modifies `begun, t`indexes, catalog`nextCatalogRowid, catalog`entries, catalog`indexes
      modifies forest`plots, forest.pager`disk, forest.pager`tick, forest.pager`run, forest.pager`pages, forest.pager`durable
      modifies forest.pager`numPages, forest.pager`freeListHead, forest.pager`freeList, forest.pager`live
      modifies forest.pager.frames, forest.pager.txn`file, forest.pager.txn`journaled
      ensures Valid()
      ensures ok <==> && ColumnIndex(Names(t.columns), AsText(column)) < |t.columns| && |old(catalog.indexes)| < MAX_INDEXES
                      && forall k :: 0 <= k < |old(catalog.indexes)| ==> old(catalog.indexes)[k].def.name != name
      ensures if ok then IndexMade(old(PartsOf(tables)), PartsOf(tables), old(Schema()), Schema(), i,
                                   IndexDef(name, table, column, ColumnIndex(Names(t.columns), AsText(column)), old(forest.pager.NextPage())))
              else begun == old(begun) && PartsOf(tables) == old(PartsOf(tables)) && Schema() == old(Schema()) && forest.plots == old(forest.plots)
    {
      var c := ColumnIndex(Names(t.columns), AsText(column));
      ok := c < |t.columns|;
      if ok {
        ok := AddIndex(i, t, IndexDef(name, table, column, c, 0));
      }
    }

    /** catalog_find_table, and the rest. */
    method IndexTable(table: Name, name: Name, column: Name) returns (ok: bool, i: nat)
      requires Valid() && forest.pager.txn.active && AllIndexable(table, name, column)
      modifies `begun, tables`indexes, catalog`nextCatalogRowid, catalog`entries, catalog`indexes
      modifies forest`plots, forest.pager`disk, forest.pager`tick, forest.pager`run, forest.pager`pages, forest.pager`durable
      modifies forest.pager`numPages, forest.pager`freeListHead, forest.pager`freeList, forest.pager`live
      modifies forest.pager.frames, forest.pager.txn`file, forest.pager.txn`journaled
      ensures Valid()
      ensures IndexOutcome(ok, i, tables, old(Schema()), Schema(), old(PartsOf(tables)), PartsOf(tables), table, name, column, old(forest.pager.NextPage()))
      ensures !ok ==> begun == old(begun) && forest.plots == old(forest.plots)
    {
      hide *;
      ghost var parts, c0 := PartsOf(tables), Schema();
      OneEach();
      i := catalog.FindTable(table);
      ok := i < |catalog.tables|;
      if ok {
        IsIndexable(i, table, name, column);
        ok := IndexColumn(i, tables[i], table, name, column);
      }
      OutcomeOf(ok, i, tables, c0, Schema(), parts, PartsOf(tables), table, name, column, old(forest.pager.NextPage()));
    }

    lemma IsIndexable(i: nat, table: Name, name: Name, column: Name)
      requires AllIndexable(table, name, column) && i < |tables| && i < |catalog.tables| && catalog.tables[i].def.name == table
      ensures Indexable(tables[i], table, name, column)
    {}

    lemma OneEach()
      requires Valid()
      ensures |tables| == |catalog.tables| && Schema() == Schemas(catalog.entries, catalog.nextCatalogRowid, catalog.tables, catalog.indexes)
    {
      assert AllStand(forest, tables, PartsOf(tables), forest.plots, Schema());
    }

    /** CREATE INDEX (src/executor.c:346-380) as a statement. */
    method CreateIndex(table: Name, name: Name, column: Name) returns (ok: bool, i: nat)
      requires Valid() && (forest.pager.txn.active ==> forest.pager.txn.isExplicit) && AllIndexable(table, name, column)
      modifies `begun, tables`rows, tables`indexes, catalog`nextCatalogRowid, catalog`entries, catalog`indexes
      modifies forest, forest.pager, forest.pager.frames, forest.pager.txn
      ensures Valid() && forest.pager.txn.active == old(forest.pager.txn.active)
      ensures !old(forest.pager.txn.active) ==> forest.pager.durable == forest.pager.pages
      ensures IndexOutcome(ok, i, tables, old(Schema()), Schema(), old(PartsOf(tables)), PartsOf(tables), table, name, column, old(forest.pager.NextPage()))
      ensures !ok ==> forest.plots == old(forest.plots)
    {
      hide *;
      ghost var parts, c0 := PartsOf(tables), Schema();
      BackSelf(parts);
      AutoBegin();
      ok, i := IndexTable(table, name, column);
      NoOutcome(ok, i, tables, c0, Schema(), parts, PartsOf(tables), table, name, column, old(forest.pager.NextPage()));
      AutoEnd(ok);
    }

    // ---------- DROP ----------

    /** catalog_drop_table */
    method RemoveTable(name: Name) returns (ok: bool, i: nat)
      requires Valid() && forest.pager.txn.active
      modifies `begun, `tables, catalog`tables, catalog`indexes, catalog`entries
      modifies forest`plots, forest.pager`disk, forest.pager`tick, forest.pager`run, forest.pager`pages, forest.pager`durable
      modifies forest.pager`numPages, forest.pager`freeListHead, forest.pager`freeList, forest.pager`live
      modifies forest.pager.frames, forest.pager.txn`file, forest.pager.txn`journaled
      ensures Valid() && forall k :: 0 <= k < |tables| ==> tables[k] in old(tables)
      ensures |old(catalog.tables)| == |old(tables)| && i <= |old(tables)| && (ok <==> i < |old(tables)|)
      ensures i < |old(tables)| ==> old(catalog.tables)[i].def.name == name
      ensures forall j :: 0 <= j < i ==> old(catalog.tables)[j].def.name != name
      ensures ok ==> && TableGone(old(Schema()), Schema(), i) && tables == Without(old(tables), i) && PartsOf(tables) == Without(old(PartsOf(tables)), i)
                     && Catalogs.PagesFreed(old(forest.plots), forest.plots, forest.pager.live)
      ensures !ok ==> && tables == old(tables) && begun == old(begun) && PartsOf(tables) == old(PartsOf(tables))
                      && Schema() == old(Schema()) && forest.plots == old(forest.plots)
    {
      hide *;
      ghost var was, ts, parts, c0 := forest.plots, tables, PartsOf(tables), Schema();
      BeforeTable(parts, c0);
      ghost var k;
      i := catalog.FindTable(name);
      ok, k := catalog.DropTable(name);
      if !ok {
        NothingNew(parts, c0);
        return;
      }
      CatalogKept();
      StoodBefore(parts, was, c0);
      OnlyOne(was, c0, i, k);
      GoneFrom(c0, i);
      begun := None;
      tables := Without(tables, i);
      AfterDropTable(ts, was, parts, c0, i);
    }

    lemma AfterDropTable(ts: seq<Statements.Table>, was: Plots, parts: seq<Part>, schema: Schemas, i: nat)
      requires forest.Valid() && catalog.forest == forest && begun.None? && i < |ts| && tables == Without(ts, i) && PartsOf(ts) == parts
      requires forall ps :: ps == parts ==> AllStand(forest, ts, ps, was, schema)
      requires CatalogStands(forest.plots, Schema()) && Catalogs.Dropped(was, forest.plots) && TableGone(schema, Schema(), i)
      ensures Valid() && |parts| == |ts| && PartsOf(tables) == Without(parts, i)
    {
      hide *;
      TableWent(forest, ts, parts, was, forest.plots, schema, Schema(), i);
      PartsWithout(ts, i);
      Anew(Without(parts, i));
    }

    lemma GoneFrom(schema: Schemas, i: nat)
      requires i < |schema.tables| && catalog.tables == schema.tables[..i] + schema.tables[i + 1..]
      requires catalog.indexes == OfOthers(schema.indexes, schema.tables[i].def.name)
      ensures TableGone(schema, Schema(), i)
    {}

    /** DROP TABLE (src/executor.c:340-344) as a statement: it fails exactly for an unknown
        table; otherwise the table goes with its indexes, their trees and pages. */
    method DropTable(name: Name) returns (ok: bool, i: nat)
      requires Valid() && (forest.pager.txn.active ==> forest.pager.txn.isExplicit)
      modifies `begun, `tables, tables`rows, catalog`tables, catalog`indexes, catalog`entries, forest, forest.pager, forest.pager.frames, forest.pager.txn
      ensures Valid() && forest.pager.txn.active == old(forest.pager.txn.active)
      ensures !old(forest.pager.txn.active) ==> forest.pager.durable == forest.pager.pages
      ensures |old(catalog.tables)| == |old(tables)| == |old(PartsOf(tables))| && i <= |old(tables)| && (ok <==> i < |old(tables)|)
      ensures i < |old(tables)| ==> old(catalog.tables)[i].def.name == name
      ensures forall j :: 0 <= j < i ==> old(catalog.tables)[j].def.name != name
      ensures ok ==> TableGone(old(Schema()), Schema(), i) && tables == Without(old(tables), i) && PartsOf(tables) == Without(old(PartsOf(tables)), i)
      ensures !ok ==> tables == old(tables) && PartsOf(tables) == old(PartsOf(tables)) && Schema() == old(Schema()) && forest.plots == old(forest.plots)
    {
      hide *;
      ghost var parts := PartsOf(tables);
      BackSelf(parts);
      AutoBegin();
      ok, i := RemoveTable(name);
      AutoEnd(ok);
    }

    /** catalog_drop_index, and what catalog_indexes_for_table gives for its table then. */
    method RemoveIndex(name: Name) returns (ok: bool, k: nat, i: nat)
      requires Valid() && forest.pager.txn.active
      modifies `begun, tables`indexes, catalog`indexes, catalog`entries
      modifies forest`plots, forest.pager`disk, forest.pager`tick, forest.pager`run, forest.pager`pages, forest.pager`durable
      modifies forest.pager`numPages, forest.pager`freeListHead, forest.pager`freeList, forest.pager`live
      modifies forest.pager.frames, forest.pager.txn`file, forest.pager.txn`journaled
      ensures Valid() && k <= |old(catalog.indexes)| && (ok <==> k < |old(catalog.indexes)|)
      ensures k < |old(catalog.indexes)| ==> old(catalog.indexes)[k].def.name == name
      ensures forall j :: 0 <= j < k ==> old(catalog.indexes)[j].def.name != name
      ensures ok ==> IndexDropped(old(PartsOf(tables)), PartsOf(tables), old(Schema()), Schema(), k, i)
      ensures !ok ==> begun == old(begun) && PartsOf(tables) == old(PartsOf(tables)) && Schema() == old(Schema()) && forest.plots == old(forest.plots)
    {
      hide *;
      ghost var was, parts, c0 := forest.plots, PartsOf(tables), Schema();
      BeforeTable(parts, c0);
      k := catalog.FindIndex(name);
      i := 0;
      if k < |catalog.indexes| {
        i := catalog.FindTable(catalog.indexes[k].def.table);
        ItsTable(parts, was, c0, k, i);
        PartsAre(i, tables[i], parts);
      }
      ghost var g;
      ok, g := catalog.DropIndex(name);
      if !ok {
        NothingNew(parts, c0);
        return;
      }
      CatalogKept();
      StoodBefore(parts, was, c0);
      OnlyOneIndex(was, c0, k, g);
      IndexGoneFrom(c0, k);
      begun := None;
      tables[i].indexes := IndexesOf(catalog.indexes, catalog.tables[i].def.name);
      AfterDropIndex(was, parts, c0, k, i);
    }

    lemma ItsTable(parts: seq<Part>, was: Plots, schema: Schemas, k: nat, i: nat)
      requires forall ps :: ps == parts ==> AllStand(forest, tables, ps, was, schema)
      requires k < |schema.indexes| && i <= |schema.tables| && (forall j :: 0 <= j < i ==> schema.tables[j].def.name != schema.indexes[k].def.table)
      ensures i < |tables| == |schema.tables|
    {
      assert AllStand(forest, tables, parts, was, schema) && Attached(schema);
      assert HasTable(schema, schema.indexes[k].def.table);
    }

    lemma IndexGoneFrom(schema: Schemas, k: nat)
      requires k < |schema.indexes| && catalog.tables == schema.tables && catalog.indexes == schema.indexes[..k] + schema.indexes[k + 1..]
      ensures IndexGone(schema, Schema(), k) && Schema().indexes == catalog.indexes
    {}

    lemma AfterDropIndex(was: Plots, parts: seq<Part>, schema: Schemas, k: nat, i: nat)
      requires forest.Valid() && catalog.forest == forest && begun.None? && i < |tables| == |parts| && |schema.tables| == |tables|
      requires forall j :: 0 <= j < |tables| && j != i ==> PartOf(tables[j]) == parts[j]
      requires tables[i].nextRowid == parts[i].next && tables[i].rows == parts[i].rows
      requires IndexGone(schema, Schema(), k) && schema.indexes[k].def.table == schema.tables[i].def.name && Schema().indexes == catalog.indexes
      requires tables[i].indexes == IndexesOf(catalog.indexes, schema.tables[i].def.name)
      requires forall ps :: ps == parts ==> AllStand(forest, tables, ps, was, schema)
      requires CatalogStands(forest.plots, Schema()) && Catalogs.Dropped(was, forest.plots)
      ensures Valid() && IndexDropped(parts, PartsOf(tables), schema, Schema(), k, i)
    {
      hide *;
      IndexWent(forest, tables, parts, was, forest.plots, schema, Schema(), k, i);
      PartsBut(i, parts);
      Anew(PartsOf(tables));
      OneDropped(parts, PartsOf(tables), schema, Schema(), k, i);
    }

    /** DROP INDEX (src/executor.c:382-386) as a statement: it fails exactly for an unknown
        index; otherwise catalog and table have one index less. */
    method DropIndex(name: Name) returns (ok: bool, k: nat, i: nat)
      requires Valid() && (forest.pager.txn.active ==> forest.pager.txn.isExplicit)
      modifies `begun, tables`rows, tables`indexes, catalog`indexes, catalog`entries, forest, forest.pager, forest.pager.frames, forest.pager.txn
      ensures Valid() && forest.pager.txn.active == old(forest.pager.txn.active)
      ensures !old(forest.pager.txn.active) ==> forest.pager.durable == forest.pager.pages
      ensures k <= |old(catalog.indexes)| && (ok <==> k < |old(catalog.indexes)|)
      ensures k < |old(catalog.indexes)| ==> old(catalog.indexes)[k].def.name == name
      ensures forall j :: 0 <= j < k ==> old(catalog.indexes)[j].def.name != name
      ensures ok ==> IndexDropped(old(PartsOf(tables)), PartsOf(tables), old(Schema()), Schema(), k, i)
      ensures !ok ==> PartsOf(tables) == old(PartsOf(tables)) && Schema() == old(Schema()) && forest.plots == old(forest.plots)
    {
      hide *;
      ghost var parts := PartsOf(tables);
      BackSelf(parts);
      AutoBegin();
      ok, k, i := RemoveIndex(name);
      AutoEnd(ok);
    }
  }
}
