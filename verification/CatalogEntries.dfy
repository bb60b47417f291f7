/** The definitions of catalog.c: their bytes as entries of the catalog tree, and the two
    arrays that hold them in memory. */
module CatalogEntries {
  import opened Pages
  import opened Values
  import opened IndexKeys
  import opened Records

  const MAX_TABLES := 128
  const MAX_INDEXES := 256
  const MAX_COLUMNS := 32
  const ENTRY_TABLE: Byte := 1
  const ENTRY_INDEX: Byte := 2

  /** A C string of at most 63 characters. */
  type Name = s: seq<Byte> | |s| < 64

  datatype Column = Column(name: Name, kind: ColumnType, pk: bool, notNull: bool)

  datatype TableDef = TableDef(name: Name, root: PageId, columns: seq<Column>, pkColumn: Option<nat>, nextRowid: int)

  datatype IndexDef = IndexDef(name: Name, table: Name, column: Name, columnIndex: nat, root: PageId)

  /** The last column flagged as primary key. */
  function PkColumn(columns: seq<Column>): Option<nat> {
    if columns == [] then None
    else if columns[|columns| - 1].pk then Some(|columns| - 1)
    else PkColumn(columns[..|columns| - 1])
  }

  /** What exec_create_table lets through. */
  predicate TableOk(t: TableDef) {
    |t.columns| <= MAX_COLUMNS && t.pkColumn == PkColumn(t.columns)
  }

  predicate IndexOk(ix: IndexDef) {
    ix.columnIndex < 0x1_0000_0000
  }

  /** A page number that four bytes hold. */
  predicate InRange(root: PageId) {
    root < 0x1_0000_0000
  }

  // ---------- entries ----------

  function NameBytes(name: Name): seq<Byte> {
    [|name| as Byte] + name
  }

  function KindByte(kind: ColumnType): Byte {
    match kind
    case IntColumn => 1
    case RealColumn => 2
    case TextColumn => 3
  }

  function Flags(c: Column): Byte {
    (if c.pk then 1 else 0) + (if c.notNull then 2 else 0)
  }

  function ColumnBytes(columns: seq<Column>): seq<Byte> {
    if columns == [] then []
    else NameBytes(columns[0].name) + ([KindByte(columns[0].kind), Flags(columns[0])] + ColumnBytes(columns[1..]))
  }

  function TableEntry(t: TableDef): seq<Byte> {
    [ENTRY_TABLE] + (NameBytes(t.name) + (Le(t.root, 4) + ([|t.columns| % 256] + ColumnBytes(t.columns))))
  }

  function IndexEntry(ix: IndexDef): seq<Byte> {
    [ENTRY_INDEX] + (NameBytes(ix.name) + (NameBytes(ix.table) + (NameBytes(ix.column) + (Le(ix.root, 4) + Le(ix.columnIndex, 4)))))
  }

  /** Entries are small: a name or two and at most 32 columns. */
  lemma {:induction false} ColumnsSize(columns: seq<Column>)
    ensures |ColumnBytes(columns)| <= 66 * |columns|
  {
    if columns != [] {
      ColumnsSize(columns[1..]);
    }
  }

  lemma EntrySizes(t: TableDef, ix: IndexDef)
    ensures TableOk(t) ==> |TableEntry(t)| <= 2182
    ensures |IndexEntry(ix)| <= 201
  {
    ColumnsSize(t.columns);
  }

  /** The next rowid is not stored. */
  lemma EntryIgnoresNext(t: TableDef, next: int)
    ensures TableEntry(t.(nextRowid := next)) == TableEntry(t)
  {}

  /** serialize_table_entry */
  method SerializeTable(t: TableDef) returns (out: seq<Byte>)
    ensures out == TableEntry(t)
  {
    out := [ENTRY_TABLE];
    out := out + NameBytes(t.name);
    out := out + Le(t.root, 4);
    out := out + [|t.columns| % 256];
    ghost var head := out;
    assert TableEntry(t) == head + ColumnBytes(t.columns);
    for i := 0 to |t.columns|
      invariant head + ColumnBytes(t.columns) == out + ColumnBytes(t.columns[i..])
    {
      var c := t.columns[i];
      out := out + NameBytes(c.name);
      out := out + [KindByte(c.kind), Flags(c)];
      assert t.columns[i..][0] == c && t.columns[i..][1..] == t.columns[i + 1..];
    }
  }

  /** serialize_index_entry */
  method SerializeIndex(ix: IndexDef) returns (out: seq<Byte>)
    ensures out == IndexEntry(ix)
  {
    out := [ENTRY_INDEX];
    out := out + NameBytes(ix.name);
    out := out + NameBytes(ix.table);
    out := out + NameBytes(ix.column);
    out := out + Le(ix.root, 4);
    out := out + Le(ix.columnIndex, 4);
    assert out == IndexEntry(ix);
  }

  /** get_name, at a place where a name stands. */
  method GetName(data: seq<Byte>, pos: nat, ghost name: Name, ghost rest: seq<Byte>) returns (n: Name, pos': nat)
    requires pos <= |data| && data[pos..] == NameBytes(name) + rest
    ensures n == name && pos' <= |data| && data[pos'..] == rest
  {
    assert data[pos] == data[pos..][0] == |name|;
    var len := data[pos] as nat;
    assert data[pos + 1..pos + 1 + len] == data[pos..][1..1 + len] == name;
    n, pos' := data[pos + 1..pos + 1 + len], pos + 1 + len;
    assert data[pos'..] == data[pos..][1 + len..] == rest;
  }

  /** A 32-bit field, at a place where one stands. */
  method GetU32(data: seq<Byte>, pos: nat, ghost v: nat, ghost rest: seq<Byte>) returns (u: nat, pos': nat)
    requires pos <= |data| && v < 0x1_0000_0000 && data[pos..] == Le(v, 4) + rest
    ensures u == v && pos' <= |data| && data[pos'..] == rest
  {
    assert Pow256(4) == 0x1_0000_0000;
    FromLeOfLe(v, 4);
    assert data[pos..pos + 4] == data[pos..][..4] == Le(v, 4);
    u, pos' := FromLe(data[pos..pos + 4]), pos + 4;
    assert data[pos'..] == data[pos..][4..] == rest;
  }

  function KindOf(b: Byte): ColumnType {
    if b == 1 then IntColumn else if b == 2 then RealColumn else TextColumn
  }

  /** One round of the column loop of deserialize_table_entry. */
  method GetColumn(data: seq<Byte>, pos: nat, ghost c: Column, ghost rest: seq<Byte>) returns (d: Column, pos': nat)
    requires pos <= |data| && data[pos..] == NameBytes(c.name) + ([KindByte(c.kind), Flags(c)] + rest)
    ensures d == c && pos' <= |data| && data[pos'..] == rest
  {
    var name, p := GetName(data, pos, c.name, [KindByte(c.kind), Flags(c)] + rest);
    assert data[p] == data[p..][0] && data[p + 1] == data[p..][1];
    var flags := data[p + 1];
    d, pos' := Column(name, KindOf(data[p]), flags % 2 != 0, flags / 2 % 2 != 0), p + 2;
    assert data[pos'..] == data[p..][2..] == rest;
  }

  /** deserialize_table_entry gives back the table that was stored, next_rowid apart. */
  method DeserializeTable(data: seq<Byte>, ghost t: TableDef) returns (d: TableDef)
    requires TableOk(t) && InRange(t.root) && data == TableEntry(t)
    ensures d == t.(nextRowid := 1)
  {
    ghost var tail := [|t.columns| % 256] + ColumnBytes(t.columns);
    var name, root, p := GetNameAndRoot(data, 1, t.name, t.root, tail);
    assert data[p] == data[p..][0] == |t.columns|;
    assert data[p + 1..] == data[p..][1..] == ColumnBytes(t.columns);
    var columns, pk := GetColumns(data, p + 1, data[p], t.columns);
    d := TableDef(name, root, columns, pk, 1);
  }

  method GetNameAndRoot(data: seq<Byte>, start: nat, ghost was: Name, ghost r: nat, ghost rest: seq<Byte>) returns (name: Name, root: nat, pos: nat)
    requires start <= |data| && r < 0x1_0000_0000 && data[start..] == NameBytes(was) + (Le(r, 4) + rest)
    ensures name == was && root == r && pos <= |data| && data[pos..] == rest
  {
    name, pos := GetName(data, start, was, Le(r, 4) + rest);
    root, pos := GetU32(data, pos, r, rest);
  }

  method GetColumns(data: seq<Byte>, start: nat, n: nat, ghost was: seq<Column>) returns (columns: seq<Column>, pk: Option<nat>)
    requires start <= |data| && data[start..] == ColumnBytes(was) && n == |was|
    ensures columns == was && pk == PkColumn(was)
  {
    var pos: nat := start;
    columns, pk := [], None;
    for i := 0 to n
      invariant pos <= |data| && data[pos..] == ColumnBytes(was[i..])
      invariant columns == was[..i] && pk == PkColumn(was[..i])
    {
      assert was[i..][0] == was[i] && was[i..][1..] == was[i + 1..] && was[..i + 1][..i] == was[..i];
      var c;
      c, pos := GetColumn(data, pos, was[i], ColumnBytes(was[i + 1..]));
      columns := columns + [c];
      if c.pk {
        pk := Some(i);
      }
    }
    assert was[..n] == was;
  }

  /** deserialize_index_entry */
  method DeserializeIndex(data: seq<Byte>, ghost ix: IndexDef) returns (d: IndexDef)
    requires IndexOk(ix) && InRange(ix.root) && data == IndexEntry(ix)
    ensures d == ix
  {
    var pos := 1;
    assert data[pos..] == NameBytes(ix.name) + (NameBytes(ix.table) + (NameBytes(ix.column) + (Le(ix.root, 4) + Le(ix.columnIndex, 4))));
    var name, table, column, root, c;
    name, pos := GetName(data, pos, ix.name, NameBytes(ix.table) + (NameBytes(ix.column) + (Le(ix.root, 4) + Le(ix.columnIndex, 4))));
    table, pos := GetName(data, pos, ix.table, NameBytes(ix.column) + (Le(ix.root, 4) + Le(ix.columnIndex, 4)));
    column, pos := GetName(data, pos, ix.column, Le(ix.root, 4) + Le(ix.columnIndex, 4));
    root, pos := GetU32(data, pos, ix.root, Le(ix.columnIndex, 4));
    assert data[pos..] == Le(ix.columnIndex, 4) + [];
    c, pos := GetU32(data, pos, ix.columnIndex, []);
    d := IndexDef(name, table, column, c, root);
  }

  // ---------- the arrays and the tree ----------

  /** A definition with the rowid of its catalog entry. */
  datatype Numbered<T> = Numbered(rowid: int, def: T)

  ghost predicate Increasing(q: seq<int>) {
    forall i, j :: 0 <= i < j < |q| ==> q[i] < q[j]
  }

  ghost predicate Distinct(q: seq<int>) {
    forall i, j :: 0 <= i < j < |q| ==> q[i] != q[j]
  }

  lemma ElementsWith(q: seq<int>, x: int)
    ensures Elements(q + [x]) == Elements(q) + {x}
    ensures Distinct(q) && x !in q ==> Distinct(q + [x])
    ensures Increasing(q) && (forall y :: y in q ==> y < x) ==> Increasing(q + [x])
  {
    assert forall i :: 0 <= i < |q| ==> q[i] in q;
  }

  lemma ElementsWithout(q: seq<int>, k: nat)
    requires Distinct(q) && k < |q|
    ensures Elements(q[..k] + q[k + 1..]) == Elements(q) - {q[k]} && q[k] in q
    ensures Distinct(q[..k] + q[k + 1..])
    ensures Increasing(q) ==> Increasing(q[..k] + q[k + 1..])
  {
    var rest := q[..k] + q[k + 1..];
    assert forall i :: 0 <= i < |rest| ==> rest[i] == q[if i < k then i else i + 1];
    forall x | x in q && x != q[k] ensures x in rest {
      var i :| 0 <= i < |q| && q[i] == x;
      assert rest[if i < k then i else i - 1] == x;
    }
  }

  function Rowids<T>(s: seq<Numbered<T>>): (q: seq<int>)
    ensures |q| == |s| && forall i :: 0 <= i < |q| ==> q[i] == s[i].rowid
  {
    seq(|s|, i requires 0 <= i < |s| => s[i].rowid)
  }

  function Roots<T>(s: seq<Numbered<T>>, root: T -> PageId): (q: seq<int>)
    ensures |q| == |s| && forall i :: 0 <= i < |q| ==> q[i] == root(s[i].def)
  {
    seq(|s|, i requires 0 <= i < |s| => root(s[i].def))
  }

  function TableRoot(t: TableDef): PageId {
    t.root
  }

  function IndexRoot(ix: IndexDef): PageId {
    ix.root
  }

  ghost predicate TablesStored(tree: map<int, seq<Byte>>, tables: seq<Numbered<TableDef>>) {
    forall i :: 0 <= i < |tables| ==> TableOk(tables[i].def) && tables[i].rowid in tree && tree[tables[i].rowid] == TableEntry(tables[i].def)
  }

  ghost predicate IndexesStored(tree: map<int, seq<Byte>>, indexes: seq<Numbered<IndexDef>>) {
    forall i :: 0 <= i < |indexes| ==> IndexOk(indexes[i].def) && indexes[i].rowid in tree && tree[indexes[i].rowid] == IndexEntry(indexes[i].def)
  }

  /** Two arrays of numbers without repetition, disjoint, that make up a set. */
  ghost predicate Shares(all: set<int>, a: seq<int>, b: seq<int>) {
    Distinct(a) && Distinct(b) && Elements(a) !! Elements(b) && all == Elements(a) + Elements(b)
  }

  lemma SharesWith(all: set<int>, a: seq<int>, b: seq<int>, x: int)
    requires Shares(all, a, b) && x !in all
    ensures Shares(all + {x}, a + [x], b) && Shares(all + {x}, a, b + [x])
  {
    ElementsWith(a, x);
    ElementsWith(b, x);
    assert x !in Elements(a) && x !in Elements(b);
  }

  lemma SharesWithout(all: set<int>, a: seq<int>, b: seq<int>, k: nat)
    requires Shares(all, a, b)
    ensures k < |a| ==> Shares(all - {a[k]}, a[..k] + a[k + 1..], b) && a[k] in all
    ensures k < |b| ==> Shares(all - {b[k]}, a, b[..k] + b[k + 1..]) && b[k] in all
  {
    if k < |a| {
      ElementsWithout(a, k);
      assert a[k] in Elements(a);
    }
    if k < |b| {
      ElementsWithout(b, k);
      assert b[k] in Elements(b);
    }
  }

  /** The tree holds exactly the entries of the arrays, in array order. */
  ghost predicate Stored(tree: map<int, seq<Byte>>, tables: seq<Numbered<TableDef>>, indexes: seq<Numbered<IndexDef>>) {
    && TablesStored(tree, tables) && IndexesStored(tree, indexes)
    && Increasing(Rowids(tables)) && Increasing(Rowids(indexes))
    && Shares(tree.Keys, Rowids(tables), Rowids(indexes))
  }

  ghost predicate Named(tables: seq<Numbered<TableDef>>, indexes: seq<Numbered<IndexDef>>) {
    && (forall i, j :: 0 <= i < j < |tables| ==> tables[i].def.name != tables[j].def.name)
    && (forall i, j :: 0 <= i < j < |indexes| ==> indexes[i].def.name != indexes[j].def.name)
  }

  /** The indexes of other tables. */
  function OfOthers(indexes: seq<Numbered<IndexDef>>, table: Name): seq<Numbered<IndexDef>> {
    if indexes == [] then []
    else (if indexes[0].def.table == table then [] else [indexes[0]]) + OfOthers(indexes[1..], table)
  }

  lemma BackOne(was: seq<Numbered<IndexDef>>, rest: seq<Numbered<IndexDef>>, i: nat, table: Name)
    requires i < |was| && rest == OfOthers(was[i + 1..], table)
    ensures var s := was[..i + 1] + rest;
            && s[i] == was[i] && s[..i] + s[i + 1..] == was[..i] + rest && s == was[..i] + ([was[i]] + rest)
    ensures OfOthers(was[i..], table) == if was[i].def.table == table then rest else [was[i]] + rest
  {
    assert was[i..][1..] == was[i + 1..];
  }

  // ---------- entries come and go ----------

  lemma StoredWithTable(tree: map<int, seq<Byte>>, tables: seq<Numbered<TableDef>>, indexes: seq<Numbered<IndexDef>>, n: Numbered<TableDef>)
    requires Stored(tree, tables, indexes) && TableOk(n.def) && forall r :: r in tree ==> r < n.rowid
    ensures Stored(tree[n.rowid := TableEntry(n.def)], tables + [n], indexes)
  {
    hide TableEntry, IndexEntry;
    assert Rowids(tables + [n]) == Rowids(tables) + [n.rowid];
    assert forall x :: x in Rowids(tables) ==> x in Elements(Rowids(tables));
    ElementsWith(Rowids(tables), n.rowid);
    SharesWith(tree.Keys, Rowids(tables), Rowids(indexes), n.rowid);
    assert tree[n.rowid := TableEntry(n.def)].Keys == tree.Keys + {n.rowid};
  }

  lemma StoredWithIndex(tree: map<int, seq<Byte>>, tables: seq<Numbered<TableDef>>, indexes: seq<Numbered<IndexDef>>, n: Numbered<IndexDef>)
    requires Stored(tree, tables, indexes) && IndexOk(n.def) && forall r :: r in tree ==> r < n.rowid
    ensures Stored(tree[n.rowid := IndexEntry(n.def)], tables, indexes + [n])
  {
    hide TableEntry, IndexEntry;
    assert Rowids(indexes + [n]) == Rowids(indexes) + [n.rowid];
    assert forall x :: x in Rowids(indexes) ==> x in Elements(Rowids(indexes));
    ElementsWith(Rowids(indexes), n.rowid);
    SharesWith(tree.Keys, Rowids(tables), Rowids(indexes), n.rowid);
    assert tree[n.rowid := IndexEntry(n.def)].Keys == tree.Keys + {n.rowid};
  }

  lemma NamedWithout(tables: seq<Numbered<TableDef>>, indexes: seq<Numbered<IndexDef>>, k: nat)
    requires Named(tables, indexes)
    ensures k < |tables| ==> Named(tables[..k] + tables[k + 1..], indexes)
    ensures k < |indexes| ==> Named(tables, indexes[..k] + indexes[k + 1..])
  {
  }

  lemma StoredWithoutIndex(tree: map<int, seq<Byte>>, tables: seq<Numbered<TableDef>>, indexes: seq<Numbered<IndexDef>>, k: nat)
    requires Stored(tree, tables, indexes) && k < |indexes|
    ensures Stored(tree - {indexes[k].rowid}, tables, indexes[..k] + indexes[k + 1..])
  {
    var rest, r := indexes[..k] + indexes[k + 1..], indexes[k].rowid;
    assert Increasing(Rowids(rest)) && Shares((tree - {r}).Keys, Rowids(tables), Rowids(rest)) by {
      assert Rowids(rest) == Rowids(indexes)[..k] + Rowids(indexes)[k + 1..];
      SharesWithout(tree.Keys, Rowids(tables), Rowids(indexes), k);
      ElementsWithout(Rowids(indexes), k);
      assert (tree - {r}).Keys == tree.Keys - {r};
    }
    IndexEntriesRemain(tree, tables, indexes, k);
  }

  lemma IndexEntriesRemain(tree: map<int, seq<Byte>>, tables: seq<Numbered<TableDef>>, indexes: seq<Numbered<IndexDef>>, k: nat)
    requires Stored(tree, tables, indexes) && k < |indexes|
    ensures TablesStored(tree - {indexes[k].rowid}, tables)
    ensures IndexesStored(tree - {indexes[k].rowid}, indexes[..k] + indexes[k + 1..])
  {
    KeysRemain(tree.Keys, Rowids(tables), Rowids(indexes), k);
    var rest := indexes[..k] + indexes[k + 1..];
    assert forall i :: 0 <= i < |rest| ==> rest[i] == indexes[if i < k then i else i + 1];
    assert forall i :: 0 <= i < |indexes| && i != k ==> Rowids(indexes)[i] != Rowids(indexes)[k];
  }

  lemma KeysRemain(all: set<int>, a: seq<int>, b: seq<int>, k: nat)
    requires Shares(all, a, b) && k < |b|
    ensures forall i :: 0 <= i < |a| ==> a[i] in all && a[i] != b[k]
  {
    assert b[k] in Elements(b);
    assert forall i :: 0 <= i < |a| ==> a[i] in Elements(a);
  }

  lemma SharesFlip(all: set<int>, a: seq<int>, b: seq<int>)
    requires Shares(all, a, b)
    ensures Shares(all, b, a)
  {
  }

  lemma StoredWithoutTable(tree: map<int, seq<Byte>>, tables: seq<Numbered<TableDef>>, indexes: seq<Numbered<IndexDef>>, k: nat)
    requires Stored(tree, tables, indexes) && k < |tables|
    ensures Stored(tree - {tables[k].rowid}, tables[..k] + tables[k + 1..], indexes)
  {
    var rest, r := tables[..k] + tables[k + 1..], tables[k].rowid;
    assert Increasing(Rowids(rest)) && Shares((tree - {r}).Keys, Rowids(rest), Rowids(indexes)) by {
      assert Rowids(rest) == Rowids(tables)[..k] + Rowids(tables)[k + 1..];
      SharesWithout(tree.Keys, Rowids(tables), Rowids(indexes), k);
      ElementsWithout(Rowids(tables), k);
      assert (tree - {r}).Keys == tree.Keys - {r};
    }
    TableEntriesRemain(tree, tables, indexes, k);
  }

  lemma TableEntriesRemain(tree: map<int, seq<Byte>>, tables: seq<Numbered<TableDef>>, indexes: seq<Numbered<IndexDef>>, k: nat)
    requires Stored(tree, tables, indexes) && k < |tables|
    ensures IndexesStored(tree - {tables[k].rowid}, indexes)
    ensures TablesStored(tree - {tables[k].rowid}, tables[..k] + tables[k + 1..])
  {
    SharesFlip(tree.Keys, Rowids(tables), Rowids(indexes));
    KeysRemain(tree.Keys, Rowids(indexes), Rowids(tables), k);
    OtherTablesRemain(tree, tables, k);
  }

  lemma OtherTablesRemain(tree: map<int, seq<Byte>>, tables: seq<Numbered<TableDef>>, k: nat)
    requires TablesStored(tree, tables) && Increasing(Rowids(tables)) && k < |tables|
    ensures TablesStored(tree - {tables[k].rowid}, tables[..k] + tables[k + 1..])
  {
    var rest := tables[..k] + tables[k + 1..];
    assert forall i :: 0 <= i < |rest| ==> rest[i] == tables[if i < k then i else i + 1];
    assert forall i :: 0 <= i < |tables| && i != k ==> Rowids(tables)[i] != Rowids(tables)[k];
  }

  // ---------- catalog_open ----------

  /** compute_next_rowid over the rowids a cursor gives. */
  method NextRowid(rowids: seq<int>) returns (next: int)
    ensures forall r :: r in rowids ==> r < next
    ensures if rowids == [] then next == 1 else next - 1 in rowids
  {
    var most, any := 0, false;
    for i := 0 to |rowids|
      invariant any <==> i > 0
      invariant any ==> most in rowids[..i] && forall r :: r in rowids[..i] ==> r <= most
    {
      assert rowids[..i + 1] == rowids[..i] + [rowids[i]];
      if !any || rowids[i] > most {
        most, any := rowids[i], true;
      }
    }
    assert rowids[..|rowids|] == rowids;
    next := if any then most + 1 else 1;
  }

  /** The same table up to the next rowid, which is above all its rowids. */
  ghost predicate Reopened(d: TableDef, was: TableDef, rowids: seq<int>) {
    && d == was.(nextRowid := d.nextRowid)
    && (forall r :: r in rowids ==> r < d.nextRowid)
  }

  ghost predicate Same(tables: seq<Numbered<TableDef>>, was: seq<Numbered<TableDef>>) {
    |tables| == |was| && forall i :: 0 <= i < |was| ==> tables[i].rowid == was[i].rowid && tables[i].def == was[i].def.(nextRowid := 1)
  }

  /** After a entries of one array and b of the other, the next number of an increasing scan
      of both is the next of one of them. */
  lemma NextOfScan(scan: seq<int>, i: nat, a: seq<int>, b: seq<int>, n: nat, m: nat)
    requires Increasing(scan) && i < |scan| && Increasing(a) && Increasing(b) && n <= |a| && m <= |b|
    requires Shares(Elements(scan), a, b) && Shares(Elements(scan[..i]), a[..n], b[..m])
    ensures (n < |a| && scan[i] == a[n]) || (m < |b| && scan[i] == b[m])
    ensures n < |a| && scan[i] == a[n] ==> Shares(Elements(scan[..i + 1]), a[..n + 1], b[..m])
    ensures m < |b| && scan[i] == b[m] ==> Shares(Elements(scan[..i + 1]), a[..n], b[..m + 1])
  {
    var r := scan[i];
    assert r in Elements(scan) && forall x :: x in scan[..i] ==> x < r;
    assert scan[..i + 1] == scan[..i] + [r];
    ElementsWith(scan[..i], r);
    SharesWith(Elements(scan[..i]), a[..n], b[..m], r);
    if r in a {
      NextOfOne(scan, i, a, b, n, m);
      assert a[..n + 1] == a[..n] + [a[n]];
    } else {
      SharesFlip(Elements(scan), a, b);
      SharesFlip(Elements(scan[..i]), a[..n], b[..m]);
      NextOfOne(scan, i, b, a, m, n);
      assert b[..m + 1] == b[..m] + [b[m]];
    }
    assert n < |a| && scan[i] == a[n] ==> a[..n + 1] == a[..n] + [r];
    assert m < |b| && scan[i] == b[m] ==> b[..m + 1] == b[..m] + [r];
  }

  /** The first i numbers scanned are those of the first n tables and m indexes. */
  ghost predicate Loading(scan: seq<int>, i: nat, tables: seq<Numbered<TableDef>>, indexes: seq<Numbered<IndexDef>>, n: nat, m: nat) {
    && i <= |scan| && n <= |tables| && m <= |indexes|
    && Shares(Elements(scan[..i]), Rowids(tables)[..n], Rowids(indexes)[..m])
  }

  lemma LoadingStep(scan: seq<int>, i: nat, tree: map<int, seq<Byte>>, tables: seq<Numbered<TableDef>>, indexes: seq<Numbered<IndexDef>>, n: nat, m: nat)
    requires Stored(tree, tables, indexes) && Increasing(scan) && Elements(scan) == tree.Keys
    requires i < |scan| && Loading(scan, i, tables, indexes, n, m)
    ensures scan[i] in tree
    ensures (n < |tables| && scan[i] == tables[n].rowid) || (m < |indexes| && scan[i] == indexes[m].rowid)
    ensures n < |tables| && scan[i] == tables[n].rowid ==> Loading(scan, i + 1, tables, indexes, n + 1, m)
    ensures m < |indexes| && scan[i] == indexes[m].rowid ==> Loading(scan, i + 1, tables, indexes, n, m + 1)
  {
    assert scan[i] in Elements(scan);
    NextOfScan(scan, i, Rowids(tables), Rowids(indexes), n, m);
  }

  lemma LoadingDone(scan: seq<int>, tree: map<int, seq<Byte>>, tables: seq<Numbered<TableDef>>, indexes: seq<Numbered<IndexDef>>, n: nat, m: nat)
    requires Stored(tree, tables, indexes) && Elements(scan) == tree.Keys && Loading(scan, |scan|, tables, indexes, n, m)
    ensures n == |tables| && m == |indexes|
  {
    var a, b := Rowids(tables), Rowids(indexes);
    assert scan[..|scan|] == scan;
    AllLoaded(tree.Keys, a, b, n, m);
    SharesFlip(tree.Keys, a, b);
    SharesFlip(tree.Keys, a[..n], b[..m]);
    AllLoaded(tree.Keys, b, a, m, n);
  }

  lemma LoadedAll(scan: seq<int>, tree: map<int, seq<Byte>>, most: int, tables: seq<Numbered<TableDef>>, indexes: seq<Numbered<IndexDef>>,
                  wasTables: seq<Numbered<TableDef>>, wasIndexes: seq<Numbered<IndexDef>>)
    requires Stored(tree, wasTables, wasIndexes) && Elements(scan) == tree.Keys
    requires Loading(scan, |scan|, wasTables, wasIndexes, |tables|, |indexes|) && forall r :: r in scan[..|scan|] ==> r <= most
    requires Same(tables, wasTables[..|tables|]) && indexes == wasIndexes[..|indexes|]
    ensures Same(tables, wasTables) && indexes == wasIndexes && forall r :: r in tree ==> r <= most
  {
    LoadingDone(scan, tree, wasTables, wasIndexes, |tables|, |indexes|);
    assert scan[..|scan|] == scan && wasTables[..|tables|] == wasTables && wasIndexes[..|indexes|] == wasIndexes;
    assert forall r :: r in tree ==> r in Elements(scan);
  }

  /** Two increasing arrays whose first n and m numbers make up the whole are all there. */
  lemma AllLoaded(all: set<int>, a: seq<int>, b: seq<int>, n: nat, m: nat)
    requires Increasing(a) && n <= |a| && m <= |b| && Shares(all, a, b) && Shares(all, a[..n], b[..m])
    ensures n == |a|
  {
    if a != [] {
      var last := a[|a| - 1];
      assert last in Elements(a) && last in all;
      assert forall x :: x in Elements(b[..m]) ==> x in Elements(b);
      assert last in Elements(a[..n]);
      var l :| 0 <= l < n && a[..n][l] == last;
      assert a[l] == last;
    }
  }

  lemma NextOfOne(scan: seq<int>, i: nat, a: seq<int>, b: seq<int>, n: nat, m: nat)
    requires Increasing(scan) && i < |scan| && Increasing(a) && n <= |a| && m <= |b| && scan[i] in a
    requires Shares(Elements(scan), a, b) && Shares(Elements(scan[..i]), a[..n], b[..m])
    ensures n < |a| && scan[i] == a[n]
  {
    Loaded(scan, i, a, b, n, m);
    Later(scan, i);
    var j :| 0 <= j < |a| && a[j] == scan[i];
    assert n <= j && a[n] <= a[j];
  }

  lemma Later(scan: seq<int>, i: nat)
    requires Increasing(scan) && i < |scan|
    ensures scan[i] !in scan[..i]
    ensures forall x :: x in scan && x !in scan[..i] ==> scan[i] <= x
  {
    forall x | x in scan && x !in scan[..i] ensures scan[i] <= x {
      var k :| 0 <= k < |scan| && scan[k] == x;
    }
  }

  /** The first n numbers of an array have been scanned, the others are still to come. */
  lemma Loaded(scan: seq<int>, i: nat, a: seq<int>, b: seq<int>, n: nat, m: nat)
    requires Increasing(a) && i <= |scan| && n <= |a| && m <= |b|
    requires Shares(Elements(scan), a, b) && Shares(Elements(scan[..i]), a[..n], b[..m])
    ensures forall j :: 0 <= j < n ==> a[j] in scan[..i]
    ensures forall j :: n <= j < |a| ==> a[j] in scan && a[j] !in scan[..i]
  {
    forall j | 0 <= j < n ensures a[j] in scan[..i] {
      assert a[..n][j] in Elements(a[..n]);
      assert a[j] in Elements(scan[..i]);
    }
    forall j | n <= j < |a| ensures a[j] in scan && a[j] !in scan[..i] {
      assert a[j] in Elements(a) && a[j] in Elements(scan);
      assert a[j] !in Elements(a[..n]);
      assert forall x :: x in Elements(b[..m]) ==> x in Elements(b);
      assert a[j] !in Elements(scan[..i]);
    }
  }
}
