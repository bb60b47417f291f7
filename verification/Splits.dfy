/** do_split fills each half of a page cell by cell and ignores a cell that does not fit
    (src/btree.c:256, 263, 279, 287).  When this loses nothing, and when it does. */
module Splits {
  import opened Pages
  import opened Journal
  import opened Trees

  /** What a page holds after a run of insert_cell_raw at positions 0, 1, 2, ...: once a
      cell was refused, the next accepted one lands past the end of the pointer array. */
  datatype Filled = Filled(cells: seq<Cell>, garbled: bool)

  function Fill(kind: Kind, cells: seq<Cell>, n: nat): Filled
    requires n <= |cells|
  {
    if n == 0 then Filled([], false)
    else
      var f := Fill(kind, cells, n - 1);
      if Used(kind, f.cells) + CellCost(kind, cells[n - 1]) > CAPACITY then f
      else Filled(f.cells + [cells[n - 1]], f.garbled || |f.cells| < n - 1)
  }

  function PageOf(kind: Kind, leaf: bool, f: Filled, link: PageId): Page {
    if f.garbled then Garbled else Node(kind, leaf, f.cells, link)
  }

  lemma {:induction false} FillFits(kind: Kind, cells: seq<Cell>, n: nat)
    requires n <= |cells|
    ensures Used(kind, Fill(kind, cells, n).cells) <= CAPACITY
    ensures Used(kind, cells[..n]) <= CAPACITY ==> Fill(kind, cells, n) == Filled(cells[..n], false)
  {
    if n > 0 {
      FillFits(kind, cells, n - 1);
      assert cells[..n] == cells[..n - 1] + [cells[n - 1]];
      UsedWith(kind, cells[..n - 1], cells[n - 1]);
      UsedWith(kind, Fill(kind, cells, n - 1).cells, cells[n - 1]);
    }
  }

  lemma UsedWith(kind: Kind, cells: seq<Cell>, c: Cell)
    ensures Used(kind, cells + [c]) == Used(kind, cells) + CellCost(kind, c)
  {
    UsedConcat(kind, cells, [c]);
    assert Used(kind, [c]) == CellCost(kind, c);
  }

  /** A half keeps all its cells exactly when together they fit the page. */
  lemma FillKeepsAllIffFits(kind: Kind, cells: seq<Cell>)
    ensures Fill(kind, cells, |cells|) == Filled(cells, false) <==> Used(kind, cells) <= CAPACITY
  {
    FillFits(kind, cells, |cells|);
    assert cells[..|cells|] == cells;
  }

  ghost predicate HalvesFit(kind: Kind, cells: seq<Cell>) {
    && Used(kind, cells[..|cells| / 2]) <= CAPACITY
    && Used(kind, cells[|cells| / 2..]) <= CAPACITY
  }

  // ---------- what a split keeps ----------

  function LeftHalf(kind: Kind, cells: seq<Cell>): Filled {
    Fill(kind, cells[..|cells| / 2], |cells| / 2)
  }

  function RightHalf(kind: Kind, cells: seq<Cell>): Filled {
    Fill(kind, cells[|cells| / 2..], |cells| - |cells| / 2)
  }

  /** The rows a leaf, and its new sibling if there is one, hold for these cells. */
  function Settled(kind: Kind, cells: seq<Cell>): seq<Cell> {
    if Used(kind, cells) <= CAPACITY then cells else LeftHalf(kind, cells).cells + RightHalf(kind, cells).cells
  }

  /** Each cell of a is one of the first n of s. */
  ghost predicate Among(a: seq<Cell>, s: seq<Cell>, n: nat)
    requires n <= |s|
  {
    forall j :: 0 <= j < |a| ==> IsAmong(a[j], s, n)
  }

  ghost predicate IsAmong(c: Cell, s: seq<Cell>, n: nat)
    requires n <= |s|
  {
    exists k :: 0 <= k < n && s[k] == c
  }

  /** A filled page holds some of the cells, in order; all of them only if there are as many. */
  lemma FillKeepsOrder(kind: Kind, cells: seq<Cell>, n: nat)
    requires n <= |cells|
    ensures var f := Fill(kind, cells, n).cells;
            && |f| <= n && (|f| == n ==> Fill(kind, cells, n) == Filled(cells[..n], false)) && Among(f, cells, n)
            && (Sorted(cells) ==> Sorted(f))
  {
    hide *;
    FillCounts(kind, cells, n);
    FillAmong(kind, cells, n);
  }

  lemma {:induction false} FillCounts(kind: Kind, cells: seq<Cell>, n: nat)
    requires n <= |cells|
    ensures var f := Fill(kind, cells, n).cells;
            |f| <= n && (|f| == n ==> Fill(kind, cells, n) == Filled(cells[..n], false))
  {
    hide Used;
    if n > 0 {
      FillCounts(kind, cells, n - 1);
      assert cells[..n] == cells[..n - 1] + [cells[n - 1]];
    }
  }

  lemma {:induction false} FillAmong(kind: Kind, cells: seq<Cell>, n: nat)
    requires n <= |cells|
    ensures var f := Fill(kind, cells, n).cells; Among(f, cells, n) && (Sorted(cells) ==> Sorted(f))
  {
    if n > 0 {
      hide Used, Among, Sorted;
      FillAmong(kind, cells, n - 1);
      var f, f' := Fill(kind, cells, n - 1).cells, Fill(kind, cells, n).cells;
      if f' == f {
        AmongMore(f, cells, n - 1);
      } else {
        AmongNext(f, cells, n - 1);
      }
    }
  }

  lemma AmongMore(a: seq<Cell>, s: seq<Cell>, n: nat)
    requires n < |s| && Among(a, s, n)
    ensures Among(a, s, n + 1)
  {
    forall j | 0 <= j < |a| ensures IsAmong(a[j], s, n + 1) {
      assert IsAmong(a[j], s, n);
    }
  }

  lemma AmongNext(a: seq<Cell>, s: seq<Cell>, n: nat)
    requires n < |s| && Among(a, s, n)
    ensures Among(a + [s[n]], s, n + 1) && (Sorted(s) && Sorted(a) ==> Sorted(a + [s[n]]))
  {
    var b := a + [s[n]];
    forall j | 0 <= j < |b| ensures IsAmong(b[j], s, n + 1) && (Sorted(s) && j < |a| ==> b[j].key.rank < s[n].key.rank) {
      if j < |a| {
        assert b[j] == a[j] && IsAmong(a[j], s, n);
      } else {
        assert s[n] == b[j];
      }
    }
  }

  lemma FilledWhole(kind: Kind, cells: seq<Cell>)
    ensures var f := Fill(kind, cells, |cells|);
            && |f.cells| <= |cells| && (|f.cells| == |cells| <==> Used(kind, cells) <= CAPACITY)
            && (Used(kind, cells) <= CAPACITY ==> f == Filled(cells, false))
  {
    FillKeepsOrder(kind, cells, |cells|);
    FillKeepsAllIffFits(kind, cells);
    assert cells[..|cells|] == cells;
  }

  lemma HalvesFilled(kind: Kind, cells: seq<Cell>)
    ensures var a, b := LeftHalf(kind, cells), RightHalf(kind, cells);
            && |a.cells| + |b.cells| <= |cells|
            && (HalvesFit(kind, cells) <==> |a.cells| + |b.cells| == |cells|)
            && (HalvesFit(kind, cells) ==> a.cells + b.cells == cells && !a.garbled && !b.garbled)
  {
    hide Used, Fill;
    var left, right := cells[..|cells| / 2], cells[|cells| / 2..];
    assert left + right == cells;
    FilledWhole(kind, left);
    FilledWhole(kind, right);
  }

  /** A split loses nothing exactly when both halves fit. */
  lemma SettledKeepsAllIffFits(kind: Kind, cells: seq<Cell>)
    ensures |Settled(kind, cells)| <= |cells|
    ensures Used(kind, cells) <= CAPACITY || HalvesFit(kind, cells) <==> |Settled(kind, cells)| == |cells|
    ensures |Settled(kind, cells)| == |cells| ==> Settled(kind, cells) == cells
  {
    HalvesFilled(kind, cells);
  }

  // ---------- when the halves fit ----------

  /** The arithmetic of an even split by count: costs in [least, most], the cells but one
      fit a page, and half the cells are at least as large as one cell can be. */
  lemma EvenSplitFits(kind: Kind, cells: seq<Cell>, least: nat, most: nat)
    requires forall i :: 0 <= i < |cells| ==> least <= CellCost(kind, cells[i]) <= most
    requires Used(kind, cells) <= CAPACITY + most
    requires |cells| / 2 * least >= most
    ensures HalvesFit(kind, cells)
  {
    var mid := |cells| / 2;
    assert cells == cells[..mid] + cells[mid..];
    PartsFit(kind, cells[..mid], cells[mid..], least, most, mid);
  }

  lemma PartsFit(kind: Kind, a: seq<Cell>, b: seq<Cell>, least: nat, most: nat, n: nat)
    requires forall c :: c in a + b ==> least <= CellCost(kind, c) <= most
    requires Used(kind, a + b) <= CAPACITY + most && n <= |a| && n <= |b| && n * least >= most
    ensures Used(kind, a) <= CAPACITY && Used(kind, b) <= CAPACITY
  {
    UsedConcat(kind, a, b);
    EnoughUsed(kind, a, least, most, n);
    EnoughUsed(kind, b, least, most, n);
  }

  lemma EnoughUsed(kind: Kind, cells: seq<Cell>, least: nat, most: nat, n: nat)
    requires forall i :: 0 <= i < |cells| ==> least <= CellCost(kind, cells[i]) <= most
    requires n <= |cells| && n * least >= most
    ensures Used(kind, cells) >= most
  {
    UsedBounds(kind, cells, least, most);
    LargerProduct(n, |cells|, least);
  }

  lemma LargerProduct(a: nat, b: nat, c: nat)
    requires a <= b
    ensures a * c <= b * c
  {}

  predicate KeyLens(kind: Kind, cells: seq<Cell>) {
    forall i :: 0 <= i < |cells| ==> LenOk(kind, cells[i].key)
  }

  /** Interior cells of both kinds, and index leaf cells, always split into fitting halves. */
  lemma NarrowCellsSplit(kind: Kind, cells: seq<Cell>, i: nat)
    requires KeyLens(kind, cells) && forall j :: 0 <= j < |cells| ==> cells[j].Sep? || kind == Index
    requires i < |cells| && Used(kind, cells[..i] + cells[i + 1..]) <= CAPACITY < Used(kind, cells)
    ensures HalvesFit(kind, cells) && |cells| >= 2
  {
    UsedWithout(kind, cells, i);
    var least, most := if kind == Table then 14 else 13, if kind == Table then 14 else 104;
    UsedBounds(kind, cells, least, most);
    EvenSplitFits(kind, cells, least, most);
  }

  lemma UsedWithout(kind: Kind, cells: seq<Cell>, i: nat)
    requires i < |cells|
    ensures Used(kind, cells) == Used(kind, cells[..i] + cells[i + 1..]) + CellCost(kind, cells[i])
  {
    var a, b := cells[..i], cells[i + 1..];
    assert cells == a + ([cells[i]] + b);
    UsedConcat(kind, a, [cells[i]] + b);
    UsedConcat(kind, [cells[i]], b);
    UsedConcat(kind, a, b);
    assert Used(kind, [cells[i]]) == CellCost(kind, cells[i]);
  }

  // ---------- the leaf an insert reaches ----------

  function Spliced(s: seq<Cell>, i: nat, c: Cell): seq<Cell>
    requires i <= |s|
  {
    s[..i] + [c] + s[i..]
  }

  ghost predicate Routes(keys: seq<Key>, rank: int, i: nat) {
    && i <= |keys|
    && (i > 0 ==> keys[i - 1].rank <= rank)
    && (i < |keys| ==> rank < keys[i].rank)
  }

  /** The place among the kids that a key routes to. */
  function RouteOf(keys: seq<Key>, rank: int): (i: nat)
    ensures i <= |keys|
  {
    if keys == [] || rank < keys[0].rank then 0 else 1 + RouteOf(keys[1..], rank)
  }

  lemma {:induction false} RouteIs(keys: seq<Key>, rank: int, i: nat)
    requires Routes(keys, rank, i) && forall j, k :: 0 <= j < k < |keys| ==> keys[j].rank < keys[k].rank
    ensures RouteOf(keys, rank) == i
  {
    if i > 0 {
      assert keys[0].rank <= keys[i - 1].rank;
      RouteIs(keys[1..], rank, i - 1);
    }
  }

  /** The rows of the leaf a key routes to. */
  ghost function LeafFor(t: Tree, rank: int): seq<Cell>
    decreases t
  {
    match t
    case Tip(_, rows) => rows
    case Fork(_, keys, kids) =>
      var i := RouteOf(keys, rank);
      if i < |kids| then LeafFor(kids[i], rank) else []
  }

  lemma {:induction false} LeafIsGood(kind: Kind, img: Image, t: Tree, lo: int, hi: int, h: nat, nxt: PageId, rank: int)
    requires Good(kind, img, t, lo, hi, h, nxt)
    ensures var rows := LeafFor(t, rank);
            && Sorted(rows) && Used(kind, rows) <= CAPACITY
            && forall i :: 0 <= i < |rows| ==> rows[i].Row? && LenOk(kind, rows[i].key) && rows[i] in Contents(t)
    decreases t
  {
    if t.Fork? {
      var i := RouteOf(t.keys, rank);
      assert KidGood(kind, img, t.keys, t.kids, lo, hi, h - 1, nxt, i) && Kid(t.kids, i) == t.kids[i];
      LeafIsGood(kind, img, t.kids[i], LoOf(t.keys, lo, i), HiOf(t.keys, hi, i), h - 1, NextOf(t.kids, nxt, i), rank);
      FlattenAround(t.kids, i);
    }
  }

  /** If inserting the cell overflows the leaf it reaches, the two halves of that leaf fit. */
  ghost predicate SplitFits(kind: Kind, t: Tree, cell: Cell) {
    var rows := LeafFor(t, cell.key.rank);
    forall i :: IsBound(rows, cell.key.rank, false, i) ==> LeafSplitFits(kind, rows, cell, i)
  }

  /** (The quantifiers over what is spliced keep the definitions folded in proofs that do
      not name it.) */
  ghost predicate LeafSplitFits(kind: Kind, rows: seq<Cell>, cell: Cell, i: nat) {
    forall cells :: Splices(rows, i, cell, cells) ==> Used(kind, cells) <= CAPACITY || HalvesFit(kind, cells)
  }

  ghost predicate Splices(rows: seq<Cell>, i: nat, cell: Cell, cells: seq<Cell>) {
    i <= |rows| && cells == Spliced(rows, i, cell)
  }

  /** No cell is accepted after one that was refused: both pages stay pages. */
  ghost predicate SplitReadable(kind: Kind, t: Tree, cell: Cell) {
    var rows := LeafFor(t, cell.key.rank);
    forall i :: IsBound(rows, cell.key.rank, false, i) ==> LeafSplitReadable(kind, rows, cell, i)
  }

  ghost predicate LeafSplitReadable(kind: Kind, rows: seq<Cell>, cell: Cell, i: nat) {
    forall cells :: Splices(rows, i, cell, cells) ==> HalvesReadable(kind, cells)
  }

  ghost predicate HalvesReadable(kind: Kind, cells: seq<Cell>) {
    Used(kind, cells) <= CAPACITY || (!LeftHalf(kind, cells).garbled && !RightHalf(kind, cells).garbled)
  }

  /** Fitting halves are both pages. */
  lemma FitsIsReadable(kind: Kind, t: Tree, cell: Cell)
    requires SplitFits(kind, t, cell)
    ensures SplitReadable(kind, t, cell)
  {
    var rows := LeafFor(t, cell.key.rank);
    forall i | IsBound(rows, cell.key.rank, false, i) ensures LeafSplitReadable(kind, rows, cell, i) {
      assert LeafSplitFits(kind, rows, cell, i) && Splices(rows, i, cell, Spliced(rows, i, cell));
      HalvesFilled(kind, Spliced(rows, i, cell));
    }
  }

  /** The first row of a tree fits. */
  lemma FirstFits(kind: Kind, root: PageId, cell: Cell)
    requires CellCost(kind, cell) <= CAPACITY
    ensures SplitFits(kind, Tip(root, []), cell)
  {
    forall i | IsBound([], cell.key.rank, false, i) ensures LeafSplitFits(kind, [], cell, i) {
      assert Spliced([], i, cell) == [cell];
      assert Used(kind, [cell]) == CellCost(kind, cell);
    }
  }

  /** In an index tree nothing is ever lost. */
  lemma IndexSplitFits(img: Image, t: Tree, lo: int, hi: int, h: nat, nxt: PageId, cell: Cell)
    requires Good(Index, img, t, lo, hi, h, nxt) && cell.Row? && LenOk(Index, cell.key)
    ensures SplitFits(Index, t, cell)
  {
    var rows := LeafFor(t, cell.key.rank);
    LeafIsGood(Index, img, t, lo, hi, h, nxt, cell.key.rank);
    forall i | IsBound(rows, cell.key.rank, false, i) ensures LeafSplitFits(Index, rows, cell, i) {
      IndexLeafFits(rows, cell, i);
    }
  }

  lemma IndexLeafFits(rows: seq<Cell>, cell: Cell, i: nat)
    requires i <= |rows| && Used(Index, rows) <= CAPACITY && LenOk(Index, cell.key) && KeyLens(Index, rows)
    ensures LeafSplitFits(Index, rows, cell, i)
  {
    hide Used, HalvesFit;
    var cells := Spliced(rows, i, cell);
    SplicedParts(rows, i, cell);
    if Used(Index, cells) > CAPACITY {
      NarrowCellsSplit(Index, cells, i);
    }
  }

  lemma SplicedParts(rows: seq<Cell>, i: nat, cell: Cell)
    requires i <= |rows|
    ensures var cells := Spliced(rows, i, cell);
            && |cells| == |rows| + 1 && cells[..i] + cells[i + 1..] == rows
            && forall j :: 0 <= j < |cells| ==> cells[j] == if j < i then rows[j] else if j == i then cell else rows[j - 1]
  {}

  // ---------- rows that never get lost ----------

  /** Cells that fit a page but for one of them. */
  ghost predicate Overfull(kind: Kind, s: seq<Cell>) {
    && Sorted(s) && Used(kind, s) > CAPACITY
    && exists i :: 0 <= i < |s| && Used(kind, Without(s, i)) <= CAPACITY
  }

  function Without(s: seq<Cell>, i: nat): seq<Cell>
    requires i < |s|
  {
    s[..i] + s[i + 1..]
  }

  ghost predicate OfCells(kind: Kind, s: seq<Cell>, cells: iset<Cell>) {
    forall i :: 0 <= i < |s| ==> s[i] in cells && CellCost(kind, s[i]) <= CAPACITY
  }

  /** However some of these cells overfill a leaf, the halves fit. */
  ghost predicate Splittable(kind: Kind, cells: iset<Cell>) {
    forall s :: Overfull(kind, s) && OfCells(kind, s, cells) ==> HalvesFit(kind, s)
  }

  /** The tree holds rows of these cells, and the cell is a new one of them. */
  ghost predicate NewAmong(kind: Kind, cells: iset<Cell>, t: Tree, cell: Cell) {
    && OfCells(kind, Contents(t), cells) && OfCells(kind, [cell], cells)
    && cell.Row? && LenOk(kind, cell.key) && !HasRank(Contents(t), cell.key.rank)
  }

  /** Rows of splittable cells are never lost, whatever the tree. */
  lemma SplittableFits(kind: Kind, cells: iset<Cell>, img: Image, t: Tree, lo: int, hi: int, h: nat, nxt: PageId, cell: Cell)
    requires Splittable(kind, cells) && NewAmong(kind, cells, t, cell) && Good(kind, img, t, lo, hi, h, nxt)
    ensures SplitFits(kind, t, cell)
  {
    var rows := LeafFor(t, cell.key.rank);
    LeafIsGood(kind, img, t, lo, hi, h, nxt, cell.key.rank);
    assert !HasRank(rows, cell.key.rank) by {
      LacksRank(Contents(t), rows, cell.key.rank);
    }
    forall i | IsBound(rows, cell.key.rank, false, i) ensures LeafSplitFits(kind, rows, cell, i) {
      SplittableLeaf(kind, cells, Contents(t), rows, cell, i);
    }
  }

  lemma SplittableLeaf(kind: Kind, cells: iset<Cell>, all: seq<Cell>, rows: seq<Cell>, cell: Cell, i: nat)
    requires Splittable(kind, cells) && OfCells(kind, all, cells) && OfCells(kind, [cell], cells)
    requires Sorted(rows) && Used(kind, rows) <= CAPACITY && forall j :: 0 <= j < |rows| ==> rows[j] in all
    requires !HasRank(rows, cell.key.rank) && IsBound(rows, cell.key.rank, false, i)
    ensures LeafSplitFits(kind, rows, cell, i)
  {
    SplicedOf(kind, cells, all, rows, cell, i);
    SplicedParts(rows, i, cell);
    var s := Spliced(rows, i, cell);
    assert Without(s, i) == rows;
    assert Used(kind, s) > CAPACITY ==> Overfull(kind, s);
  }

  lemma LacksRank(all: seq<Cell>, rows: seq<Cell>, rank: int)
    requires !HasRank(all, rank) && forall i :: 0 <= i < |rows| ==> rows[i] in all
    ensures !HasRank(rows, rank)
  {
  }

  lemma SplicedOf(kind: Kind, cells: iset<Cell>, all: seq<Cell>, rows: seq<Cell>, cell: Cell, i: nat)
    requires OfCells(kind, all, cells) && OfCells(kind, [cell], cells) && forall j :: 0 <= j < |rows| ==> rows[j] in all
    requires Sorted(rows) && !HasRank(rows, cell.key.rank) && IsBound(rows, cell.key.rank, false, i)
    ensures Sorted(Spliced(rows, i, cell)) && OfCells(kind, Spliced(rows, i, cell), cells)
  {
    var s := Spliced(rows, i, cell);
    assert [cell][0] == cell;
    assert forall j :: 0 <= j < |s| ==> s[j] == if j < i then rows[j] else if j == i then cell else rows[j - 1];
    assert forall j :: i <= j < |rows| ==> rows[j].key.rank > cell.key.rank;
  }

  /** And no weaker hypothesis will do: unless the cells are splittable, there is a tree of
      them, and one more of them, for which the insertion loses a row. */
  lemma UnsplittableLoses(cells: iset<Cell>) returns (img: Image, t: Tree, lo: int, hi: int, cell: Cell)
    requires !Splittable(Table, cells) && forall c :: c in cells ==> c.Row?
    ensures NewAmong(Table, cells, t, cell) && Good(Table, img, t, lo, hi, 0, 0) && !SplitFits(Table, t, cell)
  {
    var s: seq<Cell> :| Overfull(Table, s) && OfCells(Table, s, cells) && !HalvesFit(Table, s);
    var i :| 0 <= i < |s| && Used(Table, Without(s, i)) <= CAPACITY;
    t, cell := Tip(2, Without(s, i)), s[i];
    lo, hi := s[0].key.rank, s[|s| - 1].key.rank + 1;
    img := ImageOf(map[2 := Node(Table, true, Without(s, i), 0)]);
    WithoutOne(cells, s, i);
    LeafOfRows(img, Without(s, i), lo, hi);
    DoesNotFit(s, i);
  }

  lemma DoesNotFit(s: seq<Cell>, i: nat)
    requires i < |s| && Sorted(s) && Overfull(Table, s) && !HalvesFit(Table, s)
    ensures !SplitFits(Table, Tip(2, Without(s, i)), s[i])
  {
    TooFullToSplit(s, i);
    WithoutBound(s, i);
    assert LeafFor(Tip(2, Without(s, i)), s[i].key.rank) == Without(s, i);
  }

  lemma LeafOfRows(img: Image, rows: seq<Cell>, lo: int, hi: int)
    requires 2 in img && img[2] == Node(Table, true, rows, 0) && Sorted(rows) && Within(rows, lo, hi) && Used(Table, rows) <= CAPACITY
    requires forall j :: 0 <= j < |rows| ==> rows[j].Row?
    ensures Good(Table, img, Tip(2, rows), lo, hi, 0, 0)
  {}

  lemma TooFullToSplit(s: seq<Cell>, i: nat)
    requires i < |s| && Overfull(Table, s) && !HalvesFit(Table, s)
    ensures !LeafSplitFits(Table, Without(s, i), s[i], i)
  {
    assert Spliced(Without(s, i), i, s[i]) == s;
    assert Splices(Without(s, i), i, s[i], s);
  }

  lemma WithoutOne(cells: iset<Cell>, s: seq<Cell>, i: nat)
    requires Sorted(s) && OfCells(Table, s, cells) && i < |s|
    ensures var rows := Without(s, i);
            && Sorted(rows) && Within(rows, s[0].key.rank, s[|s| - 1].key.rank + 1) && OfCells(Table, rows, cells)
            && !HasRank(rows, s[i].key.rank)
            && forall j :: 0 <= j < |rows| ==> rows[j] in s
  {
    WithoutSorted(s, i);
    WithoutBound(s, i);
    WithoutOfCells(cells, s, i);
  }

  lemma WithoutAt(s: seq<Cell>, i: nat)
    requires i < |s|
    ensures |Without(s, i)| == |s| - 1
    ensures forall j :: 0 <= j < |Without(s, i)| ==> Without(s, i)[j] == s[if j < i then j else j + 1]
  {}

  lemma WithoutSorted(s: seq<Cell>, i: nat)
    requires Sorted(s) && i < |s|
    ensures Sorted(Without(s, i)) && Within(Without(s, i), s[0].key.rank, s[|s| - 1].key.rank + 1)
  {
    WithoutAt(s, i);
  }

  lemma WithoutOfCells(cells: iset<Cell>, s: seq<Cell>, i: nat)
    requires OfCells(Table, s, cells) && i < |s|
    ensures OfCells(Table, Without(s, i), cells) && forall j :: 0 <= j < |Without(s, i)| ==> Without(s, i)[j] in s
  {
    WithoutAt(s, i);
  }

  lemma WithoutBound(s: seq<Cell>, i: nat)
    requires Sorted(s) && i < |s|
    ensures IsBound(Without(s, i), s[i].key.rank, false, i) && !HasRank(Without(s, i), s[i].key.rank)
  {
    WithoutAt(s, i);
  }

  /** Cells of cost least to most split safely when n - 1 of them never overflow a page and
      half of n are at least as large as one can be. */
  predicate SplitSafe(least: nat, most: nat, n: nat) {
    n > 0 && (n - 1) * most <= CAPACITY && n / 2 * least >= most
  }

  lemma SimilarCellsSplit(kind: Kind, cells: seq<Cell>, i: nat, least: nat, most: nat, n: nat)
    requires forall j :: 0 <= j < |cells| ==> least <= CellCost(kind, cells[j]) <= most
    requires SplitSafe(least, most, n)
    requires i < |cells| && Used(kind, cells[..i] + cells[i + 1..]) <= CAPACITY < Used(kind, cells)
    ensures HalvesFit(kind, cells)
  {
    UsedWithout(kind, cells, i);
    UsedBounds(kind, cells, least, most);
    if |cells| < n {
      LargerProduct(|cells|, n - 1, most);
      assert false;
    }
    LargerProduct(n / 2, |cells| / 2, least);
    EvenSplitFits(kind, cells, least, most);
  }

  /** Rows of similar size are splittable. */
  lemma SimilarRowsSplit(kind: Kind, cells: iset<Cell>, least: nat, most: nat, n: nat)
    requires SplitSafe(least, most, n) && forall c :: c in cells ==> least <= CellCost(kind, c) <= most
    ensures Splittable(kind, cells)
  {
    forall s | Overfull(kind, s) && OfCells(kind, s, cells) ensures HalvesFit(kind, s) {
      var i :| 0 <= i < |s| && Used(kind, Without(s, i)) <= CAPACITY;
      SimilarCellsSplit(kind, s, i, least, most, n);
    }
  }
}
