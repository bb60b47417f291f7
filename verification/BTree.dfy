/** btree.c over the pager: search, insert with splits and root growth, delete without
    rebalancing, destroy. */
module BTrees {
  import opened Pages
  import opened Journal
  import opened Trees
  import opened Splits
  import opened Inserts
  import opened Deletes
  import opened Leaves
  import Pager

  class BTree {
    const pager: Pager.Pager
    const root: PageId
    const kind: Kind
    // the tree laid over the pages, its key bounds and height
    ghost var tree: Tree
    ghost var lo: int
    ghost var hi: int
    ghost var height: nat

    /** btree_init on a root page that holds the given tree. */
    constructor (pager: Pager.Pager, root: PageId, kind: Kind, ghost tree: Tree, ghost lo: int, ghost hi: int, ghost height: nat)
      ensures this.pager == pager && this.root == root && this.kind == kind
      ensures this.tree == tree && this.lo == lo && this.hi == hi && this.height == height
    {
      this.pager, this.root, this.kind := pager, root, kind;
      this.tree, this.lo, this.hi, this.height := tree, lo, hi, height;
    }

    // ---------- invariant ----------

    /** The tree is laid over live pages; a new root page may still be all zeros. */
    ghost predicate Laid()
      reads this, pager
    {
      LaidOver(pager.pages)
    }

    ghost predicate LaidOver(img: Image)
      reads this, pager
    {
      && tree.id == root && Ids(tree) <= pager.live
      && Total(img)
      && if img[root] == Raw(0) then tree == Tip(root, []) && height == 0
         else Good(kind, img, tree, lo, hi, height, 0)
    }

    ghost predicate Valid()
      reads this, pager, pager.frames, pager.txn
    {
      pager.Valid() && pager.txn.active && Laid()
    }

    ghost function Rows(): seq<Cell>
      reads this
    {
      Contents(tree)
    }

    /** Pages of others are as before; the tree's pages changed from before to Ids(tree). */
    twostate predicate OthersKept(before: set<PageId>)
      reads this, pager
    {
      && (forall q :: q in old(pager.live) - before ==> q in pager.live && q !in Ids(tree))
      && (forall q :: q in old(pager.live) - before && q in old(pager.pages) ==>
            q in pager.pages && pager.pages[q] == old(pager.pages)[q])
      && pager.live - Ids(tree) == old(pager.live) - before
      && pager.durable == old(pager.durable)
    }

    // ---------- cells of a page ----------

    /** find_index */
    static method FindIndex(cells: seq<Cell>, rank: int, strict: bool) returns (i: nat)
      ensures IsBound(cells, rank, strict, i)
    {
      i := 0;
      while i < |cells|
        invariant i <= |cells|
        invariant forall j :: 0 <= j < i ==> if strict then cells[j].key.rank <= rank else cells[j].key.rank < rank
      {
        if if strict then cells[i].key.rank > rank else cells[i].key.rank >= rank {
          return;
        }
        i := i + 1;
      }
    }

    /** init_node and the fill loop of do_split. */
    static method FillPage(kind: Kind, leaf: bool, cells: seq<Cell>, link: PageId) returns (page: Page)
      ensures page == PageOf(kind, leaf, Fill(kind, cells, |cells|), link)
      ensures page == Node(kind, leaf, cells, link) <==> Used(kind, cells) <= CAPACITY
    {
      var kept, garbled := [], false;
      for i := 0 to |cells|
        invariant Filled(kept, garbled) == Fill(kind, cells, i)
      {
        if Used(kind, kept) + CellCost(kind, cells[i]) <= CAPACITY {
          garbled := garbled || |kept| < i;
          kept := kept + [cells[i]];
        }
      }
      page := if garbled then Garbled else Node(kind, leaf, kept, link);
      FillKeepsAllIffFits(kind, cells);
    }

    /** do_split on the cells of a page and one more. */
    method DoSplit(pageNum: PageId, leaf: bool, cells: seq<Cell>) returns (key: Key, right: PageId)
      requires pager.Valid() && pager.txn.active && pageNum in pager.live && cells != []
      requires pager.pages[pageNum].Node? && (leaf || cells[|cells| / 2].Sep?)
      modifies pager`disk, pager`tick, pager`run, pager`pages, pager`durable, pager.frames, pager.txn`file, pager.txn`journaled
      modifies pager`numPages, pager`freeListHead, pager`freeList, pager`live
      ensures pager.Valid() && pager.txn.active && pager.durable == old(pager.durable)
      ensures right >= 2 && right !in old(pager.live) && pager.live == old(pager.live) + {right}
      ensures forall q :: q in old(pager.live) && q != pageNum ==> pager.pages[q] == old(pager.pages)[q]
      ensures key == cells[|cells| / 2].key
      ensures SplitOver(kind, leaf, pager.pages, cells, pageNum, right, old(pager.pages)[pageNum].link)
    {
      right := pager.Allocate();
      var mid := |cells| / 2;
      key := cells[mid].key;
      var lp := pager.Read(pageNum);
      var left, rest := SplitPages(leaf, cells, right, lp.link);
      WriteBoth(pageNum, left, right, rest);
    }

    /** The contents of both pages. */
    method SplitPages(leaf: bool, cells: seq<Cell>, right: PageId, link: PageId) returns (left: Page, rest: Page)
      requires cells != [] && (leaf || cells[|cells| / 2].Sep?)
      ensures forall a, b :: Parts(leaf, cells, a, b) ==>
                && left == PageOf(kind, leaf, Fill(kind, a, |a|), if leaf then right else cells[|cells| / 2].child)
                && rest == PageOf(kind, leaf, Fill(kind, b, |b|), link)
    {
      var mid := |cells| / 2;
      left := FillPage(kind, leaf, cells[..mid], if leaf then right else cells[mid].child);
      rest := FillPage(kind, leaf, if leaf then cells[mid..] else cells[mid + 1..], link);
    }

    method WriteBoth(p: PageId, page: Page, q: PageId, page': Page)
      requires pager.Valid() && pager.txn.active && p in pager.live && q in pager.live
      modifies pager`disk, pager`tick, pager`run, pager`pages, pager`durable, pager.frames, pager.txn`file, pager.txn`journaled
      ensures pager.Valid() && pager.durable == old(pager.durable)
      ensures pager.pages == old(pager.pages)[p := page][q := page']
    {
      pager.Write(p, page);
      pager.Write(q, page');
    }

    // ---------- insert ----------

    method InsertIntoLeaf(pageNum: PageId, page: Page, cell: Cell, ghost t: Tree, ghost lo: int, ghost hi: int, ghost nxt: PageId)
      returns (ok: bool, split: Split, ghost l: Tree, ghost r: Tree, ghost fix: map<PageId, Page>)
      requires pager.Valid() && pager.txn.active && t.Tip?
      requires t.id == pageNum && pageNum in pager.live && Good(kind, pager.pages, t, lo, hi, 0, nxt) && page == pager.pages[pageNum]
      requires cell.Row? && LenOk(kind, cell.key) && lo <= cell.key.rank < hi && CellCost(kind, cell) <= CAPACITY
      requires HasRank(t.rows, cell.key.rank) ==> kind == Table
      modifies pager`disk, pager`tick, pager`run, pager`pages, pager`durable, pager.frames, pager.txn`file, pager.txn`journaled
      modifies pager`numPages, pager`freeListHead, pager`freeList, pager`live
      ensures pager.Valid() && pager.txn.active && pager.durable == old(pager.durable) && old(pager.live) <= pager.live
      ensures ok <==> !HasRank(t.rows, cell.key.rank)
      ensures !ok ==> pager.pages == old(pager.pages) && pager.live == old(pager.live)
      ensures ok ==> Grew(kind, Mended(pager.pages, fix), t, cell, split, l, r, lo, hi, 0, nxt, old(pager.live), pager.live)
      ensures ok ==> (fix == map[] <==> SplitReadable(kind, t, cell))
      ensures Used(kind, t.rows) + CellCost(kind, cell) <= CAPACITY ==> split.NoSplit?
      ensures Patches(pager.pages, fix) && FixAt(fix, {pageNum}, old(pager.live), pager.live)
      ensures forall q :: q in old(pager.live) && q != pageNum ==> pager.pages[q] == old(pager.pages)[q]
    {
      ok, split, l, r, fix := true, NoSplit, t, t, map[];
      var rank := cell.key.rank;
      var idx := FindIndex(page.cells, rank, false);
      BoundFinds(t.rows, rank, idx);
      if kind == Table && idx < |page.cells| && page.cells[idx].key.rank == rank {
        ok := false;
      } else {
        split, l, r, fix := PutOrSplit(pageNum, page, cell, idx, t, lo, hi, nxt);
      }
    }

    method PutOrSplit(pageNum: PageId, page: Page, cell: Cell, idx: nat, ghost t: Tree, ghost lo: int, ghost hi: int, ghost nxt: PageId)
      returns (split: Split, ghost l: Tree, ghost r: Tree, ghost fix: map<PageId, Page>)
      requires pager.Valid() && pager.txn.active && t.Tip?
      requires t.id == pageNum && pageNum in pager.live && Good(kind, pager.pages, t, lo, hi, 0, nxt) && page == pager.pages[pageNum]
      requires cell.Row? && LenOk(kind, cell.key) && lo <= cell.key.rank < hi && !HasRank(t.rows, cell.key.rank)
      requires IsBound(t.rows, cell.key.rank, false, idx) && CellCost(kind, cell) <= CAPACITY
      modifies pager`disk, pager`tick, pager`run, pager`pages, pager`durable, pager.frames, pager.txn`file, pager.txn`journaled
      modifies pager`numPages, pager`freeListHead, pager`freeList, pager`live
      ensures pager.Valid() && pager.txn.active && pager.durable == old(pager.durable) && old(pager.live) <= pager.live
      ensures Grew(kind, Mended(pager.pages, fix), t, cell, split, l, r, lo, hi, 0, nxt, old(pager.live), pager.live)
      ensures fix == map[] <==> SplitReadable(kind, t, cell)
      ensures Used(kind, t.rows) + CellCost(kind, cell) <= CAPACITY ==> split.NoSplit?
      ensures Patches(pager.pages, fix) && FixAt(fix, {pageNum}, old(pager.live), pager.live)
      ensures forall q :: q in old(pager.live) && q != pageNum ==> pager.pages[q] == old(pager.pages)[q]
    {
      LeafCase(kind, t, cell, idx);
      if Used(kind, page.cells) + CellCost(kind, cell) <= CAPACITY {
        split, fix := NoSplit, map[];
        l := PutInLeaf(pageNum, page, cell, idx, t, lo, hi, nxt);
        r := l;
        NothingToMend(pager.pages);
      } else {
        split, l, r, fix := SplitLeaf(pageNum, page, cell, idx, t, lo, hi, nxt);
      }
    }

    method PutInLeaf(pageNum: PageId, page: Page, cell: Cell, idx: nat, ghost t: Tree, ghost lo: int, ghost hi: int, ghost nxt: PageId)
      returns (ghost l: Tree)
      requires pager.Valid() && pager.txn.active && t.Tip?
      requires t.id == pageNum && pageNum in pager.live && Good(kind, pager.pages, t, lo, hi, 0, nxt) && page == pager.pages[pageNum]
      requires cell.Row? && LenOk(kind, cell.key) && lo <= cell.key.rank < hi && !HasRank(t.rows, cell.key.rank)
      requires IsBound(t.rows, cell.key.rank, false, idx) && Used(kind, Spliced(t.rows, idx, cell)) <= CAPACITY
      modifies pager`disk, pager`tick, pager`run, pager`pages, pager`durable, pager.frames, pager.txn`file, pager.txn`journaled
      ensures pager.Valid() && pager.durable == old(pager.durable)
      ensures Grew(kind, pager.pages, t, cell, NoSplit, l, l, lo, hi, 0, nxt, pager.live, pager.live)
      ensures forall q :: q in pager.live && q != pageNum ==> pager.pages[q] == old(pager.pages)[q]
    {
      ghost var img := pager.pages;
      var cells := Spliced(page.cells, idx, cell);
      pager.Write(pageNum, page.(cells := cells));
      LeafGrown(kind, img, pager.pages, t, cell, idx, lo, hi, nxt, pager.live);
      l := Tip(t.id, cells);
    }

    /** The split of a leaf: it and its new sibling hold all the cells exactly if both halves
        fit; if not, they hold those each accepted, and a page that accepted one after
        refusing one is garbled. */
    method SplitLeaf(pageNum: PageId, page: Page, cell: Cell, idx: nat, ghost t: Tree, ghost lo: int, ghost hi: int, ghost nxt: PageId)
      returns (split: Split, ghost l: Tree, ghost r: Tree, ghost fix: map<PageId, Page>)
      requires pager.Valid() && pager.txn.active && t.Tip?
      requires t.id == pageNum && pageNum in pager.live && Good(kind, pager.pages, t, lo, hi, 0, nxt) && page == pager.pages[pageNum]
      requires cell.Row? && LenOk(kind, cell.key) && lo <= cell.key.rank < hi && !HasRank(t.rows, cell.key.rank)
      requires IsBound(t.rows, cell.key.rank, false, idx)
      requires CellCost(kind, cell) <= CAPACITY < Used(kind, Spliced(t.rows, idx, cell))
      modifies pager`disk, pager`tick, pager`run, pager`pages, pager`durable, pager.frames, pager.txn`file, pager.txn`journaled
      modifies pager`numPages, pager`freeListHead, pager`freeList, pager`live
      ensures pager.Valid() && pager.txn.active && pager.durable == old(pager.durable) && old(pager.live) <= pager.live
      ensures Grew(kind, Mended(pager.pages, fix), t, cell, split, l, r, lo, hi, 0, nxt, old(pager.live), pager.live)
      ensures split.Promoted? && HoldsHalves(kind, pager.pages, t.rows, idx, cell, pageNum, split.right, nxt)
      ensures fix == map[] <==> LeafSplitReadable(kind, t.rows, cell, idx)
      ensures Patches(pager.pages, fix) && FixAt(fix, {pageNum}, old(pager.live), pager.live)
      ensures forall q :: q in old(pager.live) && q != pageNum ==> pager.pages[q] == old(pager.pages)[q]
    {
      ghost var img, live := pager.pages, pager.live;
      var cells := Spliced(page.cells, idx, cell);
      OverfullHasTwo(kind, page.cells, cell, idx);
      var key, right := DoSplit(pageNum, true, cells);
      split := Promoted(key, right);
      l, r, fix := LeafSplits(kind, img, pager.pages, t, cell, idx, right, lo, hi, nxt, live);
    }

    /** The return of insert_recursive to an interior page whose kid i grew. */
    method InsertIntoInterior(pageNum: PageId, child: PageId, cell: Cell, i: nat, kidSplit: Split, ghost img: Image, ghost t: Tree,
                              ghost kl: Tree, ghost kr: Tree, ghost lo: int, ghost hi: int, ghost h: nat, ghost nxt: PageId,
                              ghost live: set<PageId>, ghost fix: map<PageId, Page>)
      returns (split: Split, ghost l: Tree, ghost r: Tree)
      requires pager.Valid() && pager.txn.active && t.id == pageNum && pageNum in live && pageNum !in fix && FixAt(fix, Ids(t), live, pager.live)
      requires KidGrew(kind, img, Mended(pager.pages, fix), t, i, cell, kidSplit, kl, kr, lo, hi, h, nxt, live, pager.live)
      requires child == t.kids[i].id && lo <= cell.key.rank < hi
      modifies pager`disk, pager`tick, pager`run, pager`pages, pager`durable, pager.frames, pager.txn`file, pager.txn`journaled
      modifies pager`numPages, pager`freeListHead, pager`freeList, pager`live
      ensures pager.Valid() && pager.txn.active && pager.durable == old(pager.durable) && old(pager.live) <= pager.live
      ensures Grew(kind, Mended(pager.pages, fix), t, cell, split, l, r, lo, hi, h, nxt, live, pager.live)
      ensures kidSplit.NoSplit? ==> split.NoSplit?
      ensures forall q :: q in old(pager.live) && q != pageNum ==> pager.pages[q] == old(pager.pages)[q]
    {
      ghost var keys, kids := KeysAfter(t.keys, i, kidSplit), KidsAfter(t.kids, i, kidSplit, kl, kr);
      KidReturned(kind, img, Mended(pager.pages, fix), t, i, cell, kidSplit, kl, kr, lo, hi, h, nxt, live, pager.live);
      if kidSplit.NoSplit? {
        split, l, r := NoSplit, Fork(t.id, keys, kids), Fork(t.id, keys, kids);
        return;
      }
      var page := pager.Read(pageNum);
      page := Redirected(page, i, kidSplit.right);
      split, l, r := PutSeparator(pageNum, page, i, Sep(kidSplit.key, child), cell, keys, kids, t, lo, hi, h, nxt, live, fix);
    }

    /** insert_cell_raw of the promoted key, or do_split when it does not fit. */
    method PutSeparator(pageNum: PageId, page: Page, i: nat, newCell: Cell, cell: Cell, ghost keys: seq<Key>, ghost kids: seq<Tree>,
                        ghost t: Tree, ghost lo: int, ghost hi: int, ghost h: nat, ghost nxt: PageId, ghost live: set<PageId>,
                        ghost fix: map<PageId, Page>)
      returns (split: Split, ghost l: Tree, ghost r: Tree)
      requires pager.Valid() && pager.txn.active && t.id == pageNum && pageNum in pager.live && pageNum !in fix && FixAt(fix, Ids(t), live, pager.live)
      requires Primed(kind, Mended(pager.pages, fix), t, cell, keys, kids, lo, hi, h, nxt, live, pager.live)
      requires SeparatorFits(kind, page, i, keys, kids, newCell)
      modifies pager`disk, pager`tick, pager`run, pager`pages, pager`durable, pager.frames, pager.txn`file, pager.txn`journaled
      modifies pager`numPages, pager`freeListHead, pager`freeList, pager`live
      ensures pager.Valid() && pager.txn.active && pager.durable == old(pager.durable) && old(pager.live) <= pager.live
      ensures Grew(kind, Mended(pager.pages, fix), t, cell, split, l, r, lo, hi, h, nxt, live, pager.live)
      ensures forall q :: q in old(pager.live) && q != pageNum ==> pager.pages[q] == old(pager.pages)[q]
    {
      var cells := Spliced(page.cells, i, newCell);
      SplicedUsed(kind, page.cells, newCell, i);
      if Used(kind, page.cells) + CellCost(kind, newCell) <= CAPACITY {
        ghost var img := pager.pages;
        pager.Write(pageNum, page.(cells := cells));
        InPlace(kind, img, pager.pages, t, cell, keys, kids, lo, hi, h, nxt, live, pager.live, fix);
        split, l, r := NoSplit, Fork(t.id, keys, kids), Fork(t.id, keys, kids);
        return;
      }
      SplitPrimed(kind, Mended(pager.pages, fix), t, cell, keys, kids, lo, hi, h, nxt, live, pager.live, i, cells);
      split, l, r := RedirectAndSplit(pageNum, page, cells, cell, keys, kids, t, lo, hi, h, nxt, live, fix);
    }

    method RedirectAndSplit(pageNum: PageId, page: Page, cells: seq<Cell>, cell: Cell, ghost keys: seq<Key>, ghost kids: seq<Tree>,
                            ghost t: Tree, ghost lo: int, ghost hi: int, ghost h: nat, ghost nxt: PageId, ghost live: set<PageId>,
                            ghost fix: map<PageId, Page>)
      returns (split: Split, ghost l: Tree, ghost r: Tree)
      requires pager.Valid() && pager.txn.active && t.id == pageNum && pageNum in pager.live && pageNum !in fix && FixAt(fix, Ids(t), live, pager.live)
      requires Primed(kind, Mended(pager.pages, fix), t, cell, keys, kids, lo, hi, h, nxt, live, pager.live)
      requires page.Node? && page.link == kids[|keys|].id
      requires cells == Seps(keys, kids) && SplitSeps(kind, keys, kids, |cells| / 2)
      modifies pager`disk, pager`tick, pager`run, pager`pages, pager`durable, pager.frames, pager.txn`file, pager.txn`journaled
      modifies pager`numPages, pager`freeListHead, pager`freeList, pager`live
      ensures pager.Valid() && pager.txn.active && pager.durable == old(pager.durable) && old(pager.live) <= pager.live
      ensures Grew(kind, Mended(pager.pages, fix), t, cell, split, l, r, lo, hi, h, nxt, live, pager.live)
      ensures forall q :: q in old(pager.live) && q != pageNum ==> pager.pages[q] == old(pager.pages)[q]
    {
      PutPrepared(pageNum, page, cell, keys, kids, t, lo, hi, h, nxt, live, fix);
      split, l, r := SplitInterior(pageNum, cells, cell, keys, kids, t, lo, hi, h, nxt, live, fix);
    }

    /** A change of the page leaves what lies below it prepared. */
    method PutPrepared(pageNum: PageId, page: Page, ghost cell: Cell, ghost keys: seq<Key>, ghost kids: seq<Tree>,
                       ghost t: Tree, ghost lo: int, ghost hi: int, ghost h: nat, ghost nxt: PageId, ghost live: set<PageId>,
                       ghost fix: map<PageId, Page>)
      requires pager.Valid() && pager.txn.active && t.id == pageNum && pageNum in pager.live && pageNum !in fix && FixAt(fix, Ids(t), live, pager.live)
      requires Primed(kind, Mended(pager.pages, fix), t, cell, keys, kids, lo, hi, h, nxt, live, pager.live)
      modifies pager`disk, pager`tick, pager`run, pager`pages, pager`durable, pager.frames, pager.txn`file, pager.txn`journaled
      ensures pager.Valid() && pager.durable == old(pager.durable) && pager.pages == old(pager.pages)[pageNum := page]
      ensures Primed(kind, Mended(pager.pages, fix), t, cell, keys, kids, lo, hi, h, nxt, live, pager.live)
    {
      ghost var img := pager.pages;
      pager.Write(pageNum, page);
      StaysPrimed(kind, img, pager.pages, t, cell, keys, kids, lo, hi, h, nxt, live, pager.live, fix);
    }

    method SplitInterior(pageNum: PageId, cells: seq<Cell>, cell: Cell, ghost keys: seq<Key>, ghost kids: seq<Tree>,
                         ghost t: Tree, ghost lo: int, ghost hi: int, ghost h: nat, ghost nxt: PageId, ghost live: set<PageId>,
                         ghost fix: map<PageId, Page>)
      returns (split: Split, ghost l: Tree, ghost r: Tree)
      requires pager.Valid() && pager.txn.active && t.id == pageNum && pageNum in pager.live && pageNum !in fix && FixAt(fix, Ids(t), live, pager.live)
      requires Primed(kind, Mended(pager.pages, fix), t, cell, keys, kids, lo, hi, h, nxt, live, pager.live)
      requires pager.pages[pageNum].Node? && pager.pages[pageNum].link == kids[|keys|].id
      requires cells == Seps(keys, kids) && SplitSeps(kind, keys, kids, |cells| / 2)
      modifies pager`disk, pager`tick, pager`run, pager`pages, pager`durable, pager.frames, pager.txn`file, pager.txn`journaled
      modifies pager`numPages, pager`freeListHead, pager`freeList, pager`live
      ensures pager.Valid() && pager.txn.active && pager.durable == old(pager.durable) && old(pager.live) <= pager.live
      ensures Grew(kind, Mended(pager.pages, fix), t, cell, split, l, r, lo, hi, h, nxt, live, pager.live)
      ensures forall q :: q in old(pager.live) && q != pageNum ==> pager.pages[q] == old(pager.pages)[q]
    {
      ghost var img, live' := pager.pages, pager.live;
      var key, right := DoSplit(pageNum, false, cells);
      split := Promoted(key, right);
      l, r := InteriorSplits(kind, img, pager.pages, t, cell, keys, kids, cells, lo, hi, h, nxt, live, live', right, fix);
    }

    /** insert_recursive on the subtree t at pageNum.  Whatever the sizes of the rows, the tree
        is good over the pages with the garbled ones mended; none is unless the split of the
        leaf put a cell past the end of the pointer array. */
    method InsertRecursive(pageNum: PageId, cell: Cell, ghost t: Tree, ghost lo: int, ghost hi: int, ghost h: nat, ghost nxt: PageId)
      returns (ok: bool, split: Split, ghost l: Tree, ghost r: Tree, ghost fix: map<PageId, Page>)
      requires pager.Valid() && pager.txn.active
      requires t.id == pageNum && Ids(t) <= pager.live && Good(kind, pager.pages, t, lo, hi, h, nxt)
      requires cell.Row? && LenOk(kind, cell.key) && lo <= cell.key.rank < hi && CellCost(kind, cell) <= CAPACITY
      requires HasRank(Contents(t), cell.key.rank) ==> kind == Table
      modifies pager`disk, pager`tick, pager`run, pager`pages, pager`durable, pager.frames, pager.txn`file, pager.txn`journaled
      modifies pager`numPages, pager`freeListHead, pager`freeList, pager`live
      ensures pager.Valid() && pager.txn.active && pager.durable == old(pager.durable) && old(pager.live) <= pager.live
      ensures ok <==> !HasRank(Contents(t), cell.key.rank)
      ensures !ok ==> pager.pages == old(pager.pages) && pager.live == old(pager.live)
      ensures ok ==> Grew(kind, Mended(pager.pages, fix), t, cell, split, l, r, lo, hi, h, nxt, old(pager.live), pager.live)
      ensures ok ==> (fix == map[] <==> SplitReadable(kind, t, cell))
      ensures ok && Used(kind, LeafFor(t, cell.key.rank)) + CellCost(kind, cell) <= CAPACITY ==> split.NoSplit?
      ensures Patches(pager.pages, fix) && FixAt(fix, Ids(t), old(pager.live), pager.live)
      ensures forall q :: q in old(pager.live) && q !in Ids(t) ==> pager.pages[q] == old(pager.pages)[q]
      decreases h, 1
    {
      assert pageNum in Ids(t);
      var page := pager.Read(pageNum);
      if page.leaf {
        ok, split, l, r, fix := InsertIntoLeaf(pageNum, page, cell, t, lo, hi, nxt);
      } else {
        ok, split, l, r, fix := InsertBelow(pageNum, page, cell, t, lo, hi, h, nxt);
      }
    }

    method InsertBelow(pageNum: PageId, page: Page, cell: Cell, ghost t: Tree, ghost lo: int, ghost hi: int, ghost h: nat, ghost nxt: PageId)
      returns (ok: bool, split: Split, ghost l: Tree, ghost r: Tree, ghost fix: map<PageId, Page>)
      requires pager.Valid() && pager.txn.active && t.Fork?
      requires t.id == pageNum && Ids(t) <= pager.live && Good(kind, pager.pages, t, lo, hi, h, nxt) && page == pager.pages[pageNum]
      requires cell.Row? && LenOk(kind, cell.key) && lo <= cell.key.rank < hi && CellCost(kind, cell) <= CAPACITY
      requires HasRank(Contents(t), cell.key.rank) ==> kind == Table
      modifies pager`disk, pager`tick, pager`run, pager`pages, pager`durable, pager.frames, pager.txn`file, pager.txn`journaled
      modifies pager`numPages, pager`freeListHead, pager`freeList, pager`live
      ensures pager.Valid() && pager.txn.active && pager.durable == old(pager.durable) && old(pager.live) <= pager.live
      ensures ok <==> !HasRank(Contents(t), cell.key.rank)
      ensures !ok ==> pager.pages == old(pager.pages) && pager.live == old(pager.live)
      ensures ok ==> Grew(kind, Mended(pager.pages, fix), t, cell, split, l, r, lo, hi, h, nxt, old(pager.live), pager.live)
      ensures ok ==> (fix == map[] <==> SplitReadable(kind, t, cell))
      ensures ok && Used(kind, LeafFor(t, cell.key.rank)) + CellCost(kind, cell) <= CAPACITY ==> split.NoSplit?
      ensures Patches(pager.pages, fix) && FixAt(fix, Ids(t), old(pager.live), pager.live)
      ensures forall q :: q in old(pager.live) && q !in Ids(t) ==> pager.pages[q] == old(pager.pages)[q]
      decreases h, 0, 1
    {
      ghost var img, live := pager.pages, pager.live;
      assert pageNum in Ids(t);
      var i := FindIndex(page.cells, cell.key.rank, true);
      var child, kidSplit;
      ghost var kl, kr;
      ok, child, kidSplit, kl, kr, fix := InsertIntoKid(page, cell, i, t, lo, hi, h, nxt);
      if ok {
        split, l, r := InsertIntoInterior(pageNum, child, cell, i, kidSplit, img, t, kl, kr, lo, hi, h, nxt, live, fix);
      } else {
        split, l, r := NoSplit, t, t;
      }
    }

    /** The recursive call of insert_recursive. */
    method InsertIntoKid(page: Page, cell: Cell, i: nat, ghost t: Tree, ghost lo: int, ghost hi: int, ghost h: nat, ghost nxt: PageId)
      returns (ok: bool, child: PageId, split: Split, ghost l: Tree, ghost r: Tree, ghost fix: map<PageId, Page>)
      requires pager.Valid() && pager.txn.active && t.Fork? && t.id in pager.live
      requires Ids(t) <= pager.live && Good(kind, pager.pages, t, lo, hi, h, nxt) && page == pager.pages[t.id]
      requires cell.Row? && LenOk(kind, cell.key) && lo <= cell.key.rank < hi && CellCost(kind, cell) <= CAPACITY
      requires HasRank(Contents(t), cell.key.rank) ==> kind == Table
      requires IsBound(page.cells, cell.key.rank, true, i)
      modifies pager`disk, pager`tick, pager`run, pager`pages, pager`durable, pager.frames, pager.txn`file, pager.txn`journaled
      modifies pager`numPages, pager`freeListHead, pager`freeList, pager`live
      ensures pager.Valid() && pager.txn.active && pager.durable == old(pager.durable) && old(pager.live) <= pager.live
      ensures i < |t.kids| && child == t.kids[i].id && t.id !in Ids(t.kids[i]) && Ids(t.kids[i]) <= Ids(t)
      ensures ok <==> !HasRank(Contents(t), cell.key.rank)
      ensures !ok ==> pager.pages == old(pager.pages) && pager.live == old(pager.live)
      ensures ok ==> KidGrew(kind, old(pager.pages), Mended(pager.pages, fix), t, i, cell, split, l, r, lo, hi, h, nxt, old(pager.live), pager.live)
      ensures ok ==> (fix == map[] <==> SplitReadable(kind, t, cell)) && t.id !in fix
      ensures ok && Used(kind, LeafFor(t, cell.key.rank)) + CellCost(kind, cell) <= CAPACITY ==> split.NoSplit?
      ensures Patches(pager.pages, fix) && FixAt(fix, Ids(t), old(pager.live), pager.live)
      ensures forall q :: q in old(pager.live) && q !in Ids(t.kids[i]) ==> pager.pages[q] == old(pager.pages)[q]
      decreases h, 0, 0
    {
      ghost var img, live := pager.pages, pager.live;
      ToKid(kind, img, t, cell, i, lo, hi, h, nxt);
      child := if i < |page.cells| then page.cells[i].child else page.link;
      ok, split, l, r, fix := InsertRecursive(child, cell, t.kids[i], LoOf(t.keys, lo, i), HiOf(t.keys, hi, i), h - 1, NextOf(t.kids, nxt, i));
      if ok {
        GrownBelow(kind, img, pager.pages, fix, t, i, cell, split, l, r, lo, hi, h, nxt, live, pager.live);
      }
    }

    // ---------- the interface ----------

    /** btree_ensure_root */
    method EnsureRoot()
      requires Valid()
      modifies pager`disk, pager`tick, pager`run, pager`pages, pager`durable, pager.frames, pager.txn`file, pager.txn`journaled
      ensures Valid() && pager.pages[root] != Raw(0)
      ensures pager.pages == if old(pager.pages[root]) == Raw(0) then old(pager.pages)[root := Node(kind, true, [], 0)] else old(pager.pages)
      ensures pager.durable == old(pager.durable)
    {
      assert root in Ids(tree);
      var page := pager.Read(root);
      if page == Raw(0) {
        pager.Write(root, Node(kind, true, [], 0));
        assert Used(kind, []) == 0;
      }
    }

    /** The tree laid over the pages with some of them mended. */
    ghost predicate LaidBut(fix: map<PageId, Page>)
      reads this, pager
    {
      Patches(pager.pages, fix) && fix.Keys <= Ids(tree) && LaidOver(Mended(pager.pages, fix))
    }

    lemma LaidWhole(fix: map<PageId, Page>)
      requires LaidBut(fix)
      ensures fix == map[] ==> Laid()
    {
      NothingToMend(pager.pages);
    }

    /** insert_recursive from the root, and grow_root. */
    method Insert(cell: Cell) returns (ok: bool, ghost fix: map<PageId, Page>)
      requires Valid() && pager.pages[root] != Raw(0)
      requires cell.Row? && LenOk(kind, cell.key) && CellCost(kind, cell) <= CAPACITY
      requires HasRank(Rows(), cell.key.rank) ==> kind == Table
      modifies this
      modifies pager`disk, pager`tick, pager`run, pager`pages, pager`durable, pager.frames, pager.txn`file, pager.txn`journaled
      modifies pager`numPages, pager`freeListHead, pager`freeList, pager`live
      ensures pager.Valid() && pager.txn.active && LaidBut(fix) && OthersKept(old(Ids(tree)))
      ensures ok <==> !HasRank(old(Rows()), cell.key.rank)
      ensures ok ==> IsPut(kind, old(Rows()), LeafFor(old(tree), cell.key.rank), cell, Rows())
      ensures if ok then fix == map[] <==> SplitReadable(kind, old(tree), cell) else fix == map[] && tree == old(tree)
      ensures ok && Used(kind, LeafFor(old(tree), cell.key.rank)) + CellCost(kind, cell) <= CAPACITY ==> height == old(height)
    {
      WidenTo(cell.key.rank);
      var split;
      ghost var l, r;
      ok, split, l, r, fix := InsertRecursive(root, cell, tree, lo, hi, height, 0);
      if ok {
        GrownRoot(kind, Mended(pager.pages, fix), old(tree), cell, split, l, r, lo, hi, height, old(pager.live), pager.live);
        ghost var mid := pager.live;
        fix := TakeOver(split, l, r, fix);
        OthersStay(old(tree), NewIds(split, l, r), Ids(tree), old(pager.live), mid, pager.live);
      } else {
        fix := map[];
        NothingToMend(pager.pages);
      }
    }

    /** The last line of both inserts: the root grows if it was split. */
    method TakeOver(split: Split, ghost l: Tree, ghost r: Tree, ghost was: map<PageId, Page>) returns (ghost fix: map<PageId, Page>)
      requires pager.Valid() && pager.txn.active && l.id == root && Ids(l) <= pager.live
      requires Patches(pager.pages, was) && was.Keys <= NewIds(split, l, r)
      requires if split.NoSplit? then Good(kind, Mended(pager.pages, was), l, lo, hi, height, 0)
               else r.id == split.right && Ids(r) <= pager.live && Halved(kind, Mended(pager.pages, was), l, split.key, r, lo, hi, height)
      modifies this`tree, this`height
      modifies pager`disk, pager`tick, pager`run, pager`pages, pager`durable, pager.frames, pager.txn`file, pager.txn`journaled
      modifies pager`numPages, pager`freeListHead, pager`freeList, pager`live
      ensures pager.Valid() && pager.txn.active && LaidBut(fix) && Rows() == NewRows(split, l, r)
      ensures split.NoSplit? ==> height == old(height)
      ensures pager.durable == old(pager.durable) && (fix == map[] <==> was == map[])
      ensures NewIds(split, l, r) <= Ids(tree) && pager.live == old(pager.live) + Ids(tree)
      ensures Ids(tree) * old(pager.live) <= NewIds(split, l, r)
      ensures forall q :: q in old(pager.live) && q !in NewIds(split, l, r) ==> pager.pages[q] == old(pager.pages)[q]
    {
      if split.Promoted? {
        fix := GrowRoot(split, l, r, was);
      } else {
        fix := was;
        SetTree(l, height, fix);
      }
    }

    /** The pages of grow_root: the old root moves to a new page, the root page gets one separator. */
    method CopyRoot(split: Split) returns (newLeft: PageId)
      requires pager.Valid() && pager.txn.active && split.Promoted? && root in pager.live
      modifies pager`disk, pager`tick, pager`run, pager`pages, pager`durable, pager.frames, pager.txn`file, pager.txn`journaled
      modifies pager`numPages, pager`freeListHead, pager`freeList, pager`live
      ensures pager.Valid() && pager.txn.active && pager.durable == old(pager.durable)
      ensures newLeft !in old(pager.live) && pager.live == old(pager.live) + {newLeft}
      ensures pager.pages[newLeft] == old(pager.pages)[root]
      ensures pager.pages[root] == Node(kind, false, [Sep(split.key, newLeft)], split.right)
      ensures forall q :: q in old(pager.live) && q != root ==> pager.pages[q] == old(pager.pages)[q]
    {
      newLeft := pager.Allocate();
      var page := pager.Read(root);
      WriteBoth(newLeft, page, root, Node(kind, false, [Sep(split.key, newLeft)], split.right));
    }

    ghost method SetTree(t: Tree, h: nat, fix: map<PageId, Page>)
      requires pager.Valid() && t.id == root && Ids(t) <= pager.live && Laying(kind, pager.pages, fix, t, lo, hi, h)
      modifies this`tree, this`height
      ensures LaidBut(fix) && tree == t && height == h
    {
      assert Good(kind, Mended(pager.pages, fix), t, lo, hi, h, 0);
      tree, height := t, h;
    }

    ghost method WidenTo(rank: int)
      requires Valid() && pager.pages[root] != Raw(0)
      modifies this`lo, this`hi
      ensures Valid() && lo <= rank < hi
    {
      var lo', hi' := if rank < lo then rank else lo, if rank >= hi then rank + 1 else hi;
      Widen(kind, pager.pages, tree, lo, hi, height, 0, lo', hi');
      lo, hi := lo', hi';
    }

    /** grow_root; a garbled root page is garbled still where it is copied to. */
    method GrowRoot(split: Split, ghost l: Tree, ghost r: Tree, ghost was: map<PageId, Page>) returns (ghost fix: map<PageId, Page>)
      requires pager.Valid() && pager.txn.active && split.Promoted? && r.id == split.right && l.id == root
      requires Ids(l) <= pager.live && Ids(r) <= pager.live && Halved(kind, Mended(pager.pages, was), l, split.key, r, lo, hi, height)
      requires Patches(pager.pages, was) && was.Keys <= Ids(l) + Ids(r)
      modifies this`tree, this`height
      modifies pager`disk, pager`tick, pager`run, pager`pages, pager`durable, pager.frames, pager.txn`file, pager.txn`journaled
      modifies pager`numPages, pager`freeListHead, pager`freeList, pager`live
      ensures pager.Valid() && pager.txn.active && LaidBut(fix) && Rows() == Contents(l) + Contents(r)
      ensures pager.durable == old(pager.durable) && (fix == map[] <==> was == map[])
      ensures Ids(l) + Ids(r) <= Ids(tree) && pager.live == old(pager.live) + Ids(tree) && Ids(tree) * old(pager.live) <= Ids(l) + Ids(r)
      ensures forall q :: q in old(pager.live) && q !in Ids(l) + Ids(r) ==> pager.pages[q] == old(pager.pages)[q]
    {
      hide Good, Contents, Mended, Laying;
      ghost var img, live, t := pager.pages, pager.live, l;
      assert root in Ids(l);
      assert Halved(kind, Mended(img, was), l, split.key, r, lo, hi, height);
      var newLeft := CopyRoot(split);
      t, fix := RootMoves(kind, img, pager.pages, was, newLeft, l, split.key, r, lo, hi, height, live);
      SetTree(t, height + 1, fix);
    }

    /** btree_table_insert: refuses an oversized row and a rowid already there.  For any other
        the rows afterwards are the old ones with the new one in order exactly if the split
        of its leaf fits; else the leaf lost rows (IsPut), or is no page any more. */
    method TableInsert(rowid: int, payload: seq<Byte>) returns (ok: bool, ghost fix: map<PageId, Page>)
      requires Valid() && kind == Table
      modifies this
      modifies pager`disk, pager`tick, pager`run, pager`pages, pager`durable, pager.frames, pager.txn`file, pager.txn`journaled
      modifies pager`numPages, pager`freeListHead, pager`freeList, pager`live
      ensures pager.Valid() && pager.txn.active && LaidBut(fix) && OthersKept(old(Ids(tree)))
      ensures ok <==> 12 + |payload| <= CAPACITY - 2 && !HasRank(old(Rows()), rowid)
      ensures !ok ==> Valid() && tree == old(tree)
      ensures ok ==> IsPut(Table, old(Rows()), LeafFor(old(tree), rowid), Row(Key(rowid, 8), payload), Rows())
      ensures ok && SplitReadable(Table, old(tree), Row(Key(rowid, 8), payload)) ==> Valid()
      ensures ok && Used(Table, LeafFor(old(tree), rowid)) + 14 + |payload| <= CAPACITY ==> height == old(height)
      ensures ok ==> (Valid() && IsInserted(old(Rows()), Row(Key(rowid, 8), payload), Rows())
                      <==> SplitFits(Table, old(tree), Row(Key(rowid, 8), payload)))
    {
      fix := map[];
      NothingToMend(pager.pages);
      if 12 + |payload| > CAPACITY - 2 {
        return false, fix;
      }
      ok, fix := InsertInRoot(Row(Key(rowid, 8), payload));
    }

    method InsertInRoot(cell: Cell) returns (ok: bool, ghost fix: map<PageId, Page>)
      requires Valid() && cell.Row? && LenOk(kind, cell.key) && CellCost(kind, cell) <= CAPACITY
      requires HasRank(Rows(), cell.key.rank) ==> kind == Table
      modifies this
      modifies pager`disk, pager`tick, pager`run, pager`pages, pager`durable, pager.frames, pager.txn`file, pager.txn`journaled
      modifies pager`numPages, pager`freeListHead, pager`freeList, pager`live
      ensures pager.Valid() && pager.txn.active && LaidBut(fix) && OthersKept(old(Ids(tree)))
      ensures Outcome(kind, old(tree), old(height), cell, ok, Valid(), tree, height)
    {
      hide Good, Contents, Outcome, LaidBut;
      assert root in Ids(tree);
      EnsureRoot();
      ok, fix := InsertWhole(cell);
    }

    /** Insert, and when the tree is whole afterwards. */
    method InsertWhole(cell: Cell) returns (ok: bool, ghost fix: map<PageId, Page>)
      requires Valid() && pager.pages[root] != Raw(0)
      requires cell.Row? && LenOk(kind, cell.key) && CellCost(kind, cell) <= CAPACITY
      requires HasRank(Rows(), cell.key.rank) ==> kind == Table
      modifies this
      modifies pager`disk, pager`tick, pager`run, pager`pages, pager`durable, pager.frames, pager.txn`file, pager.txn`journaled
      modifies pager`numPages, pager`freeListHead, pager`freeList, pager`live
      ensures pager.Valid() && pager.txn.active && LaidBut(fix) && OthersKept(old(Ids(tree)))
      ensures Outcome(kind, old(tree), old(height), cell, ok, Valid(), tree, height)
    {
      ghost var was := tree;
      ok, fix := Insert(cell);
      LaidWhole(fix);
      if ok {
        WholeIffFits(kind, was, cell, Rows());
      }
    }

    /** btree_index_insert: the caller never inserts a key twice, since keys end in the rowid. */
    method IndexInsert(key: Key) returns (ok: bool)
      requires Valid() && kind == Index && LenOk(Index, key) && !HasRank(Rows(), key.rank)
      modifies this
      modifies pager`disk, pager`tick, pager`run, pager`pages, pager`durable, pager.frames, pager.txn`file, pager.txn`journaled
      modifies pager`numPages, pager`freeListHead, pager`freeList, pager`live
      ensures Valid() && OthersKept(old(Ids(tree)))
      ensures ok && IsInserted(old(Rows()), Row(key, []), Rows())
    {
      FitsInIndex(Row(key, []));
      ghost var fix;
      ok, fix := InsertInRoot(Row(key, []));
    }

    lemma FitsInIndex(cell: Cell)
      requires Valid() && kind == Index && LenOk(Index, cell.key) && cell.Row?
      ensures SplitFits(Index, tree, cell) && CellCost(Index, cell) <= CAPACITY
    {
      if pager.pages[root] == Raw(0) {
        FirstFits(Index, root, cell);
      } else {
        IndexSplitFits(pager.pages, tree, lo, hi, height, 0, cell);
      }
    }

    /** The descent that search, delete and seek share: the leaf for the key, and the first
        cell there that is not below it. */
    method Descend(rank: int) returns (pageNum: PageId, page: Page, idx: nat, ghost spot: Spot)
      requires Valid() && pager.pages[root] != Raw(0)
      modifies pager`disk, pager`tick, pager`run, pager`pages, pager`durable, pager.frames
      ensures Valid() && pager.pages == old(pager.pages) && pager.durable == old(pager.durable)
      ensures SpotOk(kind, pager.pages, tree, rank, spot) && spot.t.Tip? && spot.t.id == pageNum
      ensures page == pager.pages[pageNum] && page.Node? && page.cells == spot.t.rows
      ensures IsBound(page.cells, rank, false, idx)
      ensures HasRank(Rows(), rank) <==> idx < |page.cells| && page.cells[idx].key.rank == rank
    {
      hide Good, Contents, LeavesOf, Ids, SpotOk;
      pageNum := root;
      spot := StartSpot(kind, pager.pages, tree, lo, hi, height, rank);
      SpotPage(rank, spot);
      page := pager.Read(pageNum);
      while !page.leaf
        invariant Valid() && pager.pages == old(pager.pages) && pager.durable == old(pager.durable)
        invariant SpotOk(kind, pager.pages, tree, rank, spot) && spot.t.id == pageNum && page == pager.pages[pageNum] && page.Node?
        invariant (page.leaf <==> spot.t.Tip?) && (spot.t.Tip? ==> page.cells == spot.t.rows)
        decreases spot.h
      {
        var cidx := FindIndex(page.cells, rank, true);
        spot := StepDown(kind, pager.pages, tree, rank, spot, cidx);
        pageNum := if cidx < |page.cells| then page.cells[cidx].child else page.link;
        SpotPage(rank, spot);
        page := pager.Read(pageNum);
      }
      idx := FindIndex(page.cells, rank, false);
      SpotFinds(rank, spot, idx);
    }

    /** A subtree of the descent and its page. */
    lemma SpotPage(rank: int, spot: Spot)
      requires Valid() && SpotOk(kind, pager.pages, tree, rank, spot)
      ensures var page := pager.pages[spot.t.id];
              page.Node? && (page.leaf <==> spot.t.Tip?) && (spot.t.Tip? ==> page.cells == spot.t.rows)
    {}

    lemma SpotFinds(rank: int, spot: Spot, idx: nat)
      requires SpotOk(kind, pager.pages, tree, rank, spot) && spot.t.Tip? && IsBound(spot.t.rows, rank, false, idx)
      ensures HasRank(Rows(), rank) <==> idx < |spot.t.rows| && spot.t.rows[idx].key.rank == rank
    {
      HasRankAround(spot.before, spot.t.rows, spot.after, rank);
      BoundFinds(spot.t.rows, rank, idx);
    }

    /** btree_table_search */
    method TableSearch(rowid: int) returns (r: Option<seq<Byte>>)
      requires Valid()
      modifies pager`disk, pager`tick, pager`run, pager`pages, pager`durable, pager.frames, pager.txn`file, pager.txn`journaled
      ensures Valid() && pager.durable == old(pager.durable)
      ensures pager.pages == if old(pager.pages[root]) == Raw(0) then old(pager.pages)[root := Node(kind, true, [], 0)] else old(pager.pages)
      ensures r.Some? <==> HasRank(Rows(), rowid)
      ensures r.Some? ==> exists i :: 0 <= i < |Rows()| && Rows()[i].key.rank == rowid && Rows()[i].Row? && Rows()[i].payload == r.value
    {
      EnsureRoot();
      var pageNum, page, idx, spot := Descend(rowid);
      if idx < |page.cells| && page.cells[idx].key.rank == rowid {
        assert Rows()[|spot.before| + idx] == page.cells[idx];
        r := Some(page.cells[idx].payload);
      } else {
        r := None;
      }
    }

    /** btree_table_delete and btree_index_delete: no rebalancing, no page is freed. */
    method Delete(rank: int) returns (ok: bool)
      requires Valid()
      modifies this
      modifies pager`disk, pager`tick, pager`run, pager`pages, pager`durable, pager.frames, pager.txn`file, pager.txn`journaled
      ensures Valid() && OthersKept(old(Ids(tree))) && Ids(tree) == old(Ids(tree))
      ensures ok <==> HasRank(old(Rows()), rank)
      ensures if ok then IsRemoved(old(Rows()), rank, Rows()) else Rows() == old(Rows())
    {
      EnsureRoot();
      ok := DeleteFrom(rank);
    }

    method DeleteFrom(rank: int) returns (ok: bool)
      requires Valid() && pager.pages[root] != Raw(0)
      modifies this
      modifies pager`disk, pager`tick, pager`run, pager`pages, pager`durable, pager.frames, pager.txn`file, pager.txn`journaled
      ensures Valid() && pager.durable == old(pager.durable) && Ids(tree) == old(Ids(tree))
      ensures forall q: PageId :: q !in Ids(tree) ==> pager.pages[q] == old(pager.pages)[q]
      ensures ok <==> HasRank(old(Rows()), rank)
      ensures if ok then IsRemoved(old(Rows()), rank, Rows()) else Rows() == old(Rows())
    {
      WidenTo(rank);
      var pageNum, page, idx, spot := Descend(rank);
      ok := idx < |page.cells| && page.cells[idx].key.rank == rank;
      if ok {
        assert Reaches(spot.t, rank, pageNum);
        RemoveAt(pageNum, page, idx, rank);
      }
    }

    /** The cell goes from its leaf. */
    method RemoveAt(pageNum: PageId, page: Page, idx: nat, ghost rank: int)
      requires Valid() && pager.pages[root] != Raw(0) && lo <= rank < hi && Reaches(tree, rank, pageNum)
      requires page == pager.pages[pageNum] && page.Node? && idx < |page.cells| && page.cells[idx].key.rank == rank
      modifies this`tree, this`height
      modifies pager`disk, pager`tick, pager`run, pager`pages, pager`durable, pager.frames, pager.txn`file, pager.txn`journaled
      ensures Valid() && pager.durable == old(pager.durable) && Ids(tree) == old(Ids(tree))
      ensures forall q: PageId :: q !in Ids(tree) ==> pager.pages[q] == old(pager.pages)[q]
      ensures IsRemoved(old(Rows()), rank, Rows())
    {
      hide Good, Ids;
      ghost var t := TreeLoses(kind, pager.pages, tree, lo, hi, height, 0, rank, pageNum, idx);
      pager.Write(pageNum, WithoutCell(page, idx));
      NothingToMend(pager.pages);
      SetTree(t, height, map[]);
      LaidWhole(map[]);
    }

    // ---------- destroy ----------

    /** btree_destroy: every page of the tree goes to the free list, each exactly once. */
    method Destroy()
      requires Valid()
      modifies pager`disk, pager`tick, pager`run, pager`pages, pager`durable, pager.frames, pager.txn`file, pager.txn`journaled
      modifies pager`numPages, pager`freeListHead, pager`freeList, pager`live
      ensures pager.Valid() && pager.txn.active && pager.durable == old(pager.durable)
      ensures pager.live == old(pager.live) - Ids(tree)
      ensures forall q :: q in pager.live ==> pager.pages[q] == old(pager.pages)[q]
    {
      DestroyRecursive(root, tree, lo, hi, height, 0);
    }

    method DestroyRecursive(pageNum: PageId, ghost t: Tree, ghost lo: int, ghost hi: int, ghost h: nat, ghost nxt: PageId)
      requires pager.Valid() && pager.txn.active
      requires t.id == pageNum && Ids(t) <= pager.live
      requires if pager.pages[pageNum] == Raw(0) then t.Tip? else Good(kind, pager.pages, t, lo, hi, h, nxt)
      modifies pager`disk, pager`tick, pager`run, pager`pages, pager`durable, pager.frames, pager.txn`file, pager.txn`journaled
      modifies pager`numPages, pager`freeListHead, pager`freeList, pager`live
      ensures pager.Valid() && pager.txn.active && pager.durable == old(pager.durable)
      ensures pager.live == old(pager.live) - Ids(t)
      ensures forall q :: q in pager.live ==> pager.pages[q] == old(pager.pages)[q]
      decreases h, 1
    {
      assert pageNum in Ids(t);
      var page := pager.Read(pageNum);
      if page.Node? && !page.leaf {
        DestroyKids(page, t, lo, hi, h, nxt);
      }
      pager.Free(pageNum);
    }

    method DestroyKids(page: Page, ghost t: Tree, ghost lo: int, ghost hi: int, ghost h: nat, ghost nxt: PageId)
      requires pager.Valid() && pager.txn.active
      requires t.Fork? && Ids(t) <= pager.live && Good(kind, pager.pages, t, lo, hi, h, nxt) && page == pager.pages[t.id]
      modifies pager`disk, pager`tick, pager`run, pager`pages, pager`durable, pager.frames, pager.txn`file, pager.txn`journaled
      modifies pager`numPages, pager`freeListHead, pager`freeList, pager`live
      ensures pager.Valid() && pager.txn.active && pager.durable == old(pager.durable)
      ensures pager.live == old(pager.live) - IdsOf(t.kids)
      ensures forall q :: q in pager.live ==> pager.pages[q] == old(pager.pages)[q]
      decreases h, 0, 1
    {
      ghost var img, kids := pager.pages, t.kids;
      ForkKids(kind, img, t, lo, hi, h, nxt);
      var i := 0;
      while i <= |page.cells|
        invariant 0 <= i <= |kids|
        invariant pager.Valid() && pager.txn.active && pager.durable == old(pager.durable)
        invariant pager.live == old(pager.live) - IdsOf(kids[..i])
        invariant forall q :: q in pager.live ==> pager.pages[q] == img[q]
      {
        var child := if i < |page.cells| then page.cells[i].child else page.link;
        DestroyKid(child, i, img, t, lo, hi, h, nxt, old(pager.live));
        i := i + 1;
      }
      assert kids[..i] == kids;
    }

    method DestroyKid(child: PageId, ghost i: nat, ghost img: Image, ghost t: Tree, ghost lo: int, ghost hi: int, ghost h: nat, ghost nxt: PageId,
                      ghost live: set<PageId>)
      requires pager.Valid() && pager.txn.active
      requires t.Fork? && h > 0 && |t.kids| == |t.keys| + 1 && i < |t.kids| && child == t.kids[i].id && IdsOf(t.kids) <= live
      requires KidsGood(kind, img, t.keys, t.kids, lo, hi, h - 1, nxt) && Total(img)
      requires pager.live == live - IdsOf(t.kids[..i]) && forall q :: q in pager.live ==> pager.pages[q] == img[q]
      modifies pager`disk, pager`tick, pager`run, pager`pages, pager`durable, pager.frames, pager.txn`file, pager.txn`journaled
      modifies pager`numPages, pager`freeListHead, pager`freeList, pager`live
      ensures pager.Valid() && pager.txn.active && pager.durable == old(pager.durable)
      ensures pager.live == live - IdsOf(t.kids[..i + 1])
      ensures forall q :: q in pager.live ==> pager.pages[q] == img[q]
      decreases h, 0, 0
    {
      NextToDestroy(kind, img, pager.pages, t, lo, hi, h, nxt, i, live, pager.live);
      DestroyRecursive(child, t.kids[i], LoOf(t.keys, lo, i), HiOf(t.keys, hi, i), h - 1, NextOf(t.kids, nxt, i));
    }
  }

  /** What insert_recursive needs of the kid it descends to. */
  lemma ToKid(kind: Kind, img: Image, t: Tree, cell: Cell, i: nat, lo: int, hi: int, h: nat, nxt: PageId)
    requires t.Fork? && Good(kind, img, t, lo, hi, h, nxt) && lo <= cell.key.rank < hi
    requires IsBound(img[t.id].cells, cell.key.rank, true, i)
    ensures h > 0 && |t.kids| == |t.keys| + 1 && i < |t.kids| && Routes(t.keys, cell.key.rank, i)
    ensures var cells := img[t.id].cells;
            (i < |cells| ==> cells[i].Sep?) && t.kids[i].id == if i < |cells| then cells[i].child else img[t.id].link
    ensures LoOf(t.keys, lo, i) <= cell.key.rank < HiOf(t.keys, hi, i)
    ensures Good(kind, img, t.kids[i], LoOf(t.keys, lo, i), HiOf(t.keys, hi, i), h - 1, NextOf(t.kids, nxt, i))
    ensures Ids(t.kids[i]) <= Ids(t) && t.id !in Ids(t.kids[i])
    ensures HasRank(Contents(t), cell.key.rank) <==> HasRank(Contents(t.kids[i]), cell.key.rank)
    ensures LeafFor(t, cell.key.rank) == LeafFor(t.kids[i], cell.key.rank)
  {
    ForkKids(kind, img, t, lo, hi, h, nxt);
    RouteFound(t.keys, t.kids, cell.key.rank, i);
    RouteIs(t.keys, cell.key.rank, i);
    BelowKid(kind, img, t, cell.key.rank, i, lo, hi, h, nxt);
    assert KidGood(kind, img, t.keys, t.kids, lo, hi, h - 1, nxt, i);
    assert Kid(t.kids, i) == t.kids[i];
    assert Ids(t.kids[i]) <= IdsOf(t.kids);
  }

  /** The key is in the tree exactly when it is below the kid it routes to. */
  lemma BelowKid(kind: Kind, img: Image, t: Tree, rank: int, i: nat, lo: int, hi: int, h: nat, nxt: PageId)
    requires t.Fork? && Good(kind, img, t, lo, hi, h, nxt) && |t.kids| == |t.keys| + 1 && i < |t.kids|
    requires Routes(t.keys, rank, i) && lo <= rank < hi
    ensures LoOf(t.keys, lo, i) <= rank < HiOf(t.keys, hi, i)
    ensures HasRank(Contents(t), rank) <==> HasRank(Contents(t.kids[i]), rank)
  {
    ForkKids(kind, img, t, lo, hi, h, nxt);
    FlattenAround(t.kids, i);
    AroundKid(kind, img, t.keys, t.kids, lo, hi, h - 1, nxt, rank, i);
    HasRankAround(Flatten(t.kids[..i]), Contents(t.kids[i]), Flatten(t.kids[i + 1..]), rank);
  }

  /** The leaf and its sibling hold the halves exactly if these fit. */
  ghost predicate HoldsHalves(kind: Kind, img: Image, rows: seq<Cell>, i: nat, cell: Cell, left: PageId, right: PageId, nxt: PageId) {
    left in img && right in img && forall cells :: Splices(rows, i, cell, cells) ==>
      (img[left] == Node(kind, true, cells[..|cells| / 2], right) && img[right] == Node(kind, true, cells[|cells| / 2..], nxt)
       <==> HalvesFit(kind, cells))
  }

  /** What do_split makes of a page and its new sibling. */
  ghost predicate SplitOver(kind: Kind, leaf: bool, img: Image, cells: seq<Cell>, left: PageId, right: PageId, link: PageId) {
    && left in img && right in img && cells != [] && (leaf || cells[|cells| / 2].Sep?)
    && forall a, b :: Parts(leaf, cells, a, b) ==>
         && img[left] == PageOf(kind, leaf, Fill(kind, a, |a|), if leaf then right else cells[|cells| / 2].child)
         && img[right] == PageOf(kind, leaf, Fill(kind, b, |b|), link)
  }

  /** The cells of both pages; an interior page gives its middle cell away. */
  ghost predicate Parts(leaf: bool, cells: seq<Cell>, a: seq<Cell>, b: seq<Cell>) {
    var mid := |cells| / 2;
    cells != [] && a == cells[..mid] && b == if leaf then cells[mid..] else cells[mid + 1..]
  }

  lemma LeafSplits(kind: Kind, img: Image, img': Image, t: Tree, cell: Cell, i: nat, right: PageId,
                   lo: int, hi: int, nxt: PageId, live: set<PageId>)
    returns (l: Tree, r: Tree, fix: map<PageId, Page>)
    requires t.Tip? && Good(kind, img, t, lo, hi, 0, nxt) && t.id in live && right !in live && Total(img')
    requires cell.Row? && LenOk(kind, cell.key) && lo <= cell.key.rank < hi && !HasRank(t.rows, cell.key.rank)
    requires IsBound(t.rows, cell.key.rank, false, i) && |Spliced(t.rows, i, cell)| >= 2
    requires CellCost(kind, cell) <= CAPACITY < Used(kind, Spliced(t.rows, i, cell))
    requires SplitOver(kind, true, img', Spliced(t.rows, i, cell), t.id, right, nxt)
    ensures Grew(kind, Mended(img', fix), t, cell, Promoted(Spliced(t.rows, i, cell)[|Spliced(t.rows, i, cell)| / 2].key, right), l, r,
                  lo, hi, 0, nxt, live, live + {right})
    ensures HoldsHalves(kind, img', t.rows, i, cell, t.id, right, nxt)
    ensures fix == map[] <==> LeafSplitReadable(kind, t.rows, cell, i)
    ensures Patches(img', fix) && fix.Keys <= {t.id, right}
  {
    var cells := Spliced(t.rows, i, cell);
    assert Splices(t.rows, i, cell, cells);
    fix := HalvesFixed(kind, img', cells, t.id, right, nxt);
    l, r := Tip(t.id, LeftHalf(kind, cells).cells), Tip(right, RightHalf(kind, cells).cells);
    LeafSplitGrown(kind, img, Mended(img', fix), t, cell, i, cells, right, lo, hi, nxt, live);
    HalvesHeld(kind, img', t.rows, i, cell, t.id, right, nxt);
  }

  /** The garbled ones of both pages and what they would hold mended. */
  lemma HalvesFixed(kind: Kind, img: Image, cells: seq<Cell>, left: PageId, right: PageId, nxt: PageId) returns (fix: map<PageId, Page>)
    requires SplitOver(kind, true, img, cells, left, right, nxt) && left != right && Used(kind, cells) > CAPACITY && Total(img)
    ensures img[left] == PageOf(kind, true, LeftHalf(kind, cells), right) && img[right] == PageOf(kind, true, RightHalf(kind, cells), nxt)
    ensures Patches(img, fix) && fix.Keys <= {left, right} && (fix == map[] <==> HalvesReadable(kind, cells))
    ensures Mended(img, fix)[left] == Node(kind, true, LeftHalf(kind, cells).cells, right)
    ensures Mended(img, fix)[right] == Node(kind, true, RightHalf(kind, cells).cells, nxt)
  {
    assert Parts(true, cells, cells[..|cells| / 2], cells[|cells| / 2..]);
    var a, b := LeftHalf(kind, cells), RightHalf(kind, cells);
    fix := FixOf(kind, left, a, right) + FixOf(kind, right, b, nxt);
    assert (left in fix <==> a.garbled) && (right in fix <==> b.garbled);
  }

  lemma HalvesHeld(kind: Kind, img: Image, rows: seq<Cell>, i: nat, cell: Cell, left: PageId, right: PageId, nxt: PageId)
    requires i <= |rows|
    requires left in img && img[left] == PageOf(kind, true, LeftHalf(kind, Spliced(rows, i, cell)), right)
    requires right in img && img[right] == PageOf(kind, true, RightHalf(kind, Spliced(rows, i, cell)), nxt)
    ensures HoldsHalves(kind, img, rows, i, cell, left, right, nxt)
  {
    HalfPages(kind, Spliced(rows, i, cell), right, nxt);
    forall cells | Splices(rows, i, cell, cells)
      ensures img[left] == Node(kind, true, cells[..|cells| / 2], right) && img[right] == Node(kind, true, cells[|cells| / 2..], nxt)
              <==> HalvesFit(kind, cells)
    {
      assert cells == Spliced(rows, i, cell);
    }
  }

  lemma HalfPages(kind: Kind, cells: seq<Cell>, right: PageId, nxt: PageId)
    ensures PageOf(kind, true, LeftHalf(kind, cells), right) == Node(kind, true, cells[..|cells| / 2], right) <==> Used(kind, cells[..|cells| / 2]) <= CAPACITY
    ensures PageOf(kind, true, RightHalf(kind, cells), nxt) == Node(kind, true, cells[|cells| / 2..], nxt) <==> Used(kind, cells[|cells| / 2..]) <= CAPACITY
  {
    PageHeld(kind, cells[..|cells| / 2], right);
    PageHeld(kind, cells[|cells| / 2..], nxt);
  }

  lemma PageHeld(kind: Kind, cells: seq<Cell>, link: PageId)
    ensures PageOf(kind, true, Fill(kind, cells, |cells|), link) == Node(kind, true, cells, link) <==> Used(kind, cells) <= CAPACITY
  {
    FilledWhole(kind, cells);
  }

  /** The pages to mend after the root was copied. */
  ghost function Moves(fix: map<PageId, Page>, root: PageId, newLeft: PageId): map<PageId, Page> {
    if root in fix then (fix - {root})[newLeft := fix[root]] else fix
  }

  /** The pages of others through an insert and a grown root. */
  lemma OthersStay(t: Tree, ids: set<PageId>, ids': set<PageId>, live: set<PageId>, live': set<PageId>, live'': set<PageId>)
    requires Took(t, ids, live, live') && ids <= ids' && live'' == live' + ids' && ids' * live' <= ids
    ensures forall q :: q in live - Ids(t) ==> q in live' && q !in ids && q in live'' && q !in ids'
    ensures live'' - ids' == live - Ids(t)
  {}

  /** The grown tree at the root. */
  lemma GrownRoot(kind: Kind, img: Image, t: Tree, cell: Cell, split: Split, l: Tree, r: Tree, lo: int, hi: int, h: nat,
                  live: set<PageId>, live': set<PageId>)
    requires Grew(kind, img, t, cell, split, l, r, lo, hi, h, 0, live, live') && Ids(t) <= live
    ensures l.id == t.id && IsPut(kind, Contents(t), LeafFor(t, cell.key.rank), cell, NewRows(split, l, r))
    ensures Took(t, NewIds(split, l, r), live, live') && NewIds(split, l, r) <= live' && Ids(l) <= NewIds(split, l, r)
    ensures if split.NoSplit? then Good(kind, img, l, lo, hi, h, 0)
            else r.id == split.right && Halved(kind, img, l, split.key, r, lo, hi, h)
  {
    assert Grown(kind, img, t, cell, split, l, r, lo, hi, h, 0, live, live');
  }

  /** What there is to mend after the root was copied. */
  lemma MovesFix(img: Image, img': Image, was: map<PageId, Page>, root: PageId, newLeft: PageId, live: set<PageId>)
    returns (fix: map<PageId, Page>)
    requires Patches(img, was) && was.Keys <= live && Total(img) && Total(img') && root in live && newLeft !in live
    requires img'[newLeft] == img[root] && forall q :: q in live && q != root ==> img'[q] == img[q]
    ensures Patches(img', fix) && (fix == map[] <==> was == map[]) && root !in fix && fix.Keys <= was.Keys - {root} + {newLeft}
    ensures Mended(img', fix)[newLeft] == Mended(img, was)[root]
    ensures forall q :: q in live && q != root ==> Mended(img', fix)[q] == Mended(img, was)[q]
  {
    fix := Moves(was, root, newLeft);
    assert was != map[] ==> exists q :: q in was;
    assert root in was ==> newLeft in fix;
  }

  lemma RootSet(kind: Kind, img: Image, img': Image, newLeft: PageId, l: Tree, key: Key, r: Tree, lo: int, hi: int, h: nat, live: set<PageId>)
    returns (t: Tree)
    requires Halved(kind, img, l, key, r, lo, hi, h) && newLeft !in live && Ids(l) <= live && Ids(r) <= live && Total(img) && Total(img')
    requires l.id in Ids(l) && img'[l.id] == Node(kind, false, [Sep(key, newLeft)], r.id) && img'[newLeft] == img[l.id]
    requires forall q :: q in live && q != l.id ==> img'[q] == img[q]
    ensures t.id == l.id && Good(kind, img', t, lo, hi, h + 1, 0)
    ensures Contents(t) == Contents(l) + Contents(r) && Ids(t) == Ids(l) + Ids(r) + {newLeft}
  {
    assert TwoTrees(kind, img, l, key, r, lo, hi, h);
    t := RootGrows(kind, img, img', newLeft, l, key, r, lo, hi, h);
  }

  /** What an insertion did to a tree: valid says whether every page of it is one still. */
  ghost predicate Outcome(kind: Kind, was: Tree, h: nat, cell: Cell, ok: bool, valid: bool, now: Tree, h': nat) {
    var rank := cell.key.rank;
    && (ok <==> !HasRank(Contents(was), rank))
    && (!ok ==> valid && now == was)
    && (ok ==> IsPut(kind, Contents(was), LeafFor(was, rank), cell, Contents(now)))
    && (ok && SplitReadable(kind, was, cell) ==> valid)
    && (ok && Used(kind, LeafFor(was, rank)) + CellCost(kind, cell) <= CAPACITY ==> h' == h)
    && (ok ==> (valid && IsInserted(Contents(was), cell, Contents(now)) <==> SplitFits(kind, was, cell)))
  }

  /** Pages of which some are mended lay out a tree.  (The quantifier keeps Good folded.) */
  ghost predicate Laying(kind: Kind, img: Image, fix: map<PageId, Page>, t: Tree, lo: int, hi: int, h: nat) {
    && Patches(img, fix) && fix.Keys <= Ids(t)
    && forall w :: w == Mended(img, fix) ==> Good(kind, w, t, lo, hi, h, 0)
  }

  lemma RootMoves(kind: Kind, img: Image, img': Image, was: map<PageId, Page>, newLeft: PageId, l: Tree, key: Key, r: Tree,
                  lo: int, hi: int, h: nat, live: set<PageId>)
    returns (t: Tree, fix: map<PageId, Page>)
    requires Halved(kind, Mended(img, was), l, key, r, lo, hi, h) && newLeft !in live && Ids(l) <= live && Ids(r) <= live
    requires Patches(img, was) && was.Keys <= Ids(l) + Ids(r) && l.id in Ids(l) && Total(img) && Total(img')
    requires img'[l.id] == Node(kind, false, [Sep(key, newLeft)], r.id) && img'[newLeft] == img[l.id]
    requires forall q :: q in live && q != l.id ==> img'[q] == img[q]
    ensures t.id == l.id && Laying(kind, img', fix, t, lo, hi, h + 1)
    ensures Contents(t) == Contents(l) + Contents(r) && Ids(t) <= live + {newLeft}
    ensures Ids(l) + Ids(r) <= Ids(t) && live + Ids(t) == live + {newLeft} && Ids(t) * live <= Ids(l) + Ids(r)
    ensures fix == map[] <==> was == map[]
  {
    fix := MovesFix(img, img', was, l.id, newLeft, live);
    t := RootSet(kind, Mended(img, was), Mended(img', fix), newLeft, l, key, r, lo, hi, h, live);
  }

  lemma WholeIffFits(kind: Kind, was: Tree, cell: Cell, rows: seq<Cell>)
    requires IsPut(kind, Contents(was), LeafFor(was, cell.key.rank), cell, rows)
    ensures IsInserted(Contents(was), cell, rows) <==> SplitFits(kind, was, cell)
    ensures SplitFits(kind, was, cell) ==> SplitReadable(kind, was, cell)
  {
    PutInsertsIffFits(kind, Contents(was), LeafFor(was, cell.key.rank), cell, rows);
    if SplitFits(kind, was, cell) {
      FitsIsReadable(kind, was, cell);
    }
  }

  lemma ReadableAt(kind: Kind, t: Tree, cell: Cell, i: nat)
    requires t.Tip? && IsBound(t.rows, cell.key.rank, false, i)
    ensures SplitReadable(kind, t, cell) <==> LeafSplitReadable(kind, t.rows, cell, i)
  {
    OneBound(t.rows, cell.key.rank, i);
    assert LeafFor(t, cell.key.rank) == t.rows;
  }

  lemma OneBound(rows: seq<Cell>, rank: int, i: nat)
    requires IsBound(rows, rank, false, i)
    ensures forall j :: IsBound(rows, rank, false, j) ==> j == i
  {}

  lemma LeafCase(kind: Kind, t: Tree, cell: Cell, i: nat)
    requires t.Tip? && IsBound(t.rows, cell.key.rank, false, i)
    ensures Used(kind, Spliced(t.rows, i, cell)) == Used(kind, t.rows) + CellCost(kind, cell)
    ensures Used(kind, Spliced(t.rows, i, cell)) <= CAPACITY ==> SplitReadable(kind, t, cell)
    ensures SplitReadable(kind, t, cell) <==> LeafSplitReadable(kind, t.rows, cell, i)
  {
    SplicedUsed(kind, t.rows, cell, i);
    ReadableAt(kind, t, cell, i);
  }

  lemma BoundFinds(rows: seq<Cell>, rank: int, i: nat)
    requires Sorted(rows) && IsBound(rows, rank, false, i)
    ensures HasRank(rows, rank) <==> i < |rows| && rows[i].key.rank == rank
  {}

  lemma OverfullHasTwo(kind: Kind, rows: seq<Cell>, cell: Cell, i: nat)
    requires i <= |rows| && CellCost(kind, cell) <= CAPACITY < Used(kind, Spliced(rows, i, cell))
    ensures |Spliced(rows, i, cell)| >= 2
  {
    assert Used(kind, [cell]) == CellCost(kind, cell);
    assert Spliced([], 0, cell) == [cell];
  }

  lemma SplicedUsed(kind: Kind, cells: seq<Cell>, c: Cell, i: nat)
    requires i <= |cells|
    ensures Used(kind, Spliced(cells, i, c)) == Used(kind, cells) + CellCost(kind, c)
    ensures Spliced(cells, i, c)[..i] + Spliced(cells, i, c)[i + 1..] == cells
  {
    var s := Spliced(cells, i, c);
    assert s[..i] + s[i + 1..] == cells;
    UsedWithout(kind, s, i);
  }

  /** What an insert into kid i is for the page above it. */
  lemma GrownBelow(kind: Kind, img: Image, img': Image, fix: map<PageId, Page>, t: Tree, i: nat, cell: Cell, split: Split, l: Tree, r: Tree,
                   lo: int, hi: int, h: nat, nxt: PageId, live: set<PageId>, live': set<PageId>)
    requires t.Fork? && h > 0 && Good(kind, img, t, lo, hi, h, nxt) && Ids(t) <= live && Total(img) && Total(img')
    requires |t.kids| == |t.keys| + 1 && i < |t.kids| && Routes(t.keys, cell.key.rank, i) && t.id !in Ids(t.kids[i]) && t.id in live
    requires Grew(kind, Mended(img', fix), t.kids[i], cell, split, l, r, LoOf(t.keys, lo, i), HiOf(t.keys, hi, i), h - 1,
                   NextOf(t.kids, nxt, i), live, live')
    requires FixAt(fix, Ids(t.kids[i]), live, live') && Ids(t.kids[i]) <= Ids(t)
    requires forall q :: q in live && q !in Ids(t.kids[i]) ==> img'[q] == img[q]
    ensures KidGrew(kind, img, Mended(img', fix), t, i, cell, split, l, r, lo, hi, h, nxt, live, live')
    ensures t.id !in fix && FixAt(fix, Ids(t), live, live')
  {
    assert Grown(kind, Mended(img', fix), t.kids[i], cell, split, l, r, LoOf(t.keys, lo, i), HiOf(t.keys, hi, i), h - 1,
                 NextOf(t.kids, nxt, i), live, live');
    assert forall q :: q in live && q !in Ids(t.kids[i]) ==> q !in fix;
    assert KidGrown(kind, img, Mended(img', fix), t, i, cell, split, l, r, lo, hi, h, nxt, live, live');
  }

  /** The page with the child that was split replaced by its right sibling. */
  function Redirected(page: Page, i: nat, right: PageId): Page
    requires page.Node? && (i < |page.cells| ==> page.cells[i].Sep?)
  {
    if i < |page.cells| then page.(cells := page.cells[i := page.cells[i].(child := right)]) else page.(link := right)
  }

  /** The return to an interior page: its new keys and kids are in place, and, with a
      promoted key, its cells are those with the separator put in. */
  lemma KidReturned(kind: Kind, img: Image, now: Image, t: Tree, i: nat, cell: Cell, split: Split, l: Tree, r: Tree,
                    lo: int, hi: int, h: nat, nxt: PageId, live: set<PageId>, live': set<PageId>)
    requires KidGrew(kind, img, now, t, i, cell, split, l, r, lo, hi, h, nxt, live, live') && Total(now) && t.id in live && lo <= cell.key.rank < hi
    ensures t.id in live' && t.id in now && now[t.id].Node? && (i < |now[t.id].cells| ==> now[t.id].cells[i].Sep?)
    ensures var keys, kids := KeysAfter(t.keys, i, split), KidsAfter(t.kids, i, split, l, r);
            && Primed(kind, now, t, cell, keys, kids, lo, hi, h, nxt, live, live')
            && if split.NoSplit? then
                 Grew(kind, now, t, cell, NoSplit, Fork(t.id, keys, kids), Fork(t.id, keys, kids), lo, hi, h, nxt, live, live')
               else
                 && SeparatorFits(kind, Redirected(now[t.id], i, split.right), i, keys, kids, Sep(split.key, t.kids[i].id))
  {
    var keys, kids := KeysAfter(t.keys, i, split), KidsAfter(t.kids, i, split, l, r);
    assert KidGrown(kind, img, now, t, i, cell, split, l, r, lo, hi, h, nxt, live, live');
    InteriorPage(kind, img, now, t, i, cell, split, l, r, lo, hi, h, nxt, live, live');
    assert Prepared(kind, now, t, cell, keys, kids, lo, hi, h, nxt, live, live') by {
      KidGrownPrepares(kind, img, now, now, t, i, cell, split, l, r, lo, hi, h, nxt, live, live');
    }
    if split.NoSplit? {
      ForkGrown(kind, now, t, cell, keys, kids, lo, hi, h, nxt, live, live');
    } else {
      RedirectUsed(kind, t.keys, t.kids, i, split.right);
    }
  }

  /** With the cell put in at i the page has the cells of these keys and kids. */
  ghost predicate SeparatorFits(kind: Kind, page: Page, i: nat, keys: seq<Key>, kids: seq<Tree>, newCell: Cell) {
    && page.Node? && page.kind == kind && !page.leaf && i <= |page.cells| && Used(kind, page.cells) <= CAPACITY
    && |kids| == |keys| + 1 && Spliced(page.cells, i, newCell) == Seps(keys, kids) && page.link == kids[|keys|].id
  }

  /** The page of t was not touched below it; with a promoted key, its new cells. */
  lemma InteriorPage(kind: Kind, img: Image, img': Image, t: Tree, i: nat, cell: Cell, split: Split, l: Tree, r: Tree,
                     lo: int, hi: int, h: nat, nxt: PageId, live: set<PageId>, live': set<PageId>)
    requires KidGrown(kind, img, img', t, i, cell, split, l, r, lo, hi, h, nxt, live, live') && t.id in live
    ensures t.id in img' && img'[t.id] == Node(kind, false, Seps(t.keys, t.kids), t.kids[|t.keys|].id)
    ensures Used(kind, Seps(t.keys, t.kids)) <= CAPACITY && live <= live'
    ensures var keys, kids := KeysAfter(t.keys, i, split), KidsAfter(t.kids, i, split, l, r);
            && |kids| == |keys| + 1
            && if split.NoSplit?
               then Seps(keys, kids) == Seps(t.keys, t.kids) && kids[|keys|].id == t.kids[|t.keys|].id
               else && Seps(keys, kids) == CellsAfter(Seps(t.keys, t.kids), i, split.key, t.kids[i].id, split.right)
                    && kids[|keys|].id == (if i < |t.keys| then t.kids[|t.keys|].id else split.right)
  {
    ForkKids(kind, img, t, lo, hi, h, nxt);
    assert t.id !in Ids(t.kids[i]);
    CellsOfGrown(t.keys, t.kids, i, split, l, r);
  }

  lemma CellsOfGrown(keys: seq<Key>, kids: seq<Tree>, i: nat, split: Split, l: Tree, r: Tree)
    requires |kids| == |keys| + 1 && i < |kids| && l.id == kids[i].id && (split.Promoted? ==> r.id == split.right)
    ensures var keys', kids' := KeysAfter(keys, i, split), KidsAfter(kids, i, split, l, r);
            && |kids'| == |keys'| + 1
            && if split.NoSplit?
               then Seps(keys', kids') == Seps(keys, kids) && kids'[|keys'|].id == kids[|keys|].id
               else && Seps(keys', kids') == CellsAfter(Seps(keys, kids), i, split.key, kids[i].id, split.right)
                    && kids'[|keys'|].id == (if i < |keys| then kids[|keys|].id else split.right)
  {
    if split.Promoted? {
      SepsAfter(keys, kids, i, split, l, r);
    }
  }

  lemma PreparedFrame(kind: Kind, img: Image, img': Image, t: Tree, cell: Cell, keys: seq<Key>, kids: seq<Tree>,
                      lo: int, hi: int, h: nat, nxt: PageId, live: set<PageId>, live': set<PageId>)
    requires Prepared(kind, img, t, cell, keys, kids, lo, hi, h, nxt, live, live')
    requires forall q :: q in live' && q != t.id ==> q in img' && q in img && img'[q] == img[q]
    ensures Prepared(kind, img', t, cell, keys, kids, lo, hi, h, nxt, live, live')
  {
    KidsFrame(kind, img, img', keys, kids, lo, hi, h - 1, nxt);
  }

  /** A changed child pointer does not change what the cells use. */
  lemma RedirectUsed(kind: Kind, keys: seq<Key>, kids: seq<Tree>, i: nat, right: PageId)
    requires |kids| == |keys| + 1
    ensures var cells := Seps(keys, kids);
            i < |cells| ==> Used(kind, cells[i := cells[i].(child := right)]) == Used(kind, cells)
  {
    var cells := Seps(keys, kids);
    if i < |cells| {
      var cells' := cells[i := cells[i].(child := right)];
      UsedWithout(kind, cells, i);
      UsedWithout(kind, cells', i);
      assert cells[..i] + cells[i + 1..] == cells'[..i] + cells'[i + 1..];
    }
  }

  /** Both sides of the cell at mid are the cells of a page and fit it. */
  ghost predicate SplitSeps(kind: Kind, keys: seq<Key>, kids: seq<Tree>, mid: nat) {
    && |kids| == |keys| + 1 && mid < |keys|
    && var cells := Seps(keys, kids);
       && cells[..mid] == Seps(keys[..mid], kids[..mid + 1]) && cells[mid + 1..] == Seps(keys[mid + 1..], kids[mid + 1..])
       && Used(kind, cells[..mid]) <= CAPACITY && Used(kind, cells[mid + 1..]) <= CAPACITY
  }

  /** A split interior page and its sibling hold both sides. */
  lemma SepsHeld(kind: Kind, img: Image, keys: seq<Key>, kids: seq<Tree>, cells: seq<Cell>, left: PageId, right: PageId)
    requires |kids| == |keys| + 1 && cells == Seps(keys, kids) && cells != [] && SplitSeps(kind, keys, kids, |cells| / 2)
    requires SplitOver(kind, false, img, cells, left, right, kids[|keys|].id)
    ensures var mid := |cells| / 2;
            && img[left] == Node(kind, false, Seps(keys[..mid], kids[..mid + 1]), kids[mid].id)
            && img[right] == Node(kind, false, Seps(keys[mid + 1..], kids[mid + 1..]), kids[|keys|].id)
            && Used(kind, Seps(keys[..mid], kids[..mid + 1])) <= CAPACITY
            && Used(kind, Seps(keys[mid + 1..], kids[mid + 1..])) <= CAPACITY
            && cells[mid].key == keys[mid]
  {
    var mid := |cells| / 2;
    assert Parts(false, cells, cells[..mid], cells[mid + 1..]);
    FillKeepsAllIffFits(kind, cells[..mid]);
    FillKeepsAllIffFits(kind, cells[mid + 1..]);
  }

  lemma StaysPrimed(kind: Kind, img: Image, img': Image, t: Tree, cell: Cell, keys: seq<Key>, kids: seq<Tree>,
                    lo: int, hi: int, h: nat, nxt: PageId, live: set<PageId>, live': set<PageId>, fix: map<PageId, Page>)
    requires Primed(kind, Mended(img, fix), t, cell, keys, kids, lo, hi, h, nxt, live, live') && Total(img) && Total(img')
    requires forall q: PageId :: q != t.id ==> img'[q] == img[q]
    ensures Primed(kind, Mended(img', fix), t, cell, keys, kids, lo, hi, h, nxt, live, live')
  {
    assert Prepared(kind, Mended(img, fix), t, cell, keys, kids, lo, hi, h, nxt, live, live');
    PreparedFrame(kind, Mended(img, fix), Mended(img', fix), t, cell, keys, kids, lo, hi, h, nxt, live, live');
  }

  lemma InPlace(kind: Kind, img: Image, img': Image, t: Tree, cell: Cell, keys: seq<Key>, kids: seq<Tree>,
                lo: int, hi: int, h: nat, nxt: PageId, live: set<PageId>, live': set<PageId>, fix: map<PageId, Page>)
    requires Primed(kind, Mended(img, fix), t, cell, keys, kids, lo, hi, h, nxt, live, live') && Total(img) && Total(img')
    requires t.id !in fix && Used(kind, Seps(keys, kids)) <= CAPACITY
    requires img'[t.id] == Node(kind, false, Seps(keys, kids), kids[|keys|].id) && forall q: PageId :: q != t.id ==> img'[q] == img[q]
    ensures Grew(kind, Mended(img', fix), t, cell, NoSplit, Fork(t.id, keys, kids), Fork(t.id, keys, kids), lo, hi, h, nxt, live, live')
  {
    assert Prepared(kind, Mended(img, fix), t, cell, keys, kids, lo, hi, h, nxt, live, live');
    PreparedFrame(kind, Mended(img, fix), Mended(img', fix), t, cell, keys, kids, lo, hi, h, nxt, live, live');
    ForkGrown(kind, Mended(img', fix), t, cell, keys, kids, lo, hi, h, nxt, live, live');
  }

  lemma SplitPrimed(kind: Kind, img: Image, t: Tree, cell: Cell, keys: seq<Key>, kids: seq<Tree>,
                    lo: int, hi: int, h: nat, nxt: PageId, live: set<PageId>, live': set<PageId>, i: nat, cells: seq<Cell>)
    requires Primed(kind, img, t, cell, keys, kids, lo, hi, h, nxt, live, live') && cells == Seps(keys, kids) && i < |cells|
    requires Used(kind, cells[..i] + cells[i + 1..]) <= CAPACITY < Used(kind, cells)
    ensures SplitSeps(kind, keys, kids, |cells| / 2)
  {
    assert Prepared(kind, img, t, cell, keys, kids, lo, hi, h, nxt, live, live');
    OverfullSplits(kind, keys, kids, i, cells, lo, hi);
  }

  lemma InteriorSplits(kind: Kind, img: Image, img': Image, t: Tree, cell: Cell, keys: seq<Key>, kids: seq<Tree>, cells: seq<Cell>,
                       lo: int, hi: int, h: nat, nxt: PageId, live: set<PageId>, live': set<PageId>, right: PageId, fix: map<PageId, Page>)
    returns (l: Tree, r: Tree)
    requires Primed(kind, Mended(img, fix), t, cell, keys, kids, lo, hi, h, nxt, live, live') && Total(img) && Total(img')
    requires t.id !in fix && right !in live' && FixAt(fix, Ids(t), live, live')
    requires cells == Seps(keys, kids) && cells != [] && SplitSeps(kind, keys, kids, |cells| / 2)
    requires SplitOver(kind, false, img', cells, t.id, right, kids[|keys|].id)
    requires forall q :: q in live' && q != t.id ==> img'[q] == img[q]
    ensures Grew(kind, Mended(img', fix), t, cell, Promoted(cells[|cells| / 2].key, right), l, r, lo, hi, h, nxt, live, live' + {right})
  {
    var mid := |cells| / 2;
    assert Prepared(kind, Mended(img, fix), t, cell, keys, kids, lo, hi, h, nxt, live, live');
    PreparedFrame(kind, Mended(img, fix), Mended(img', fix), t, cell, keys, kids, lo, hi, h, nxt, live, live');
    SepsHeld(kind, img', keys, kids, cells, t.id, right);
    ForkSplitGrown(kind, Mended(img', fix), t, cell, keys, kids, lo, hi, h, nxt, live, live', mid, right);
    l, r := Fork(t.id, keys[..mid], kids[..mid + 1]), Fork(right, keys[mid + 1..], kids[mid + 1..]);
  }

  lemma OverfullSplits(kind: Kind, keys: seq<Key>, kids: seq<Tree>, i: nat, cells: seq<Cell>, lo: int, hi: int)
    requires |kids| == |keys| + 1 && cells == Seps(keys, kids) && KeysOk(kind, keys, lo, hi) && i < |cells|
    requires Used(kind, cells[..i] + cells[i + 1..]) <= CAPACITY < Used(kind, cells)
    ensures SplitSeps(kind, keys, kids, |cells| / 2)
  {
    NarrowCellsSplit(kind, cells, i);
    var mid := |cells| / 2;
    SepsSplit(keys, kids, mid);
    assert cells[mid..] == [cells[mid]] + cells[mid + 1..];
    UsedConcat(kind, [cells[mid]], cells[mid + 1..]);
  }

  /** The kids not yet destroyed are intact. */
  lemma NextToDestroy(kind: Kind, img: Image, img': Image, t: Tree, lo: int, hi: int, h: nat, nxt: PageId, i: nat,
                      live: set<PageId>, live': set<PageId>)
    requires t.Fork? && h > 0 && |t.kids| == |t.keys| + 1 && KidsGood(kind, img, t.keys, t.kids, lo, hi, h - 1, nxt) && IdsOf(t.kids) <= live
    requires i < |t.kids| && live' == live - IdsOf(t.kids[..i])
    requires forall q :: q in live' ==> q in img' && q in img && img'[q] == img[q]
    ensures Good(kind, img', t.kids[i], LoOf(t.keys, lo, i), HiOf(t.keys, hi, i), h - 1, NextOf(t.kids, nxt, i))
    ensures Ids(t.kids[i]) <= live' && IdsOf(t.kids[..i + 1]) == IdsOf(t.kids[..i]) + Ids(t.kids[i])
  {
    hide *;
    ApartKids(kind, img, t.keys, t.kids, lo, hi, h - 1, nxt);
    IdsOfNext(t.kids, i);
    AgreeOn(img, img', live', Ids(t.kids[i]));
    NextIsGood(kind, img, img', t.keys, t.kids, lo, hi, h - 1, nxt, i);
  }

  lemma ApartKids(kind: Kind, img: Image, keys: seq<Key>, kids: seq<Tree>, lo: int, hi: int, h: nat, nxt: PageId)
    requires KidsGood(kind, img, keys, kids, lo, hi, h, nxt)
    ensures KidsApart(kids)
  {}

  lemma AgreeOn(img: Image, img': Image, live: set<PageId>, ids: set<PageId>)
    requires ids <= live && forall q :: q in live ==> q in img' && q in img && img'[q] == img[q]
    ensures Agree(img, img', ids)
  {}

  lemma NextIsGood(kind: Kind, img: Image, img': Image, keys: seq<Key>, kids: seq<Tree>, lo: int, hi: int, h: nat, nxt: PageId, i: nat)
    requires |kids| == |keys| + 1 && i < |kids| && KidsGood(kind, img, keys, kids, lo, hi, h, nxt) && Agree(img, img', Ids(kids[i]))
    ensures Good(kind, img', kids[i], LoOf(keys, lo, i), HiOf(keys, hi, i), h, NextOf(kids, nxt, i))
  {
    assert KidGood(kind, img, keys, kids, lo, hi, h, nxt, i);
    GoodFrame(kind, img, img', kids[i], LoOf(keys, lo, i), HiOf(keys, hi, i), h, NextOf(kids, nxt, i));
  }

  lemma IdsOfNext(kids: seq<Tree>, i: nat)
    requires KidsApart(kids) && i < |kids|
    ensures Ids(kids[i]) <= IdsOf(kids) && Ids(kids[i]) !! IdsOf(kids[..i])
    ensures IdsOf(kids[..i + 1]) == IdsOf(kids[..i]) + Ids(kids[i])
  {
    forall q | q in IdsOf(kids[..i]) ensures q !in Ids(kids[i]) {
      var j :| 0 <= j < i && q in Ids(kids[..i][j]);
      assert Ids(kids[j]) !! Ids(kids[i]);
    }
    IdsOfOneMore(kids, i);
  }

  lemma IdsOfOneMore(kids: seq<Tree>, i: nat)
    requires i < |kids|
    ensures IdsOf(kids[..i + 1]) == IdsOf(kids[..i]) + Ids(kids[i])
  {
    IdsConcat(kids[..i], [kids[i]]);
    assert kids[..i + 1] == kids[..i] + [kids[i]];
    IdsFew(kids[i], kids[i]);
  }
}
