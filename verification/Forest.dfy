/** The pages of a whole database: every page is the header, on the free list, or in exactly
    one tree.  The trees are laid over one pager; the operations of btree.c work on one of
    them at a time and leave the others as they are. */
module Forests {
  import opened Pages
  import opened Journal
  import opened Trees
  import opened Splits
  import opened Inserts
  import opened Deletes
  import opened BTrees
  import opened Cursors
  import Pager

  /** What stands at a root page. */
  datatype Plot = Plot(kind: Kind, tree: Tree, lo: int, hi: int, height: nat)

  type Plots = map<PageId, Plot>

  /** A new root page may still be all zeros. */
  ghost predicate Grows(img: Image, root: PageId, p: Plot)
    requires Total(img)
  {
    && p.tree.id == root
    && if img[root] == Raw(0) then p.tree == Tip(root, []) && p.height == 0
       else Good(p.kind, img, p.tree, p.lo, p.hi, p.height, 0)
  }

  ghost predicate AllGrow(img: Image, plots: Plots, live: set<PageId>)
    requires Total(img)
  {
    forall r :: r in plots ==> Grows(img, r, plots[r]) && Ids(plots[r].tree) <= live
  }

  ghost predicate Separate(plots: Plots) {
    forall r, s :: r in plots && s in plots && r != s ==> Ids(plots[r].tree) !! Ids(plots[s].tree)
  }

  ghost predicate Owned(plots: Plots, live: set<PageId>) {
    forall q :: q in live ==> exists r :: r in plots && q in Ids(plots[r].tree)
  }

  /** Each owned page is in exactly one tree. */
  ghost predicate Planted(img: Image, plots: Plots, live: set<PageId>) {
    Total(img) && AllGrow(img, plots, live) && Separate(plots) && Owned(plots, live)
  }

  /** The pages of an image that a crash may show: conserved, and the ones in use each in
      exactly one tree. */
  ghost predicate Sown(img: Image, b: Pager.Begun, plots: Plots) {
    b.pages == img && Pager.ConservedBegun(b) && Planted(img, plots, b.live)
  }

  ghost predicate AllSown(images: iset<Image>) {
    forall img :: img in images ==> exists b: Pager.Begun, plots :: Sown(img, b, plots)
  }

  lemma SownWith(images: iset<Image>, b: Pager.Begun, plots: Plots)
    requires AllSown(images) && Sown(b.pages, b, plots)
    ensures AllSown(images + iset{b.pages})
  {
    forall img | img in images + iset{b.pages} ensures exists c: Pager.Begun, ps :: Sown(img, c, ps) {
      assert img in images || Sown(img, b, plots);
    }
  }

  /** The same, folded until Planted is named. */
  ghost predicate WasPlanted(img: Image, plots: Plots, live: set<PageId>) {
    Total(img) && forall p :: p == plots ==> Planted(img, p, live)
  }

  /** The same trees, and only those at these roots changed. */
  ghost predicate SamePlots(a: Plots, b: Plots, roots: set<PageId>) {
    a.Keys == b.Keys && forall r :: r in a ==> a[r].kind == b[r].kind && (r !in roots ==> a[r] == b[r])
  }

  /** The same, folded until SamePlots is named. */
  ghost predicate Alike(a: Plots, b: Plots, roots: set<PageId>) {
    forall w :: w == roots ==> SamePlots(a, b, w)
  }

  lemma AlikeSelf(plots: Plots, roots: set<PageId>)
    ensures Alike(plots, plots, roots)
  {}

  lemma AlikeBut(plots: Plots, root: PageId, p: Plot)
    requires root in plots && p.kind == plots[root].kind
    ensures Alike(plots, plots[root := p], {root})
  {
    assert SamePlots(plots, plots[root := p], {root});
  }

  lemma AlikeThrough(a: Plots, b: Plots, c: Plots, roots: set<PageId>, more: set<PageId>)
    requires Alike(a, b, roots) && Alike(b, c, more)
    ensures Alike(a, c, roots + more) && (roots == more ==> Alike(a, c, roots))
  {
    assert SamePlots(a, b, roots) && SamePlots(b, c, more) && SamePlots(a, c, roots + more);
    assert roots == more ==> roots + more == roots;
  }

  /** What the insertion of a row did to a table tree: the row is in its place among the
      others exactly if the split of its leaf, if there was one, fits. */
  ghost predicate RowCame(p: Plot, p': Plot, cell: Cell) {
    && IsPut(Table, Contents(p.tree), LeafFor(p.tree, cell.key.rank), cell, Contents(p'.tree))
    && (IsInserted(Contents(p.tree), cell, Contents(p'.tree)) <==> SplitFits(Table, p.tree, cell))
    && (Used(Table, LeafFor(p.tree, cell.key.rank)) + CellCost(Table, cell) <= CAPACITY ==> p'.height == p.height)
  }

  /** The same, folded until RowCame is named. */
  ghost predicate Came(p: Plot, p': Plot, cell: Cell) {
    forall c :: c == cell ==> RowCame(p, p', c)
  }

  /** A cursor's first and next to the end. */
  method ReadAll(t: BTree) returns (rows: seq<Cell>)
    requires t.Valid()
    modifies t.pager`disk, t.pager`tick, t.pager`run, t.pager`pages, t.pager`durable, t.pager.frames, t.pager.txn`file, t.pager.txn`journaled
    ensures t.Valid() && t.pager.durable == old(t.pager.durable) && rows == t.Rows() && Sorted(rows)
    ensures forall q :: q in t.pager.live && q != t.root ==> t.pager.pages[q] == old(t.pager.pages[q])
  {
    var c := new Cursor(t);
    rows := c.Scan();
  }

  class Forest {
    const pager: Pager.Pager
    ghost var plots: Plots
    // as they were at the last begin
    ghost var begun: Plots

    ghost predicate Valid()
      reads this, pager, pager.frames, pager.txn
    {
      && pager.Valid()
      && WasPlanted(pager.pages, plots, pager.live)
      && (pager.txn.active ==> forall p :: p == begun ==> Planted(pager.begun.pages, p, pager.begun.live))
      && (forall w :: w == pager.images ==> AllSown(w))
    }

    ghost predicate InTxn()
      reads this, pager, pager.frames, pager.txn
    {
      Valid() && pager.txn.active
    }

    ghost function Rows(root: PageId): seq<Cell>
      requires root in plots
      reads this
    {
      Contents(plots[root].tree)
    }

    ghost function Repr(): set<object> {
      {this, pager, pager.frames, pager.txn}
    }

    /** No tree but these has changed, and nothing is durable yet. */
    twostate predicate SameBut(roots: set<PageId>)
      reads this, pager
    {
      Alike(old(plots), plots, roots) && pager.durable == old(pager.durable)
    }

    lemma PlotsPlanted()
      requires Valid()
      ensures Planted(pager.pages, plots, pager.live)
    {}

    lemma RowsInOrder(root: PageId)
      requires InTxn() && root in plots
      ensures Sorted(Rows(root))
    {
      assert Planted(pager.pages, plots, pager.live);
      var p := plots[root];
      assert Grows(pager.pages, root, p);
      if pager.pages[root] != Raw(0) {
        GoodContents(p.kind, pager.pages, p.tree, p.lo, p.hi, p.height, 0);
      }
    }

    /** A new row of splittable cells keeps every row. */
    lemma FitsAmong(root: PageId, cells: iset<Cell>, cell: Cell)
      requires InTxn() && root in plots && plots[root].kind == Table && Splittable(Table, cells)
      requires (forall c :: c in Rows(root) ==> c in cells && CellCost(Table, c) <= CAPACITY) && OfCells(Table, [cell], cells)
      requires cell.Row? && !HasRank(Rows(root), cell.key.rank)
      ensures SplitFits(Table, plots[root].tree, cell)
    {
      hide Good, Splittable, SplitFits;
      assert [cell][0] == cell;
      assert Planted(pager.pages, plots, pager.live);
      var p := plots[root];
      assert Grows(pager.pages, root, p);
      if pager.pages[root] != Raw(0) {
        SplittableFits(Table, cells, pager.pages, p.tree, p.lo, p.hi, p.height, 0, cell);
      } else {
        FirstFits(Table, root, cell);
      }
    }

    /** A new database: page 2 is the root of the catalog. */
    constructor Create()
      ensures Valid() && fresh(pager.Repr()) && !pager.txn.active
      ensures plots == map[2 := Plot(Table, Tip(2, []), 0, 1, 0)]
    {
      hide Pager.Conserved;
      pager := new Pager.Pager.Create();
      plots, begun := map[2 := Plot(Table, Tip(2, []), 0, 1, 0)], map[];
      new;
      OneMore(pager.pages, pager.pages, map[], {}, 2, Table);
      ghost var b := pager.Present();
      SownWith(iset{}, b, plots);
      assert pager.images == iset{} + iset{b.pages};
    }

    /** A database after a crash: what was planted in the image that the file and the journal
        show is there again. */
    constructor Reopen(disk: map<PageId, Page>, file: JournalFile, ghost b: Pager.Begun, ghost plots: Plots)
      requires Pager.LeftGood(disk, file) && Sown(Journal.Durable(Pager.Left(disk, file)), b, plots)
      ensures Valid() && fresh(pager.Repr()) && !pager.txn.active && this.plots == plots && pager.pages == b.pages
    {
      var p := Pager.OpenAndRecover(disk, file, b);
      pager := p;
      this.plots, begun := plots, map[];
      new;
      SownWith(iset{}, b, plots);
      assert pager.images == iset{} + iset{b.pages};
    }

    /** Cut the life of a database after any journal step of any of its operations: the file
        and the journal can be opened again, and show the pages of some commit (or of the
        start), where every page is the header, on the free list or in exactly one tree. */
    lemma CrashLeavesTrees(k: nat) returns (b: Pager.Begun, ps: Plots)
      requires Valid() && k <= |pager.run.steps|
      ensures IsRun(pager.run)
      ensures var s := pager.run.states[k];
              && Pager.LeftGood(s.disk, s.journal) && Sown(Journal.Durable(Pager.Left(s.disk, s.journal)), b, ps)
              && b.pages == LastCommitted(pager.run, k)
    {
      pager.ImagesIntact();
      pager.CrashLeavesGoodFile(k);
      assert AllSown(pager.images);
      b, ps :| Sown(LastCommitted(pager.run, k), b, ps);
    }

    /** Now, it shows the trees of the last begin, or the present ones between transactions. */
    lemma CrashNow() returns (b: Pager.Begun)
      requires Valid()
      ensures Sown(pager.durable, b, if pager.txn.active then begun else plots)
    {
      b := pager.AtLastCommit();
      if pager.txn.active {
        assert Planted(pager.begun.pages, begun, pager.begun.live);
      } else {
        assert Planted(pager.pages, plots, pager.live);
      }
    }

    /** btree_init */
    method TreeAt(root: PageId, kind: Kind) returns (t: BTree)
      requires InTxn() && root in plots && plots[root].kind == kind
      ensures fresh(t) && t.pager == pager && t.root == root && t.Valid()
      ensures Plot(t.kind, t.tree, t.lo, t.hi, t.height) == plots[root]
    {
      ghost var p := plots[root];
      t := new BTree(pager, root, kind, p.tree, p.lo, p.hi, p.height);
      assert Planted(pager.pages, plots, pager.live);
    }

    /** Puts a changed tree back among the others. */
    ghost method Replant(t: BTree, img: Image, live: set<PageId>)
      requires pager.Valid() && pager.txn.active && t.pager == pager && t.Valid() && t.root in plots
      requires WasPlanted(img, plots, live) && OthersSame(img, pager.pages, live, pager.live, Ids(plots[t.root].tree), Ids(t.tree))
      requires forall p :: p == begun ==> Planted(pager.begun.pages, p, pager.begun.live)
      requires forall w :: w == pager.images ==> AllSown(w)
      modifies `plots
      ensures InTxn() && plots == old(plots)[t.root := Plot(t.kind, t.tree, t.lo, t.hi, t.height)]
      ensures t.kind == old(plots)[t.root].kind ==> Alike(old(plots), plots, {t.root})
    {
      var p := Plot(t.kind, t.tree, t.lo, t.hi, t.height);
      assert Planted(img, plots, live);
      Replanted(img, pager.pages, plots, live, pager.live, t.root, p);
      if p.kind == plots[t.root].kind {
        AlikeBut(plots, t.root, p);
      }
      plots := plots[t.root := p];
    }

    /** An operation that made a leaf of a new root at most. */
    lemma StillPlanted(img: Image, live: set<PageId>, root: PageId)
      requires pager.Valid() && pager.txn.active && WasPlanted(img, plots, live) && root in plots && pager.live == live
      requires forall q :: q in live && q != root ==> pager.pages[q] == img[q]
      requires Grows(pager.pages, root, plots[root])
      requires forall p :: p == begun ==> Planted(pager.begun.pages, p, pager.begun.live)
      requires forall w :: w == pager.images ==> AllSown(w)
      ensures InTxn()
    {
      var p := plots[root];
      assert Planted(img, plots, live);
      assert root in Ids(p.tree);
      assert Grows(img, root, p) && Ids(p.tree) <= live;
      Replanted(img, pager.pages, plots, live, live, root, p);
      assert plots[root := p] == plots;
    }

    /** btree_table_insert, where it leaves two pages. */
    method InsertRow(root: PageId, rowid: int, payload: seq<Byte>) returns (ok: bool)
      requires InTxn() && root in plots && plots[root].kind == Table
      requires 12 + |payload| <= CAPACITY - 2 && !HasRank(Rows(root), rowid) ==>
                 SplitReadable(Table, plots[root].tree, Row(Key(rowid, 8), payload))
      modifies `plots
      modifies pager`disk, pager`tick, pager`run, pager`pages, pager`durable, pager.frames, pager.txn`file, pager.txn`journaled
      modifies pager`numPages, pager`freeListHead, pager`freeList, pager`live
      ensures InTxn() && root in plots && plots[root].kind == Table && SameBut({root})
      ensures ok <==> 12 + |payload| <= CAPACITY - 2 && !HasRank(old(Rows(root)), rowid)
      ensures !ok ==> Rows(root) == old(Rows(root))
      ensures ok ==> Came(old(plots)[root], plots[root], Row(Key(rowid, 8), payload))
    {
      hide Planted, Good, Contents;
      ghost var img, live := pager.pages, pager.live;
      var t := TreeAt(root, Table);
      ghost var fix, was := map[], plots[root];
      ok, fix := t.TableInsert(rowid, payload);
      Replant(t, img, live);
      assert ok ==> RowCame(was, plots[root], Row(Key(rowid, 8), payload));
    }

    /** btree_index_insert */
    method InsertKey(root: PageId, key: Key)
      requires InTxn() && root in plots && plots[root].kind == Index && LenOk(Index, key) && !HasRank(Rows(root), key.rank)
      modifies `plots
      modifies pager`disk, pager`tick, pager`run, pager`pages, pager`durable, pager.frames, pager.txn`file, pager.txn`journaled
      modifies pager`numPages, pager`freeListHead, pager`freeList, pager`live
      ensures InTxn() && root in plots && plots[root].kind == Index && SameBut({root})
      ensures IsInserted(old(Rows(root)), Row(key, []), Rows(root))
    {
      hide Planted, Good, Contents;
      ghost var img, live := pager.pages, pager.live;
      var t := TreeAt(root, Index);
      var ok := t.IndexInsert(key);
      Replant(t, img, live);
    }

    /** btree_table_delete and btree_index_delete */
    method Delete(root: PageId, kind: Kind, rank: int) returns (ok: bool)
      requires InTxn() && root in plots && plots[root].kind == kind
      modifies `plots
      modifies pager`disk, pager`tick, pager`run, pager`pages, pager`durable, pager.frames, pager.txn`file, pager.txn`journaled
      ensures InTxn() && root in plots && plots[root].kind == kind && SameBut({root})
      ensures ok <==> HasRank(old(Rows(root)), rank)
      ensures if ok then IsRemoved(old(Rows(root)), rank, Rows(root)) else Rows(root) == old(Rows(root))
      ensures Ids(plots[root].tree) == Ids(old(plots)[root].tree)
    {
      hide Planted, Good, Contents;
      ghost var img, live := pager.pages, pager.live;
      var t := TreeAt(root, kind);
      ok := t.Delete(rank);
      Replant(t, img, live);
    }

    /** btree_table_search */
    method Search(root: PageId, rowid: int) returns (r: Option<seq<Byte>>)
      requires InTxn() && root in plots && plots[root].kind == Table
      modifies `plots
      modifies pager`disk, pager`tick, pager`run, pager`pages, pager`durable, pager.frames, pager.txn`file, pager.txn`journaled
      ensures InTxn() && plots == old(plots) && pager.durable == old(pager.durable)
      ensures r.Some? <==> HasRank(Rows(root), rowid)
      ensures r.Some? ==> exists i :: 0 <= i < |Rows(root)| && Rows(root)[i].key.rank == rowid && Rows(root)[i].Row? && Rows(root)[i].payload == r.value
    {
      hide Planted, Good, Contents;
      ghost var img, live := pager.pages, pager.live;
      var t := TreeAt(root, Table);
      r := t.TableSearch(rowid);
      StillPlanted(img, live, root);
    }

    /** All rows of a tree in order. */
    method Scan(root: PageId, kind: Kind) returns (rows: seq<Cell>)
      requires InTxn() && root in plots && plots[root].kind == kind
      modifies `plots
      modifies pager`disk, pager`tick, pager`run, pager`pages, pager`durable, pager.frames, pager.txn`file, pager.txn`journaled
      ensures InTxn() && plots == old(plots) && pager.durable == old(pager.durable)
      ensures rows == Rows(root) && Sorted(rows)
    {
      hide Planted, Good, Contents;
      ghost var img, live := pager.pages, pager.live;
      var t := TreeAt(root, kind);
      rows := ReadAll(t);
      StillPlanted(img, live, root);
    }

    /** A root page for a new tree. */
    method NewTree(ghost kind: Kind) returns (root: PageId)
      requires InTxn()
      modifies `plots
      modifies pager`disk, pager`tick, pager`run, pager`pages, pager`durable, pager.frames, pager.txn`file, pager.txn`journaled
      modifies pager`numPages, pager`freeListHead, pager`freeList, pager`live
      ensures InTxn() && root !in old(plots) && root == old(pager.NextPage()) && pager.durable == old(pager.durable)
      ensures plots == old(plots)[root := Plot(kind, Tip(root, []), 0, 1, 0)]
    {
      ghost var img, live := pager.pages, pager.live;
      assert Planted(img, plots, live);
      root := pager.Allocate();
      OneMore(img, pager.pages, plots, live, root, kind);
      plots := plots[root := Plot(kind, Tip(root, []), 0, 1, 0)];
    }

    /** btree_destroy */
    method Destroy(root: PageId, kind: Kind)
      requires InTxn() && root in plots && plots[root].kind == kind
      modifies `plots
      modifies pager`disk, pager`tick, pager`run, pager`pages, pager`durable, pager.frames, pager.txn`file, pager.txn`journaled
      modifies pager`numPages, pager`freeListHead, pager`freeList, pager`live
      ensures InTxn() && plots == old(plots) - {root} && pager.durable == old(pager.durable)
      ensures pager.live == old(pager.live) - Ids(old(plots)[root].tree)
    {
      ghost var img, live := pager.pages, pager.live;
      var t := TreeAt(root, kind);
      t.Destroy();
      Uproot(img, live, root);
    }

    /** Takes a destroyed tree away from the others. */
    ghost method Uproot(img: Image, live: set<PageId>, root: PageId)
      requires pager.Valid() && pager.txn.active && WasPlanted(img, plots, live) && root in plots
      requires pager.live == live - Ids(plots[root].tree) && forall q :: q in pager.live ==> pager.pages[q] == img[q]
      requires forall p :: p == begun ==> Planted(pager.begun.pages, p, pager.begun.live)
      requires forall w :: w == pager.images ==> AllSown(w)
      modifies `plots
      ensures InTxn() && plots == old(plots) - {root}
    {
      assert Planted(img, plots, live);
      OneLess(img, pager.pages, plots, live, pager.live, root);
      plots := plots - {root};
    }

    // ---------- transactions ----------

    /** begin_internal */
    method Begin(isExplicit: bool) returns (ok: bool)
      requires Valid()
      modifies `begun, pager`run, pager`pages, pager`durable, pager`begun, pager.txn
      ensures Valid() && plots == old(plots) && pager.pages == old(pager.pages)
      ensures ok == !old(pager.txn.active) && pager.txn.active
      ensures ok ==> begun == plots && pager.durable == pager.pages && pager.txn.isExplicit == isExplicit
      ensures !ok ==> begun == old(begun)
    {
      assert Planted(pager.pages, plots, pager.live);
      ok := pager.Begin(isExplicit);
      if ok {
        begun := plots;
      }
    }

    /** commit_internal */
    method Commit() returns (ok: bool)
      requires Valid()
      modifies pager`disk, pager`run, pager`pages, pager`durable, pager`images, pager.frames, pager.txn
      ensures Valid() && plots == old(plots) && pager.pages == old(pager.pages)
      ensures ok == old(pager.txn.active) && !pager.txn.active
      ensures ok ==> pager.durable == pager.pages
    {
      assert Planted(pager.pages, plots, pager.live);
      SownWith(pager.images, pager.Present(), plots);
      ok := pager.Commit();
    }

    /** rollback_internal: the trees of the begin are back. */
    method Rollback() returns (ok: bool)
      requires Valid()
      modifies `plots, pager`disk, pager`run, pager`pages, pager`durable, pager`restored, pager`numPages, pager`freeListHead
      modifies pager`freeList, pager`live, pager.frames, pager.txn
      ensures Valid() && ok == old(pager.txn.active) && !pager.txn.active
      ensures plots == if ok then begun else old(plots)
      ensures pager.pages == pager.durable == old(pager.durable)
    {
      ghost var wasActive := pager.txn.active;
      assert Planted(pager.pages, plots, pager.live);
      assert wasActive ==> Planted(pager.begun.pages, begun, pager.begun.live);
      pager.DurableAtBegin();
      ok := pager.Rollback();
      if ok {
        plots := begun;
      }
    }
  }

  /** The pages of other trees are owned and hold what they held. */
  ghost predicate OthersSame(img: Image, img': Image, live: set<PageId>, live': set<PageId>, ids: set<PageId>, ids': set<PageId>)
    requires Total(img) && Total(img')
  {
    && (forall q :: q in live - ids ==> q in live' && q !in ids' && img'[q] == img[q])
    && live' - ids' == live - ids && ids' <= live'
  }

  lemma Replanted(img: Image, img': Image, plots: Plots, live: set<PageId>, live': set<PageId>, root: PageId, p: Plot)
    requires Planted(img, plots, live) && root in plots && Total(img')
    requires Grows(img', root, p) && OthersSame(img, img', live, live', Ids(plots[root].tree), Ids(p.tree))
    ensures Planted(img', plots[root := p], live')
  {
    var plots' := plots[root := p];
    forall r | r in plots' && r != root ensures Grows(img', r, plots'[r]) && Ids(plots'[r].tree) <= live' {
      OtherGrows(img, img', plots, live, root, r);
    }
    forall r, s | r in plots' && s in plots' && r != s ensures Ids(plots'[r].tree) !! Ids(plots'[s].tree) {
      if r == root {
        OtherApart(plots, live, live', img, img', root, s, Ids(p.tree));
      } else if s == root {
        OtherApart(plots, live, live', img, img', root, r, Ids(p.tree));
      }
    }
    forall q | q in live' ensures exists r :: r in plots' && q in Ids(plots'[r].tree) {
      if q in Ids(p.tree) {
        assert plots'[root] == p;
      } else {
        assert q in live - Ids(plots[root].tree);
        var r :| r in plots && q in Ids(plots[r].tree);
        assert r != root && plots'[r] == plots[r];
      }
    }
  }

  lemma OtherApart(plots: Plots, live: set<PageId>, live': set<PageId>, img: Image, img': Image, root: PageId, r: PageId, ids: set<PageId>)
    requires Planted(img, plots, live) && root in plots && r in plots && r != root && Total(img')
    requires OthersSame(img, img', live, live', Ids(plots[root].tree), ids)
    ensures Ids(plots[r].tree) !! ids
  {
    assert Ids(plots[r].tree) !! Ids(plots[root].tree) && Ids(plots[r].tree) <= live;
  }

  lemma OtherGrows(img: Image, img': Image, plots: Plots, live: set<PageId>, root: PageId, r: PageId)
    requires Planted(img, plots, live) && root in plots && r in plots && r != root && Total(img')
    requires forall q :: q in live - Ids(plots[root].tree) ==> img'[q] == img[q]
    ensures Grows(img', r, plots[r]) && Ids(plots[r].tree) <= live - Ids(plots[root].tree)
  {
    var p := plots[r];
    assert Grows(img, r, p) && Ids(p.tree) !! Ids(plots[root].tree) && Ids(p.tree) <= live;
    assert r in Ids(p.tree);
    if img[r] != Raw(0) {
      GoodFrame(p.kind, img, img', p.tree, p.lo, p.hi, p.height, 0);
    }
  }

  lemma OneMore(img: Image, img': Image, plots: Plots, live: set<PageId>, root: PageId, kind: Kind)
    requires Planted(img, plots, live) && root !in live && Total(img') && img'[root] == Raw(0)
    requires forall q :: q in live ==> img'[q] == img[q]
    ensures root !in plots && Planted(img', plots[root := Plot(kind, Tip(root, []), 0, 1, 0)], live + {root})
  {
    var plots' := plots[root := Plot(kind, Tip(root, []), 0, 1, 0)];
    forall r | r in plots ensures r != root {
      RootOwned(img, plots, live, r);
    }
    forall r | r in plots' ensures Grows(img', r, plots'[r]) && Ids(plots'[r].tree) <= live + {root} {
      if r != root {
        StillGrows(img, img', plots, live, r);
      }
    }
    assert forall r :: r in plots ==> plots'[r] == plots[r] && Ids(plots[r].tree) <= live;
    forall q | q in live + {root} ensures exists r :: r in plots' && q in Ids(plots'[r].tree) {
      if q == root {
        assert q in Ids(plots'[root].tree);
      } else {
        var r :| r in plots && q in Ids(plots[r].tree);
        assert q in Ids(plots'[r].tree);
      }
    }
  }

  lemma RootOwned(img: Image, plots: Plots, live: set<PageId>, r: PageId)
    requires Planted(img, plots, live) && r in plots
    ensures r in Ids(plots[r].tree) && r in live
  {
    assert Grows(img, r, plots[r]);
  }

  lemma StillGrows(img: Image, img': Image, plots: Plots, live: set<PageId>, r: PageId)
    requires Planted(img, plots, live) && r in plots && Total(img')
    requires forall q :: q in Ids(plots[r].tree) ==> img'[q] == img[q]
    ensures Grows(img', r, plots[r]) && Ids(plots[r].tree) <= live
  {
    var p := plots[r];
    assert Grows(img, r, p) && r in Ids(p.tree);
    if img[r] != Raw(0) {
      GoodFrame(p.kind, img, img', p.tree, p.lo, p.hi, p.height, 0);
    }
  }

  lemma OneLess(img: Image, img': Image, plots: Plots, live: set<PageId>, live': set<PageId>, root: PageId)
    requires Planted(img, plots, live) && root in plots && Total(img') && live' == live - Ids(plots[root].tree)
    requires forall q :: q in live' ==> img'[q] == img[q]
    ensures Planted(img', plots - {root}, live')
  {
    forall r | r in plots - {root} ensures Grows(img', r, plots[r]) && Ids(plots[r].tree) <= live' {
      OtherGrows(img, img', plots, live, root, r);
    }
    forall q | q in live' ensures exists r :: r in plots - {root} && q in Ids((plots - {root})[r].tree) {
      var r :| r in plots && q in Ids(plots[r].tree);
      assert r != root && (plots - {root})[r] == plots[r];
    }
  }

  // ---------- opening the catalog ----------

  /** A root that was all zeros and is a leaf now is in no other tree. */
  lemma EnsuredGrows(img: Image, plots: Plots, live: set<PageId>, roots: set<PageId>, r: PageId)
    requires Planted(img, plots, live) && r in plots
    requires forall s :: s in roots ==> s in plots && plots[s].kind == Table
    ensures Grows(Ensured(img, roots), r, plots[r])
    ensures forall q :: q in Ids(plots[r].tree) && q != r ==> Ensured(img, roots)[q] == img[q]
  {
    forall q | q in Ids(plots[r].tree) && q != r ensures Ensured(img, roots)[q] == img[q] {
      if q in roots {
        RootOwned(img, plots, live, q);
      }
    }
    var p := plots[r];
    assert Grows(img, r, p);
    if r in roots && img[r] == Raw(0) {
      assert Used(Table, []) == 0;
    } else {
      StillGrows(img, Ensured(img, roots), plots, live, r);
    }
  }

  lemma EnsuredPlanted(img: Image, plots: Plots, live: set<PageId>, roots: set<PageId>)
    requires Planted(img, plots, live)
    requires forall s :: s in roots ==> s in plots && plots[s].kind == Table
    ensures Planted(Ensured(img, roots), plots, live)
  {
    forall r | r in plots ensures Grows(Ensured(img, roots), r, plots[r]) && Ids(plots[r].tree) <= live {
      EnsuredGrows(img, plots, live, roots, r);
    }
  }

  /** Opening the catalog on a file whose pages are planted leaves the same trees. */
  lemma OpeningKeepsTrees(r: Run, roots: set<PageId>, plots: Plots, live: set<PageId>)
    requires Opening(r, roots) && Planted(ImageOf(r.states[0].disk), plots, live)
    requires forall s :: s in roots ==> s in plots && plots[s].kind == Table
    ensures Planted(Logical(End(r)), plots, live)
  {
    OpeningEnsures(r, roots);
    EnsuredPlanted(ImageOf(r.states[0].disk), plots, live, roots);
  }

  /** Wherever the first transaction after that is cut short, a crash shows every tree as it
      was opened, but for those whose root was still all zeros in the file at the begin. */
  lemma FirstTransactionSparesTrees(r: Run, t: Run, roots: set<PageId>, plots: Plots, live: set<PageId>, root: PageId)
    requires Opening(r, roots) && Planted(ImageOf(r.states[0].disk), plots, live)
    requires forall s :: s in roots ==> s in plots && plots[s].kind == Table
    requires Enabled(End(r), Begin) && Uncommitted(t, Apply(End(r), Begin))
    requires root in plots && !(root in roots && At(End(r).disk, root) == Raw(0))
    ensures Grows(Durable(End(t)), root, plots[root])
  {
    hide Planted, Good, Enabled, Durable, Logical;
    OpeningKeepsTrees(r, roots, plots, live);
    TreeSpared(r, t, roots, plots, live, root);
    StillGrows(Logical(End(r)), Durable(End(t)), plots, live, root);
  }

  lemma TreeSpared(r: Run, t: Run, roots: set<PageId>, plots: Plots, live: set<PageId>, root: PageId)
    requires Opening(r, roots) && Planted(ImageOf(r.states[0].disk), plots, live) && (forall s :: s in roots ==> s in plots)
    requires Enabled(End(r), Begin) && Uncommitted(t, Apply(End(r), Begin))
    requires root in plots && !(root in roots && At(End(r).disk, root) == Raw(0))
    ensures Total(Logical(End(r))) && Total(Durable(End(t)))
    ensures forall q :: q in Ids(plots[root].tree) ==> Durable(End(t))[q] == Logical(End(r))[q]
  {
    forall q | q in Ids(plots[root].tree) ensures Durable(End(t))[q] == Logical(End(r))[q] {
      NoOtherRoot(ImageOf(r.states[0].disk), plots, live, roots, root, q);
      SparedPage(r, t, roots, q);
    }
  }

  lemma NoOtherRoot(img: Image, plots: Plots, live: set<PageId>, roots: set<PageId>, root: PageId, q: PageId)
    requires Planted(img, plots, live) && (forall s :: s in roots ==> s in plots) && root in plots && q in Ids(plots[root].tree)
    ensures q in roots ==> q == root
  {
    if q in roots {
      RootOwned(img, plots, live, q);
    }
  }

  lemma SparedPage(r: Run, t: Run, roots: set<PageId>, q: PageId)
    requires Opening(r, roots) && Enabled(End(r), Begin) && Uncommitted(t, Apply(End(r), Begin))
    requires !(q in roots && At(End(r).disk, q) == Raw(0))
    ensures Durable(End(t))[q] == Logical(End(r))[q]
  {
    var b := Apply(End(r), Begin);
    OpeningProtectsIff(r, roots);
    assert TakenBackAt(b, q);
    OpenedThroughout(r, roots, |r.steps|);
    OpenedDirtyIffRaw(End(r), roots, q);
    ContentIs(End(r).disk, End(r).frames, q);
    assert Durable(b)[q] == At(End(r).disk, q);
  }
}
