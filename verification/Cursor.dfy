/** The cursors of btree.c: first, seek and next along the chain of leaves, over leaves
    that deletions may have left empty. */
module Cursors {
  import opened Pages
  import opened Journal
  import opened Trees
  import opened Leaves
  import opened BTrees

  /** A cell of the j-th leaf among all rows. */
  lemma RowAt(ls: seq<Tree>, j: nat)
    requires j < |ls| && ls[j].Tip?
    ensures Flatten(ls[..j + 1]) == Flatten(ls[..j]) + ls[j].rows
    ensures Flatten(ls) == Flatten(ls[..j]) + ls[j].rows + Flatten(ls[j + 1..])
  {
    FlattenAround(ls, j);
    FlattenSnoc(ls, j + 1);
  }

  class Cursor {
    const t: BTree
    var leafPage: PageId
    var cellIndex: nat
    var valid: bool
    // the place of the cursor among the rows, and of its leaf among the leaves
    ghost var pos: nat
    ghost var leaf: nat

    /** How many rows are before a leaf. */
    ghost function Start(j: nat): nat
      requires j <= |LeavesOf(t.tree)|
      reads t
    {
      |Flatten(LeavesOf(t.tree)[..j])|
    }

    ghost predicate At()
      reads this, t
    {
      if valid then
        var ls := LeavesOf(t.tree);
        && leaf < |ls| && ls[leaf].Tip? && ls[leaf].id == leafPage
        && cellIndex < |ls[leaf].rows| && pos == Start(leaf) + cellIndex
      else pos == |t.Rows()|
    }

    /** On a row, or past the last one. */
    ghost predicate Valid()
      reads this, t, t.pager, t.pager.frames, t.pager.txn
    {
      t.Valid() && t.pager.pages[t.root] != Raw(0) && At()
    }

    /** The link of a leaf to the next one, 0 after the last. */
    ghost predicate OnChain(pageNum: PageId, k: nat)
      reads t
    {
      var ls := LeavesOf(t.tree);
      k <= |ls| && if k < |ls| then pageNum == ls[k].id && pageNum >= 2 else pageNum == 0
    }

    lemma LeavesLinked()
      requires t.Valid() && t.pager.pages[t.root] != Raw(0)
      ensures var ls := LeavesOf(t.tree);
              && Chained(t.kind, t.pager.pages, ls, 0) && ls[0].id == FirstLeaf(t.tree)
              && Flatten(ls) == t.Rows()
              && forall j :: 0 <= j < |ls| ==> ls[j].id >= 2
    {
      LeavesHold(t.tree);
      LeavesChained(t.kind, t.pager.pages, t.tree, t.lo, t.hi, t.height, 0);
      LeavesWithin(t.tree);
      t.pager.LivePagesFollowHeader();
    }

    lemma LeafLinked(k: nat)
      requires t.Valid() && t.pager.pages[t.root] != Raw(0) && k < |LeavesOf(t.tree)|
      ensures var ls := LeavesOf(t.tree);
              && ls[k].Tip? && ls[k].id >= 2
              && t.pager.pages[ls[k].id] == Node(t.kind, true, ls[k].rows, if k + 1 < |ls| then ls[k + 1].id else 0)
              && Start(k + 1) == Start(k) + |ls[k].rows| <= |t.Rows()|
              && OnChain(t.pager.pages[ls[k].id].link, k + 1)
    {
      LeavesLinked();
      RowAt(LeavesOf(t.tree), k);
    }

    /** btree_cursor_open */
    constructor (t: BTree)
      requires t.Valid()
      modifies t.pager`disk, t.pager`tick, t.pager`run, t.pager`pages, t.pager`durable, t.pager.frames, t.pager.txn`file, t.pager.txn`journaled
      ensures this.t == t && Valid() && !valid && t.pager.durable == old(t.pager.durable)
      ensures t.pager.pages == if old(t.pager.pages[t.root]) == Raw(0) then old(t.pager.pages)[t.root := Node(t.kind, true, [], 0)]
                               else old(t.pager.pages)
    {
      this.t := t;
      leafPage, cellIndex, valid, leaf, pos := 0, 0, false, 0, |Contents(t.tree)|;
      new;
      t.EnsureRoot();
    }

    method Place(pageNum: PageId, idx: nat, ghost j: nat)
      requires t.Valid() && t.pager.pages[t.root] != Raw(0) && j < |LeavesOf(t.tree)|
      requires LeavesOf(t.tree)[j].Tip? && LeavesOf(t.tree)[j].id == pageNum && idx < |LeavesOf(t.tree)[j].rows|
      modifies this
      ensures Valid() && valid && pos == Start(j) + idx
    {
      leafPage, cellIndex, valid := pageNum, idx, true;
      leaf, pos := j, Start(j) + idx;
    }

    method PlaceAtEnd()
      requires t.Valid() && t.pager.pages[t.root] != Raw(0)
      modifies this
      ensures Valid() && !valid && pos == |t.Rows()|
    {
      valid := false;
      pos := |t.Rows()|;
    }

    method ReadLeaf(pageNum: PageId, ghost k: nat) returns (page: Page)
      requires t.Valid() && t.pager.pages[t.root] != Raw(0) && k < |LeavesOf(t.tree)| && pageNum == LeavesOf(t.tree)[k].id
      modifies t.pager`disk, t.pager`tick, t.pager`run, t.pager`pages, t.pager`durable, t.pager.frames
      ensures t.Valid() && t.pager.pages == old(t.pager.pages) && t.pager.durable == old(t.pager.durable)
      ensures var ls := LeavesOf(t.tree);
              && ls[k].Tip? && page == Node(t.kind, true, ls[k].rows, if k + 1 < |ls| then ls[k + 1].id else 0)
              && Start(k + 1) == Start(k) + |ls[k].rows| <= |t.Rows()|
              && OnChain(page.link, k + 1)
    {
      LeafLinked(k);
      page := t.pager.Read(pageNum);
    }

    /** advance_to_nonempty from the j-th leaf, or from the end of the chain. */
    method AdvanceToNonempty(start: PageId, ghost j: nat)
      requires t.Valid() && t.pager.pages[t.root] != Raw(0) && OnChain(start, j)
      modifies this, t.pager`disk, t.pager`tick, t.pager`run, t.pager`pages, t.pager`durable, t.pager.frames
      ensures Valid() && t.pager.pages == old(t.pager.pages) && t.pager.durable == old(t.pager.durable)
      ensures pos == Start(j)
      ensures valid <==> pos < |t.Rows()|
    {
      var pageNum := start;
      ghost var k := j;
      while pageNum != 0
        invariant t.Valid() && t.pager.pages == old(t.pager.pages) && t.pager.durable == old(t.pager.durable)
        invariant OnChain(pageNum, k) && Start(k) == Start(j)
        decreases |LeavesOf(t.tree)| - k
      {
        var page := ReadLeaf(pageNum, k);
        if |page.cells| > 0 {
          Place(pageNum, 0, k);
          return;
        }
        pageNum := page.link;
        k := k + 1;
      }
      StartOfEnd();
      PlaceAtEnd();
    }

    lemma StartOfEnd()
      ensures Start(|LeavesOf(t.tree)|) == |t.Rows()|
    {
      var ls := LeavesOf(t.tree);
      assert ls[..|ls|] == ls;
      LeavesHold(t.tree);
    }

    /** btree_cursor_first: down the first children, then to the first row. */
    method First()
      requires Valid()
      modifies this, t.pager`disk, t.pager`tick, t.pager`run, t.pager`pages, t.pager`durable, t.pager.frames
      ensures Valid() && t.pager.pages == old(t.pager.pages) && t.pager.durable == old(t.pager.durable)
      ensures pos == 0 && (valid <==> t.Rows() != [])
    {
      var pageNum := FirstLeafPage();
      LeavesLinked();
      AdvanceToNonempty(pageNum, 0);
    }

    method FirstLeafPage() returns (pageNum: PageId)
      requires t.Valid() && t.pager.pages[t.root] != Raw(0)
      modifies t.pager`disk, t.pager`tick, t.pager`run, t.pager`pages, t.pager`durable, t.pager.frames
      ensures t.Valid() && t.pager.pages == old(t.pager.pages) && t.pager.durable == old(t.pager.durable)
      ensures pageNum == FirstLeaf(t.tree)
    {
      pageNum := t.root;
      ghost var sub, lo, hi, h, nxt := t.tree, t.lo, t.hi, t.height, 0;
      var page := t.pager.Read(pageNum);
      while !page.leaf
        invariant t.Valid() && t.pager.pages == old(t.pager.pages) && t.pager.durable == old(t.pager.durable)
        invariant Good(t.kind, t.pager.pages, sub, lo, hi, h, nxt) && sub.id == pageNum
        invariant page == t.pager.pages[pageNum] && FirstLeaf(sub) == FirstLeaf(t.tree)
        decreases h
      {
        LeftmostKid(t.kind, t.pager.pages, sub, lo, hi, h, nxt);
        pageNum := if |page.cells| > 0 then page.cells[0].child else page.link;
        lo, hi, h, nxt, sub := LoOf(sub.keys, lo, 0), HiOf(sub.keys, hi, 0), h - 1, NextOf(sub.kids, nxt, 0), sub.kids[0];
        page := t.pager.Read(pageNum);
      }
    }

    /** btree_cursor_seek: to the first row whose key is not below the given one. */
    method Seek(rank: int)
      requires Valid()
      modifies this, t.pager`disk, t.pager`tick, t.pager`run, t.pager`pages, t.pager`durable, t.pager.frames
      ensures Valid() && t.pager.pages == old(t.pager.pages) && t.pager.durable == old(t.pager.durable)
      ensures IsBound(t.Rows(), rank, false, pos) && (valid <==> pos < |t.Rows()|)
    {
      var pageNum, page, idx;
      ghost var j;
      pageNum, page, idx, j := SeekLeaf(rank);
      Settle(pageNum, page, idx, j);
    }

    /** The descent: the leaf, and the place in it. */
    method SeekLeaf(rank: int) returns (pageNum: PageId, page: Page, idx: nat, ghost j: nat)
      requires Valid()
      modifies t.pager`disk, t.pager`tick, t.pager`run, t.pager`pages, t.pager`durable, t.pager.frames
      ensures t.Valid() && t.pager.pages[t.root] != Raw(0)
      ensures t.pager.pages == old(t.pager.pages) && t.pager.durable == old(t.pager.durable)
      ensures j < |LeavesOf(t.tree)| && LeavesOf(t.tree)[j].Tip? && LeavesOf(t.tree)[j].id == pageNum
      ensures page == t.pager.pages[pageNum] && idx <= |LeavesOf(t.tree)[j].rows|
      ensures IsBound(t.Rows(), rank, false, Start(j) + idx)
    {
      hide Good, Contents, LeavesOf, Flatten, Ids;
      ghost var spot;
      pageNum, page, idx, spot := t.Descend(rank);
      j := |spot.leavesBefore|;
      SeekSpot(rank, spot, idx);
    }

    /** At the idx-th cell of a leaf, or, past its last cell, at the first row after it. */
    method Settle(pageNum: PageId, page: Page, idx: nat, ghost j: nat)
      requires t.Valid() && t.pager.pages[t.root] != Raw(0) && j < |LeavesOf(t.tree)| && LeavesOf(t.tree)[j].Tip?
      requires LeavesOf(t.tree)[j].id == pageNum && page == t.pager.pages[pageNum] && idx <= |LeavesOf(t.tree)[j].rows|
      modifies this, t.pager`disk, t.pager`tick, t.pager`run, t.pager`pages, t.pager`durable, t.pager.frames
      ensures Valid() && t.pager.pages == old(t.pager.pages) && t.pager.durable == old(t.pager.durable)
      ensures pos == Start(j) + idx && (valid <==> pos < |t.Rows()|)
    {
      LeafLinked(j);
      if idx < |page.cells| {
        Place(pageNum, idx, j);
      } else {
        AdvanceToNonempty(page.link, j + 1);
      }
    }

    /** The row that seek looks for, counted from the leaf where the descent ends. */
    lemma SeekSpot(rank: int, spot: Spot, idx: nat)
      requires t.Valid() && t.pager.pages[t.root] != Raw(0)
      requires SpotOk(t.kind, t.pager.pages, t.tree, rank, spot) && spot.t.Tip? && IsBound(spot.t.rows, rank, false, idx)
      ensures var ls, j := LeavesOf(t.tree), |spot.leavesBefore|;
              && j < |ls| && ls[j] == spot.t
              && t.pager.pages[spot.t.id] == Node(t.kind, true, spot.t.rows, if j + 1 < |ls| then ls[j + 1].id else 0)
              && IsBound(t.Rows(), rank, false, |Flatten(ls[..j])| + idx)
              && |Flatten(ls[..j + 1])| == |Flatten(ls[..j])| + |spot.t.rows|
    {
      LeavesLinked();
      var ls, j := LeavesOf(t.tree), |spot.leavesBefore|;
      assert ls[j] == spot.t && ls[..j] == spot.leavesBefore;
      RowAt(ls, j);
      BoundBetween(spot.before, spot.t.rows, spot.after, rank, idx);
    }

    /** btree_cursor_next */
    method Next()
      requires Valid()
      modifies this, t.pager`disk, t.pager`tick, t.pager`run, t.pager`pages, t.pager`durable, t.pager.frames
      ensures Valid() && t.pager.pages == old(t.pager.pages) && t.pager.durable == old(t.pager.durable)
      ensures pos == if old(valid) then old(pos) + 1 else old(pos)
      ensures valid <==> pos < |t.Rows()|
    {
      if !valid {
        return;
      }
      LeafLinked(leaf);
      var page := t.pager.Read(leafPage);
      Settle(leafPage, page, cellIndex + 1, leaf);
    }

    /** The cell under the cursor: btree_cursor_rowid, _payload and _index_key read its parts. */
    method Current() returns (c: Cell)
      requires Valid() && valid
      modifies t.pager`disk, t.pager`tick, t.pager`run, t.pager`pages, t.pager`durable, t.pager.frames
      ensures Valid() && t.pager.pages == old(t.pager.pages) && t.pager.durable == old(t.pager.durable)
      ensures pos < |t.Rows()| && c == t.Rows()[pos] && c.Row?
    {
      CurrentRow();
      var page := t.pager.Read(leafPage);
      c := page.cells[cellIndex];
    }

    lemma CurrentRow()
      requires Valid() && valid
      ensures leaf < |LeavesOf(t.tree)| && LeavesOf(t.tree)[leaf].Tip? && cellIndex < |LeavesOf(t.tree)[leaf].rows|
      ensures t.pager.pages[leafPage].Node? && t.pager.pages[leafPage].cells == LeavesOf(t.tree)[leaf].rows && leafPage >= 2
      ensures pos < |t.Rows()| && t.Rows()[pos] == LeavesOf(t.tree)[leaf].rows[cellIndex] && t.Rows()[pos].Row?
    {
      LeafLinked(leaf);
      LeavesHold(t.tree);
      RowAt(LeavesOf(t.tree), leaf);
      GoodContents(t.kind, t.pager.pages, t.tree, t.lo, t.hi, t.height, 0);
    }

    /** The scan of the executor and the catalog: every row exactly once, in order. */
    method Scan() returns (rows: seq<Cell>)
      requires Valid()
      modifies this, t.pager`disk, t.pager`tick, t.pager`run, t.pager`pages, t.pager`durable, t.pager.frames
      ensures Valid() && t.pager.pages == old(t.pager.pages) && t.pager.durable == old(t.pager.durable)
      ensures rows == t.Rows() && Sorted(rows)
    {
      hide Good, LeavesOf, Flatten, Ids;
      rows := [];
      First();
      while valid
        invariant Valid() && t.pager.pages == old(t.pager.pages) && t.pager.durable == old(t.pager.durable)
        invariant pos <= |t.Rows()| && rows == t.Rows()[..pos] && (valid <==> pos < |t.Rows()|)
        decreases |t.Rows()| - pos
      {
        var c := Current();
        rows := rows + [c];
        Next();
      }
      GoodContents(t.kind, t.pager.pages, t.tree, t.lo, t.hi, t.height, 0);
    }
  }

  /** The first child of an interior page. */
  lemma LeftmostKid(kind: Kind, img: Image, t: Tree, lo: int, hi: int, h: nat, nxt: PageId)
    requires Good(kind, img, t, lo, hi, h, nxt) && img[t.id].Node? && !img[t.id].leaf
    ensures t.Fork? && |t.kids| == |t.keys| + 1 && h > 0 && FirstLeaf(t) == FirstLeaf(t.kids[0])
    ensures var page := img[t.id];
            && (|page.cells| > 0 ==> page.cells[0].Sep?)
            && t.kids[0].id == if |page.cells| > 0 then page.cells[0].child else page.link
    ensures Good(kind, img, t.kids[0], LoOf(t.keys, lo, 0), HiOf(t.keys, hi, 0), h - 1, NextOf(t.kids, nxt, 0))
  {
    assert KidGood(kind, img, t.keys, t.kids, lo, hi, h - 1, nxt, 0);
  }
}
