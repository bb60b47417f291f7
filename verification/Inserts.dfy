/** One level of an insert: from what happened below a page to what the page becomes. */
module Inserts {
  import opened Pages
  import opened Journal
  import opened Trees
  import opened Splits

  /** SplitResult: nothing, or a key promoted with the page to its right. */
  datatype Split = NoSplit | Promoted(key: Key, right: PageId)

  /** The pages ids replace those of t; the added ones were not owned before. */
  ghost predicate Took(t: Tree, ids: set<PageId>, live: set<PageId>, live': set<PageId>) {
    Ids(t) <= ids && live' == live + ids && ids * live <= Ids(t)
  }

  /** The rows s became s': those of one leaf gave way to what the leaf and its new sibling
      hold for them and the cell c. */
  ghost predicate IsPut(kind: Kind, s: seq<Cell>, leaf: seq<Cell>, c: Cell, s': seq<Cell>) {
    exists a, b, i :: PutAt(kind, s, leaf, c, s', a, b, i)
  }

  ghost predicate PutAt(kind: Kind, s: seq<Cell>, leaf: seq<Cell>, c: Cell, s': seq<Cell>, a: seq<Cell>, b: seq<Cell>, i: nat) {
    && s == a + leaf + b && Below(a, c.key.rank) && Above(b, c.key.rank)
    && IsBound(leaf, c.key.rank, false, i)
    && forall cells :: Splices(leaf, i, c, cells) ==> s' == a + Settled(kind, cells) + b
  }

  lemma PutBetween(kind: Kind, x: seq<Cell>, s: seq<Cell>, y: seq<Cell>, leaf: seq<Cell>, c: Cell, s': seq<Cell>)
    requires IsPut(kind, s, leaf, c, s') && Below(x, c.key.rank) && Above(y, c.key.rank)
    ensures IsPut(kind, x + s + y, leaf, c, x + s' + y)
  {
    var a, b, i :| PutAt(kind, s, leaf, c, s', a, b, i);
    Regroup(x, a, leaf, b, y);
    assert Splices(leaf, i, c, Spliced(leaf, i, c));
    Regroup(x, a, Settled(kind, Spliced(leaf, i, c)), b, y);
    assert PutAt(kind, x + s + y, leaf, c, x + s' + y, x + a, b + y, i);
  }

  /** And that is when there is one row more. */
  lemma PutCounts(kind: Kind, s: seq<Cell>, leaf: seq<Cell>, c: Cell, s': seq<Cell>)
    requires IsPut(kind, s, leaf, c, s')
    ensures |s'| <= |s| + 1 && (IsInserted(s, c, s') <==> |s'| == |s| + 1)
  {
    var a, b, i :| PutAt(kind, s, leaf, c, s', a, b, i);
    assert Splices(leaf, i, c, Spliced(leaf, i, c));
    SettledKeepsAllIffFits(kind, Spliced(leaf, i, c));
    if |s'| == |s| + 1 {
      InsertedBetween(a, leaf, b, c, Spliced(leaf, i, c));
    }
  }

  /** A tree of one leaf. */
  lemma SoleLeafPut(kind: Kind, s: seq<Cell>, c: Cell, s': seq<Cell>, i: nat)
    requires IsPut(kind, s, s, c, s') && IsBound(s, c.key.rank, false, i)
    ensures s' == Settled(kind, Spliced(s, i, c))
  {
    var a, b, j :| PutAt(kind, s, s, c, s', a, b, j);
    assert Splices(s, j, c, Spliced(s, j, c));
    assert |a| == 0 && |b| == 0 && i == j;
  }

  lemma Regroup(x: seq<Cell>, a: seq<Cell>, m: seq<Cell>, b: seq<Cell>, y: seq<Cell>)
    ensures x + (a + m + b) + y == x + a + m + (b + y)
  {}

  /** Then s' is s with the cell in its place exactly if the split of the leaf, if there was
      one, fitted its halves. */
  lemma PutInsertsIffFits(kind: Kind, s: seq<Cell>, leaf: seq<Cell>, c: Cell, s': seq<Cell>)
    requires IsPut(kind, s, leaf, c, s')
    ensures IsInserted(s, c, s') <==> forall i :: IsBound(leaf, c.key.rank, false, i) ==> LeafSplitFits(kind, leaf, c, i)
  {
    var a, b, i :| PutAt(kind, s, leaf, c, s', a, b, i);
    assert Splices(leaf, i, c, Spliced(leaf, i, c));
    SettledKeepsAllIffFits(kind, Spliced(leaf, i, c));
    if LeafSplitFits(kind, leaf, c, i) {
      InsertedBetween(a, leaf, b, c, Spliced(leaf, i, c));
    }
    assert forall j :: IsBound(leaf, c.key.rank, false, j) ==> j == i;
  }

  /** Inserting the cell turned t into l, or into l and r with the promoted key between. */
  ghost predicate Grown(kind: Kind, img: Image, t: Tree, cell: Cell, split: Split, l: Tree, r: Tree,
                        lo: int, hi: int, h: nat, nxt: PageId, live: set<PageId>, live': set<PageId>) {
    && l.id == t.id && FirstLeaf(l) == FirstLeaf(t)
    && match split
       case NoSplit =>
         && Good(kind, img, l, lo, hi, h, nxt)
         && Took(t, Ids(l), live, live')
         && IsPut(kind, Contents(t), LeafFor(t, cell.key.rank), cell, Contents(l))
       case Promoted(key, right) =>
         && r.id == right && lo < key.rank < hi && LenOk(kind, key)
         && Good(kind, img, l, lo, key.rank, h, FirstLeaf(r))
         && Good(kind, img, r, key.rank, hi, h, nxt)
         && Ids(l) !! Ids(r)
         && Took(t, Ids(l) + Ids(r), live, live')
         && IsPut(kind, Contents(t), LeafFor(t, cell.key.rank), cell, Contents(l) + Contents(r))
  }

  /** The same for methods: a quantifier keeps the definition folded until it is named. */
  ghost predicate Grew(kind: Kind, img: Image, t: Tree, cell: Cell, split: Split, l: Tree, r: Tree,
                       lo: int, hi: int, h: nat, nxt: PageId, live: set<PageId>, live': set<PageId>) {
    forall s :: s == split ==> Grown(kind, img, t, cell, s, l, r, lo, hi, h, nxt, live, live')
  }

  /** Two good trees, disjoint, next to each other with the key between. */
  ghost predicate TwoTrees(kind: Kind, img: Image, l: Tree, key: Key, r: Tree, lo: int, hi: int, h: nat) {
    && lo < key.rank < hi && LenOk(kind, key) && Ids(l) !! Ids(r)
    && Good(kind, img, l, lo, key.rank, h, FirstLeaf(r)) && Good(kind, img, r, key.rank, hi, h, 0)
  }

  ghost predicate Halved(kind: Kind, img: Image, l: Tree, key: Key, r: Tree, lo: int, hi: int, h: nat) {
    forall k :: k == key ==> TwoTrees(kind, img, l, k, r, lo, hi, h)
  }

  // ---------- leaves that were damaged ----------

  /** The pages with those of fix in place of what they hold. */
  ghost function Mended(img: Image, fix: map<PageId, Page>): (r: Image)
    ensures Total(img) ==> Total(r)
    ensures forall q :: q in img ==> q in r && r[q] == if q in fix then fix[q] else img[q]
  {
    imap q | q in img :: if q in fix then fix[q] else img[q]
  }

  /** The pages of fix are garbled. */
  ghost predicate Patches(img: Image, fix: map<PageId, Page>) {
    forall q :: q in fix ==> q in img && img[q] == Garbled
  }

  /** Of the pages owned before only some of ids are among them. */
  ghost predicate FixAt(fix: map<PageId, Page>, ids: set<PageId>, live: set<PageId>, live': set<PageId>) {
    forall q :: q in fix ==> q in live' && (q in live ==> q in ids)
  }

  lemma NothingToMend(img: Image)
    ensures Mended(img, map[]) == img
  {}

  /** What a filled page would be had no cell been accepted out of place. */
  ghost function FixOf(kind: Kind, q: PageId, f: Filled, link: PageId): map<PageId, Page> {
    if f.garbled then map[q := Node(kind, true, f.cells, link)] else map[]
  }

  // ---------- leaves ----------

  lemma SplicedSorted(s: seq<Cell>, c: Cell, i: nat, lo: int, hi: int)
    requires Sorted(s) && Within(s, lo, hi) && lo <= c.key.rank < hi
    requires IsBound(s, c.key.rank, false, i) && !HasRank(s, c.key.rank)
    ensures Sorted(Spliced(s, i, c)) && Within(Spliced(s, i, c), lo, hi)
  {
    var s' := Spliced(s, i, c);
    assert forall j :: 0 <= j < |s'| ==> s'[j] == if j < i then s[j] else if j == i then c else s[j - 1];
    assert forall j :: i <= j < |s| ==> s[j].key.rank > c.key.rank;
  }

  lemma LeafGrown(kind: Kind, img: Image, img': Image, t: Tree, cell: Cell, i: nat, lo: int, hi: int, nxt: PageId, live: set<PageId>)
    requires t.Tip? && Good(kind, img, t, lo, hi, 0, nxt) && t.id in live
    requires cell.Row? && LenOk(kind, cell.key) && lo <= cell.key.rank < hi && !HasRank(t.rows, cell.key.rank)
    requires IsBound(t.rows, cell.key.rank, false, i)
    requires Used(kind, Spliced(t.rows, i, cell)) <= CAPACITY
    requires t.id in img' && img'[t.id] == Node(kind, true, Spliced(t.rows, i, cell), nxt)
    ensures var l := Tip(t.id, Spliced(t.rows, i, cell)); Grown(kind, img', t, cell, NoSplit, l, l, lo, hi, 0, nxt, live, live)
  {
    var cells := Spliced(t.rows, i, cell);
    SplicedGood(kind, img', t.id, t.rows, cell, i, lo, hi, nxt);
    assert IsPut(kind, t.rows, t.rows, cell, cells) by {
      LeafPut(kind, t.rows, cell, i);
    }
    assert live + {t.id} == live;
  }

  lemma SplicedGood(kind: Kind, img: Image, id: PageId, rows: seq<Cell>, cell: Cell, i: nat, lo: int, hi: int, nxt: PageId)
    requires Sorted(rows) && Within(rows, lo, hi) && forall j :: 0 <= j < |rows| ==> rows[j].Row? && LenOk(kind, rows[j].key)
    requires cell.Row? && LenOk(kind, cell.key) && lo <= cell.key.rank < hi && !HasRank(rows, cell.key.rank)
    requires IsBound(rows, cell.key.rank, false, i) && Used(kind, Spliced(rows, i, cell)) <= CAPACITY
    requires id in img && img[id] == Node(kind, true, Spliced(rows, i, cell), nxt)
    ensures Good(kind, img, Tip(id, Spliced(rows, i, cell)), lo, hi, 0, nxt)
  {
    SplicedSorted(rows, cell, i, lo, hi);
    SplicedRows(kind, rows, cell, i);
  }

  /** In the leaf itself nothing stands before or after. */
  lemma LeafPut(kind: Kind, rows: seq<Cell>, cell: Cell, i: nat)
    requires IsBound(rows, cell.key.rank, false, i)
    ensures IsPut(kind, rows, rows, cell, Settled(kind, Spliced(rows, i, cell)))
  {
    var s' := Settled(kind, Spliced(rows, i, cell));
    assert [] + rows + [] == rows && [] + s' + [] == s';
    assert PutAt(kind, rows, rows, cell, s', [], [], i);
  }

  /** Both halves of a split leaf, with the cells each accepted, and the promoted key. */
  lemma LeafSplitGrown(kind: Kind, img: Image, img': Image, t: Tree, cell: Cell, i: nat, cells: seq<Cell>, right: PageId,
                       lo: int, hi: int, nxt: PageId, live: set<PageId>)
    requires t.Tip? && Good(kind, img, t, lo, hi, 0, nxt) && t.id in live && right !in live
    requires cell.Row? && LenOk(kind, cell.key) && lo <= cell.key.rank < hi && !HasRank(t.rows, cell.key.rank)
    requires IsBound(t.rows, cell.key.rank, false, i) && cells == Spliced(t.rows, i, cell)
    requires |cells| >= 2 && Used(kind, cells) > CAPACITY
    requires t.id in img' && img'[t.id] == Node(kind, true, LeftHalf(kind, cells).cells, right)
    requires right in img' && img'[right] == Node(kind, true, RightHalf(kind, cells).cells, nxt)
    ensures Grown(kind, img', t, cell, Promoted(cells[|cells| / 2].key, right), Tip(t.id, LeftHalf(kind, cells).cells),
                  Tip(right, RightHalf(kind, cells).cells), lo, hi, 0, nxt, live, live + {right})
  {
    var l, r := Tip(t.id, LeftHalf(kind, cells).cells), Tip(right, RightHalf(kind, cells).cells);
    SplitGood(kind, img', t.id, t.rows, cell, i, cells, right, lo, hi, nxt);
    LeafPut(kind, t.rows, cell, i);
    TwoGrown(kind, img', t, cell, cells[|cells| / 2].key, l, r, lo, hi, nxt, live);
  }

  lemma SplitGood(kind: Kind, img: Image, id: PageId, rows: seq<Cell>, cell: Cell, i: nat, cells: seq<Cell>, right: PageId,
                  lo: int, hi: int, nxt: PageId)
    requires Sorted(rows) && Within(rows, lo, hi) && forall j :: 0 <= j < |rows| ==> rows[j].Row? && LenOk(kind, rows[j].key)
    requires cell.Row? && LenOk(kind, cell.key) && lo <= cell.key.rank < hi && !HasRank(rows, cell.key.rank)
    requires IsBound(rows, cell.key.rank, false, i) && cells == Spliced(rows, i, cell) && |cells| >= 2
    requires id in img && img[id] == Node(kind, true, LeftHalf(kind, cells).cells, right)
    requires right in img && img[right] == Node(kind, true, RightHalf(kind, cells).cells, nxt)
    ensures var mid := |cells| / 2;
            && lo < cells[mid].key.rank < hi && LenOk(kind, cells[mid].key)
            && Good(kind, img, Tip(id, LeftHalf(kind, cells).cells), lo, cells[mid].key.rank, 0, right)
            && Good(kind, img, Tip(right, RightHalf(kind, cells).cells), cells[mid].key.rank, hi, 0, nxt)
  {
    SplicedSorted(rows, cell, i, lo, hi);
    SplicedRows(kind, rows, cell, i);
    HalvesGood(kind, img, id, cells, right, lo, hi, nxt);
  }

  lemma TwoGrown(kind: Kind, img: Image, t: Tree, cell: Cell, key: Key, l: Tree, r: Tree, lo: int, hi: int, nxt: PageId, live: set<PageId>)
    requires t.Tip? && l.Tip? && r.Tip? && l.id == t.id && t.id in live && r.id !in live
    requires lo < key.rank < hi && LenOk(kind, key)
    requires Good(kind, img, l, lo, key.rank, 0, r.id) && Good(kind, img, r, key.rank, hi, 0, nxt)
    requires IsPut(kind, t.rows, t.rows, cell, l.rows + r.rows)
    ensures Grown(kind, img, t, cell, Promoted(key, r.id), l, r, lo, hi, 0, nxt, live, live + {r.id})
  {
    assert live + ({t.id} + {r.id}) == live + {r.id};
  }

  lemma HalvesGood(kind: Kind, img: Image, left: PageId, cells: seq<Cell>, right: PageId, lo: int, hi: int, nxt: PageId)
    requires |cells| >= 2 && Sorted(cells) && Within(cells, lo, hi)
    requires forall j :: 0 <= j < |cells| ==> cells[j].Row? && LenOk(kind, cells[j].key)
    requires left in img && img[left] == Node(kind, true, LeftHalf(kind, cells).cells, right)
    requires right in img && img[right] == Node(kind, true, RightHalf(kind, cells).cells, nxt)
    ensures var mid := |cells| / 2;
            && lo < cells[mid].key.rank < hi && LenOk(kind, cells[mid].key)
            && Good(kind, img, Tip(left, LeftHalf(kind, cells).cells), lo, cells[mid].key.rank, 0, right)
            && Good(kind, img, Tip(right, RightHalf(kind, cells).cells), cells[mid].key.rank, hi, 0, nxt)
  {
    var mid := |cells| / 2;
    HalvesSorted(cells, mid, lo, hi);
    HalfGood(kind, img, left, cells[..mid], lo, cells[mid].key.rank, right);
    HalfGood(kind, img, right, cells[mid..], cells[mid].key.rank, hi, nxt);
  }

  lemma HalfGood(kind: Kind, img: Image, id: PageId, cells: seq<Cell>, lo: int, hi: int, nxt: PageId)
    requires Sorted(cells) && Within(cells, lo, hi) && forall j :: 0 <= j < |cells| ==> cells[j].Row? && LenOk(kind, cells[j].key)
    requires id in img && img[id] == Node(kind, true, Fill(kind, cells, |cells|).cells, nxt)
    ensures Good(kind, img, Tip(id, Fill(kind, cells, |cells|).cells), lo, hi, 0, nxt)
  {
    FilledRows(kind, cells, lo, hi);
  }

  /** What a page accepts of sorted rows. */
  lemma FilledRows(kind: Kind, cells: seq<Cell>, lo: int, hi: int)
    requires Sorted(cells) && Within(cells, lo, hi) && forall j :: 0 <= j < |cells| ==> cells[j].Row? && LenOk(kind, cells[j].key)
    ensures var f := Fill(kind, cells, |cells|).cells;
            && Sorted(f) && Within(f, lo, hi) && Used(kind, f) <= CAPACITY
            && forall j :: 0 <= j < |f| ==> f[j].Row? && LenOk(kind, f[j].key)
  {
    FillKeepsOrder(kind, cells, |cells|);
    FillFits(kind, cells, |cells|);
  }

  lemma SplicedRows(kind: Kind, rows: seq<Cell>, cell: Cell, i: nat)
    requires i <= |rows| && cell.Row? && LenOk(kind, cell.key)
    requires forall j :: 0 <= j < |rows| ==> rows[j].Row? && LenOk(kind, rows[j].key)
    ensures forall j :: 0 <= j < |Spliced(rows, i, cell)| ==>
              Spliced(rows, i, cell)[j].Row? && LenOk(kind, Spliced(rows, i, cell)[j].key)
  {}

  lemma HalvesSorted(cells: seq<Cell>, mid: nat, lo: int, hi: int)
    requires 0 < mid < |cells| && Sorted(cells) && Within(cells, lo, hi)
    ensures lo < cells[mid].key.rank < hi
    ensures Sorted(cells[..mid]) && Within(cells[..mid], lo, cells[mid].key.rank)
    ensures Sorted(cells[mid..]) && Within(cells[mid..], cells[mid].key.rank, hi)
  {
    assert cells[0].key.rank < cells[mid].key.rank;
  }

  // ---------- interior pages ----------

  /** The keys and kids of a page after kid i was replaced. */
  ghost function KeysAfter(keys: seq<Key>, i: nat, split: Split): seq<Key>
    requires i <= |keys|
  {
    if split.NoSplit? then keys else keys[..i] + [split.key] + keys[i..]
  }

  ghost function KidsAfter(kids: seq<Tree>, i: nat, split: Split, l: Tree, r: Tree): seq<Tree>
    requires i < |kids|
  {
    if split.NoSplit? then kids[i := l] else kids[..i] + [l, r] + kids[i + 1..]
  }

  ghost function NewIds(split: Split, l: Tree, r: Tree): set<PageId> {
    if split.NoSplit? then Ids(l) else Ids(l) + Ids(r)
  }

  /** Below a page: kid i grew, its siblings and the page itself were left alone. */
  ghost predicate KidGrown(kind: Kind, img: Image, img': Image, t: Tree, i: nat, cell: Cell, split: Split, l: Tree, r: Tree,
                           lo: int, hi: int, h: nat, nxt: PageId, live: set<PageId>, live': set<PageId>) {
    && t.Fork? && h > 0 && Good(kind, img, t, lo, hi, h, nxt) && Ids(t) <= live
    && i < |t.kids| && |t.kids| == |t.keys| + 1
    && Routes(t.keys, cell.key.rank, i)
    && Grown(kind, img', t.kids[i], cell, split, l, r, LoOf(t.keys, lo, i), HiOf(t.keys, hi, i), h - 1,
             NextOf(t.kids, nxt, i), live, live')
    && (forall q :: q in live && q !in Ids(t.kids[i]) ==> q in img && q in img' && img'[q] == img[q])
  }

  ghost predicate KidGrew(kind: Kind, img: Image, img': Image, t: Tree, i: nat, cell: Cell, split: Split, l: Tree, r: Tree,
                          lo: int, hi: int, h: nat, nxt: PageId, live: set<PageId>, live': set<PageId>) {
    t.Fork? && i < |t.kids| && |t.kids| == |t.keys| + 1 && forall s :: s == split ==> KidGrown(kind, img, img', t, i, cell, s, l, r, lo, hi, h, nxt, live, live')
  }

  /** The kids after the change are good over any image that differs on the page only. */
  lemma KidsAfterGood(kind: Kind, img: Image, img': Image, img'': Image, t: Tree, i: nat, cell: Cell, split: Split, l: Tree, r: Tree,
                      lo: int, hi: int, h: nat, nxt: PageId, live: set<PageId>, live': set<PageId>)
    requires KidGrown(kind, img, img', t, i, cell, split, l, r, lo, hi, h, nxt, live, live')
    requires forall q :: q in live' && q != t.id ==> q in img' && q in img'' && img''[q] == img'[q]
    ensures KidsGood(kind, img'', KeysAfter(t.keys, i, split), KidsAfter(t.kids, i, split, l, r), lo, hi, h - 1, nxt)
  {
    var keys, kids := t.keys, t.kids;
    ForkKids(kind, img, t, lo, hi, h, nxt);
    SiblingsApart(kids, i, NewIds(split, l, r), live, t.id, img, img', img'');
    assert t.id !in NewIds(split, l, r);
    if split.NoSplit? {
      OneAfterGood(kind, img, img', img'', keys, kids, i, l, lo, hi, h - 1, nxt);
    } else {
      TwoAfterGood(kind, img, img', img'', keys, kids, i, l, split.key, r, lo, hi, h - 1, nxt);
    }
  }

  lemma OneAfterGood(kind: Kind, img: Image, img': Image, img'': Image, keys: seq<Key>, kids: seq<Tree>, i: nat, l: Tree,
                     lo: int, hi: int, h: nat, nxt: PageId)
    requires |kids| == |keys| + 1 && i < |kids| && KidsGood(kind, img, keys, kids, lo, hi, h, nxt)
    requires OthersAgree(img, img'', kids, i) && Apart(kids, i, Ids(l)) && Agree(img', img'', Ids(l))
    requires Good(kind, img', l, LoOf(keys, lo, i), HiOf(keys, hi, i), h, NextOf(kids, nxt, i)) && FirstLeaf(l) == FirstLeaf(kids[i])
    ensures KidsGood(kind, img'', keys, kids[i := l], lo, hi, h, nxt)
  {
    GoodFrame(kind, img', img'', l, LoOf(keys, lo, i), HiOf(keys, hi, i), h, NextOf(kids, nxt, i));
    ReplaceOne(kind, img, img'', keys, kids, lo, hi, h, nxt, i, l);
  }

  lemma TwoAfterGood(kind: Kind, img: Image, img': Image, img'': Image, keys: seq<Key>, kids: seq<Tree>, i: nat, l: Tree, key: Key, r: Tree,
                     lo: int, hi: int, h: nat, nxt: PageId)
    requires |kids| == |keys| + 1 && i < |kids| && KidsGood(kind, img, keys, kids, lo, hi, h, nxt)
    requires OthersAgree(img, img'', kids, i) && Apart(kids, i, Ids(l)) && Apart(kids, i, Ids(r)) && Ids(l) !! Ids(r)
    requires Agree(img', img'', Ids(l)) && Agree(img', img'', Ids(r))
    requires LoOf(keys, lo, i) < key.rank < HiOf(keys, hi, i) && LenOk(kind, key)
    requires Good(kind, img', l, LoOf(keys, lo, i), key.rank, h, FirstLeaf(r)) && FirstLeaf(l) == FirstLeaf(kids[i])
    requires Good(kind, img', r, key.rank, HiOf(keys, hi, i), h, NextOf(kids, nxt, i))
    ensures KidsGood(kind, img'', keys[..i] + [key] + keys[i..], kids[..i] + [l, r] + kids[i + 1..], lo, hi, h, nxt)
  {
    GoodFrame(kind, img', img'', l, LoOf(keys, lo, i), key.rank, h, FirstLeaf(r));
    GoodFrame(kind, img', img'', r, key.rank, HiOf(keys, hi, i), h, NextOf(kids, nxt, i));
    ReplaceTwo(kind, img, img'', keys, kids, lo, hi, h, nxt, i, l, key, r);
  }

  lemma ForkKids(kind: Kind, img: Image, t: Tree, lo: int, hi: int, h: nat, nxt: PageId)
    requires t.Fork? && Good(kind, img, t, lo, hi, h, nxt)
    ensures h > 0 && |t.kids| == |t.keys| + 1
    ensures KidsGood(kind, img, t.keys, t.kids, lo, hi, h - 1, nxt) && KidsApart(t.kids)
    ensures t.id !in IdsOf(t.kids) && IdsOf(t.kids) <= Ids(t)
  {}

  lemma SiblingsApart(kids: seq<Tree>, i: nat, ids: set<PageId>, live: set<PageId>, id: PageId, img: Image, img': Image, img'': Image)
    requires i < |kids| && KidsApart(kids) && IdsOf(kids) <= live && ids * live <= Ids(kids[i])
    requires forall j :: 0 <= j < |kids| ==> id !in Ids(kids[j])
    requires forall q :: q in live && q !in Ids(kids[i]) ==> q in img && q in img' && img'[q] == img[q]
    requires forall q :: q in live && q != id ==> q in img' && q in img'' && img''[q] == img'[q]
    ensures Apart(kids, i, ids) && OthersAgree(img, img'', kids, i)
  {
    forall j | 0 <= j < |kids| && j != i
      ensures Ids(kids[j]) !! ids && Agree(img, img'', Ids(kids[j]))
    {
      assert Ids(kids[j]) <= IdsOf(kids);
      assert Ids(kids[j]) !! Ids(kids[i]);
    }
  }

  ghost function NewRows(split: Split, l: Tree, r: Tree): seq<Cell> {
    if split.NoSplit? then Contents(l) else Contents(l) + Contents(r)
  }

  lemma KidsAfterContents(kind: Kind, img: Image, keys: seq<Key>, kids: seq<Tree>, i: nat, leaf: seq<Cell>, cell: Cell,
                          split: Split, l: Tree, r: Tree, lo: int, hi: int, h: nat, nxt: PageId)
    requires |kids| == |keys| + 1 && i < |kids| && KidsGood(kind, img, keys, kids, lo, hi, h, nxt)
    requires Routes(keys, cell.key.rank, i) && lo <= cell.key.rank < hi
    requires IsPut(kind, Contents(kids[i]), leaf, cell, NewRows(split, l, r))
    ensures IsPut(kind, Flatten(kids), leaf, cell, Flatten(KidsAfter(kids, i, split, l, r)))
  {
    FlattenAround(kids, i);
    AroundKid(kind, img, keys, kids, lo, hi, h, nxt, cell.key.rank, i);
    PutBetween(kind, Flatten(kids[..i]), Contents(kids[i]), Flatten(kids[i + 1..]), leaf, cell, NewRows(split, l, r));
    FlattenAfter(kids, i, split, l, r);
  }

  lemma FlattenAfter(kids: seq<Tree>, i: nat, split: Split, l: Tree, r: Tree)
    requires i < |kids|
    ensures Flatten(KidsAfter(kids, i, split, l, r)) == Flatten(kids[..i]) + NewRows(split, l, r) + Flatten(kids[i + 1..])
  {
    var news := if split.NoSplit? then [l] else [l, r];
    assert KidsAfter(kids, i, split, l, r) == kids[..i] + news + kids[i + 1..];
    FlattenConcat(kids[..i] + news, kids[i + 1..]);
    FlattenConcat(kids[..i], news);
    FlattenFew(l, r);
  }

  lemma FlattenFew(l: Tree, r: Tree)
    ensures Flatten([l]) == Contents(l) && Flatten([l, r]) == Contents(l) + Contents(r)
  {
    assert [l][1..] == [] && [l, r][1..] == [r] && [r][1..] == [];
    assert Flatten([l]) == Contents(l) + Flatten([]);
    assert Flatten([r]) == Contents(r) + Flatten([]);
    assert Flatten([l, r]) == Contents(l) + Flatten([r]);
  }

  lemma KidsAfterIds(t: Tree, i: nat, split: Split, l: Tree, r: Tree, live: set<PageId>, live': set<PageId>)
    requires t.Fork? && i < |t.kids| && Ids(t) <= live && Took(t.kids[i], NewIds(split, l, r), live, live')
    requires forall j :: 0 <= j < |t.kids| ==> t.id !in Ids(t.kids[j])
    ensures var kids' := KidsAfter(t.kids, i, split, l, r);
            && t.id !in IdsOf(kids')
            && IdsOf(t.kids) <= IdsOf(kids') && live' == live + IdsOf(kids') && IdsOf(kids') * live <= IdsOf(t.kids)
  {
    IdsAfter(t.kids, i, split, l, r);
    IdsAfter(t.kids, i, NoSplit, t.kids[i], t.kids[i]);
    assert KidsAfter(t.kids, i, NoSplit, t.kids[i], t.kids[i]) == t.kids;
    assert IdsOf(t.kids) <= live;
    assert t.id !in Ids(t.kids[i]) && t.id !in IdsOf(t.kids);
  }

  lemma IdsAfter(kids: seq<Tree>, i: nat, split: Split, l: Tree, r: Tree)
    requires i < |kids|
    ensures IdsOf(KidsAfter(kids, i, split, l, r)) == IdsOf(kids[..i]) + NewIds(split, l, r) + IdsOf(kids[i + 1..])
  {
    var news := if split.NoSplit? then [l] else [l, r];
    assert KidsAfter(kids, i, split, l, r) == kids[..i] + news + kids[i + 1..];
    IdsConcat(kids[..i] + news, kids[i + 1..]);
    IdsConcat(kids[..i], news);
    IdsFew(l, r);
  }

  lemma IdsFew(l: Tree, r: Tree)
    ensures IdsOf([l]) == Ids(l) && IdsOf([l, r]) == Ids(l) + Ids(r)
  {
    assert [l][0] == l;
    assert [l, r][0] == l && [l, r][1] == r;
  }

  lemma FirstAfter(kids: seq<Tree>, i: nat, split: Split, l: Tree, r: Tree)
    requires i < |kids| && FirstLeaf(l) == FirstLeaf(kids[i])
    ensures FirstLeaf(KidsAfter(kids, i, split, l, r)[0]) == FirstLeaf(kids[0])
  {}

  /** Everything below the page is in place for its new keys and kids. */
  ghost predicate Prepared(kind: Kind, img: Image, t: Tree, cell: Cell, keys: seq<Key>, kids: seq<Tree>,
                           lo: int, hi: int, h: nat, nxt: PageId, live: set<PageId>, live': set<PageId>) {
    && h > 0 && |kids| == |keys| + 1
    && KidsGood(kind, img, keys, kids, lo, hi, h - 1, nxt)
    && t.Fork? && t.id in live && t.id !in IdsOf(kids)
    && FirstLeaf(kids[0]) == FirstLeaf(t)
    && Ids(t) <= {t.id} + IdsOf(kids) && live' == live + IdsOf(kids) && IdsOf(kids) * live <= Ids(t)
    && IsPut(kind, Contents(t), LeafFor(t, cell.key.rank), cell, Flatten(kids))
  }

  ghost predicate Primed(kind: Kind, img: Image, t: Tree, cell: Cell, keys: seq<Key>, kids: seq<Tree>,
                         lo: int, hi: int, h: nat, nxt: PageId, live: set<PageId>, live': set<PageId>) {
    h > 0 && |kids| == |keys| + 1 && forall ks :: ks == keys ==> Prepared(kind, img, t, cell, ks, kids, lo, hi, h, nxt, live, live')
  }

  lemma KidGrownPrepares(kind: Kind, img: Image, img': Image, img'': Image, t: Tree, i: nat, cell: Cell, split: Split, l: Tree, r: Tree,
                         lo: int, hi: int, h: nat, nxt: PageId, live: set<PageId>, live': set<PageId>)
    requires KidGrown(kind, img, img', t, i, cell, split, l, r, lo, hi, h, nxt, live, live') && lo <= cell.key.rank < hi
    requires forall q :: q in live' && q != t.id ==> q in img' && q in img'' && img''[q] == img'[q]
    ensures Prepared(kind, img'', t, cell, KeysAfter(t.keys, i, split), KidsAfter(t.kids, i, split, l, r), lo, hi, h, nxt, live, live')
  {
    ForkKids(kind, img, t, lo, hi, h, nxt);
    KidsAfterGood(kind, img, img', img'', t, i, cell, split, l, r, lo, hi, h, nxt, live, live');
    assert IsPut(kind, Contents(t), LeafFor(t, cell.key.rank), cell, Flatten(KidsAfter(t.kids, i, split, l, r))) by {
      RouteIs(t.keys, cell.key.rank, i);
      KidsAfterContents(kind, img, t.keys, t.kids, i, LeafFor(t, cell.key.rank), cell, split, l, r, lo, hi, h - 1, nxt);
    }
    KidsAfterIds(t, i, split, l, r, live, live');
    FirstAfter(t.kids, i, split, l, r);
  }

  /** The changed page holds its new cells: the insert ends here. */
  lemma ForkGrown(kind: Kind, img: Image, t: Tree, cell: Cell, keys: seq<Key>, kids: seq<Tree>,
                  lo: int, hi: int, h: nat, nxt: PageId, live: set<PageId>, live': set<PageId>)
    requires Prepared(kind, img, t, cell, keys, kids, lo, hi, h, nxt, live, live')
    requires Used(kind, Seps(keys, kids)) <= CAPACITY
    requires t.id in img && img[t.id] == Node(kind, false, Seps(keys, kids), kids[|keys|].id)
    ensures Grown(kind, img, t, cell, NoSplit, Fork(t.id, keys, kids), Fork(t.id, keys, kids), lo, hi, h, nxt, live, live')
  {
    ForkIsGood(kind, img, t.id, keys, kids, lo, hi, h, nxt);
    assert live + Ids(Fork(t.id, keys, kids)) == live';
  }

  lemma ForkIsGood(kind: Kind, img: Image, id: PageId, keys: seq<Key>, kids: seq<Tree>, lo: int, hi: int, h: nat, nxt: PageId)
    requires h > 0 && KidsGood(kind, img, keys, kids, lo, hi, h - 1, nxt) && |kids| == |keys| + 1
    requires id !in IdsOf(kids) && Used(kind, Seps(keys, kids)) <= CAPACITY
    requires id in img && img[id] == Node(kind, false, Seps(keys, kids), kids[|keys|].id)
    ensures Good(kind, img, Fork(id, keys, kids), lo, hi, h, nxt)
  {
    forall i | 0 <= i < |kids| ensures id !in Ids(kids[i]) {
      assert Ids(kids[i]) <= IdsOf(kids);
    }
  }

  /** The new cells overflowed the page and were split around the middle key. */
  lemma ForkSplitGrown(kind: Kind, img: Image, t: Tree, cell: Cell, keys: seq<Key>, kids: seq<Tree>,
                       lo: int, hi: int, h: nat, nxt: PageId, live: set<PageId>, live': set<PageId>, mid: nat, right: PageId)
    requires Prepared(kind, img, t, cell, keys, kids, lo, hi, h, nxt, live, live')
    requires mid < |keys| && right !in live'
    requires Used(kind, Seps(keys[..mid], kids[..mid + 1])) <= CAPACITY
    requires Used(kind, Seps(keys[mid + 1..], kids[mid + 1..])) <= CAPACITY
    requires t.id in img && img[t.id] == Node(kind, false, Seps(keys[..mid], kids[..mid + 1]), kids[mid].id)
    requires right in img && img[right] == Node(kind, false, Seps(keys[mid + 1..], kids[mid + 1..]), kids[|keys|].id)
    ensures Grown(kind, img, t, cell, Promoted(keys[mid], right),
                  Fork(t.id, keys[..mid], kids[..mid + 1]), Fork(right, keys[mid + 1..], kids[mid + 1..]),
                  lo, hi, h, nxt, live, live' + {right})
  {
    SplitForkGood(kind, img, t.id, right, keys, kids, lo, hi, h, nxt, mid);
    assert live + ({t.id, right} + IdsOf(kids)) == live' + {right};
  }

  lemma SplitForkGood(kind: Kind, img: Image, id: PageId, right: PageId, keys: seq<Key>, kids: seq<Tree>,
                      lo: int, hi: int, h: nat, nxt: PageId, mid: nat)
    requires h > 0 && KidsGood(kind, img, keys, kids, lo, hi, h - 1, nxt) && |kids| == |keys| + 1 && mid < |keys|
    requires id !in IdsOf(kids) && right !in IdsOf(kids) && id != right
    requires Used(kind, Seps(keys[..mid], kids[..mid + 1])) <= CAPACITY
    requires Used(kind, Seps(keys[mid + 1..], kids[mid + 1..])) <= CAPACITY
    requires id in img && img[id] == Node(kind, false, Seps(keys[..mid], kids[..mid + 1]), kids[mid].id)
    requires right in img && img[right] == Node(kind, false, Seps(keys[mid + 1..], kids[mid + 1..]), kids[|keys|].id)
    ensures var a, b := Fork(id, keys[..mid], kids[..mid + 1]), Fork(right, keys[mid + 1..], kids[mid + 1..]);
            && Good(kind, img, a, lo, keys[mid].rank, h, FirstLeaf(b)) && Good(kind, img, b, keys[mid].rank, hi, h, nxt)
            && Ids(a) !! Ids(b) && Ids(a) + Ids(b) == {id, right} + IdsOf(kids)
            && Contents(a) + Contents(b) == Flatten(kids)
            && lo < keys[mid].rank < hi && LenOk(kind, keys[mid])
  {
    SplitIds(kids, mid + 1);
    assert lo < keys[mid].rank < hi && LenOk(kind, keys[mid]);
    LeftForkGood(kind, img, id, keys, kids, lo, hi, h, nxt, mid);
    RightForkGood(kind, img, right, keys, kids, lo, hi, h, nxt, mid);
  }

  lemma LeftForkGood(kind: Kind, img: Image, id: PageId, keys: seq<Key>, kids: seq<Tree>, lo: int, hi: int, h: nat, nxt: PageId, mid: nat)
    requires h > 0 && KidsGood(kind, img, keys, kids, lo, hi, h - 1, nxt) && |kids| == |keys| + 1 && mid < |keys|
    requires id !in IdsOf(kids) && Used(kind, Seps(keys[..mid], kids[..mid + 1])) <= CAPACITY
    requires id in img && img[id] == Node(kind, false, Seps(keys[..mid], kids[..mid + 1]), kids[mid].id)
    ensures Good(kind, img, Fork(id, keys[..mid], kids[..mid + 1]), lo, keys[mid].rank, h, FirstLeaf(kids[mid + 1]))
  {
    SplitIds(kids, mid + 1);
    LeftKids(kind, img, keys, kids, lo, hi, h - 1, nxt, mid);
    ForkIsGood(kind, img, id, keys[..mid], kids[..mid + 1], lo, keys[mid].rank, h, FirstLeaf(kids[mid + 1]));
  }

  lemma RightForkGood(kind: Kind, img: Image, id: PageId, keys: seq<Key>, kids: seq<Tree>, lo: int, hi: int, h: nat, nxt: PageId, mid: nat)
    requires h > 0 && KidsGood(kind, img, keys, kids, lo, hi, h - 1, nxt) && |kids| == |keys| + 1 && mid < |keys|
    requires id !in IdsOf(kids) && Used(kind, Seps(keys[mid + 1..], kids[mid + 1..])) <= CAPACITY
    requires id in img && img[id] == Node(kind, false, Seps(keys[mid + 1..], kids[mid + 1..]), kids[|keys|].id)
    ensures Good(kind, img, Fork(id, keys[mid + 1..], kids[mid + 1..]), keys[mid].rank, hi, h, nxt)
  {
    SplitIds(kids, mid + 1);
    RightKids(kind, img, keys, kids, lo, hi, h - 1, nxt, mid);
    ForkIsGood(kind, img, id, keys[mid + 1..], kids[mid + 1..], keys[mid].rank, hi, h, nxt);
  }

  // ---------- the cells of an interior page ----------

  /** Point the cell at i (or the rightmost link) at the new right page, then put a cell for
      the promoted key and the old child before it. */
  function CellsAfter(cells: seq<Cell>, i: nat, key: Key, child: PageId, right: PageId): seq<Cell>
    requires i <= |cells| && (i < |cells| ==> cells[i].Sep?)
  {
    Spliced(if i < |cells| then cells[i := cells[i].(child := right)] else cells, i, Sep(key, child))
  }

  lemma SepsAfter(keys: seq<Key>, kids: seq<Tree>, i: nat, split: Split, l: Tree, r: Tree)
    requires |kids| == |keys| + 1 && i < |kids| && split.Promoted? && r.id == split.right && l.id == kids[i].id
    ensures Seps(KeysAfter(keys, i, split), KidsAfter(kids, i, split, l, r))
            == CellsAfter(Seps(keys, kids), i, split.key, kids[i].id, split.right)
    ensures KidsAfter(kids, i, split, l, r)[|keys| + 1].id == if i < |keys| then kids[|keys|].id else split.right
  {
    var keys', kids' := KeysAfter(keys, i, split), KidsAfter(kids, i, split, l, r);
    var a, b := Seps(keys', kids'), CellsAfter(Seps(keys, kids), i, split.key, kids[i].id, split.right);
    assert |a| == |b|;
    forall j | 0 <= j < |a| ensures a[j] == b[j] {
      if j < i {
        assert keys'[j] == keys[j] && kids'[j] == kids[j];
      } else if j > i {
        assert keys'[j] == keys[j - 1];
        assert j > i + 1 ==> kids'[j] == kids[j - 1];
      }
    }
  }

  lemma SepsSplit(keys: seq<Key>, kids: seq<Tree>, mid: nat)
    requires |kids| == |keys| + 1 && mid < |keys|
    ensures Seps(keys, kids)[..mid] == Seps(keys[..mid], kids[..mid + 1])
    ensures Seps(keys, kids)[mid + 1..] == Seps(keys[mid + 1..], kids[mid + 1..])
  {}
}
