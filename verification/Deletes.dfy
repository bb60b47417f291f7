/** What a delete, a grown root and a wider key range do to a tree. */
module Deletes {
  import opened Pages
  import opened Journal
  import opened Trees
  import opened Splits
  import opened Inserts

  /** s without the cell of the given rank. */
  ghost predicate IsRemoved(s: seq<Cell>, rank: int, s': seq<Cell>) {
    exists k :: 0 <= k < |s| && s[k].key.rank == rank && s' == s[..k] + s[k + 1..]
  }

  /** The descent by separators from t ends at the leaf. */
  ghost predicate Reaches(t: Tree, rank: int, leaf: PageId)
    decreases t
  {
    match t
    case Tip(id, _) => id == leaf
    case Fork(_, keys, kids) =>
      exists i {:trigger Kid(kids, i)} :: 0 <= i < |kids| && Routes(keys, rank, i) && Reaches(Kid(kids, i), rank, leaf)
  }

  lemma ReachesBelow(t: Tree, rank: int, i: nat)
    requires t.Fork? && i < |t.kids| && Routes(t.keys, rank, i)
    ensures forall leaf :: Reaches(t.kids[i], rank, leaf) ==> Reaches(t, rank, leaf)
  {
    assert Kid(t.kids, i) == t.kids[i];
  }

  lemma RemovedBetween(a: seq<Cell>, s: seq<Cell>, b: seq<Cell>, rank: int, s': seq<Cell>)
    requires IsRemoved(s, rank, s')
    ensures IsRemoved(a + s + b, rank, a + s' + b)
  {
    var k :| 0 <= k < |s| && s[k].key.rank == rank && s' == s[..k] + s[k + 1..];
    var whole := a + s + b;
    assert whole[|a| + k] == s[k];
    assert a + s' + b == whole[..|a| + k] + whole[|a| + k + 1..];
  }

  /** The page after delete_cell. */
  function WithoutCell(page: Page, i: nat): Page
    requires page.Node? && i < |page.cells|
  {
    page.(cells := page.cells[..i] + page.cells[i + 1..])
  }

  lemma LeafLoses(kind: Kind, img: Image, t: Tree, lo: int, hi: int, nxt: PageId, i: nat) returns (t': Tree)
    requires t.Tip? && Good(kind, img, t, lo, hi, 0, nxt) && i < |t.rows|
    ensures Good(kind, img[t.id := WithoutCell(img[t.id], i)], t', lo, hi, 0, nxt)
    ensures t' == Tip(t.id, t.rows[..i] + t.rows[i + 1..])
  {
    t' := Tip(t.id, t.rows[..i] + t.rows[i + 1..]);
    UsedWithout(kind, t.rows, i);
    RowsWithout(kind, t.rows, i, lo, hi);
  }

  lemma RowsWithout(kind: Kind, rows: seq<Cell>, i: nat, lo: int, hi: int)
    requires Sorted(rows) && Within(rows, lo, hi) && i < |rows| && forall j :: 0 <= j < |rows| ==> rows[j].Row? && LenOk(kind, rows[j].key)
    ensures var rest := rows[..i] + rows[i + 1..];
            Sorted(rest) && Within(rest, lo, hi) && forall j :: 0 <= j < |rest| ==> rest[j].Row? && LenOk(kind, rest[j].key)
  {
    var rest := rows[..i] + rows[i + 1..];
    assert forall j :: 0 <= j < |rest| ==> rest[j] == if j < i then rows[j] else rows[j + 1];
  }

  /** Deleting the cell from the leaf the descent reaches deletes the key from the tree and
      keeps it good, whether or not the leaf becomes empty. */
  lemma {:induction false} TreeLoses(kind: Kind, img: Image, t: Tree, lo: int, hi: int, h: nat, nxt: PageId, rank: int, leaf: PageId, i: nat)
    returns (t': Tree)
    requires Good(kind, img, t, lo, hi, h, nxt) && lo <= rank < hi && Reaches(t, rank, leaf)
    requires leaf in img && img[leaf].Node? && i < |img[leaf].cells| && img[leaf].cells[i].key.rank == rank
    ensures leaf in Ids(t)
    ensures Good(kind, img[leaf := WithoutCell(img[leaf], i)], t', lo, hi, h, nxt)
    ensures t'.id == t.id && FirstLeaf(t') == FirstLeaf(t) && Ids(t') == Ids(t)
    ensures IsRemoved(Contents(t), rank, Contents(t'))
    decreases t
  {
    match t
    case Tip(_, rows) =>
      t' := LeafLoses(kind, img, t, lo, hi, nxt, i);
    case Fork(id, keys, kids) =>
      ForkKids(kind, img, t, lo, hi, h, nxt);
      var k :| 0 <= k < |kids| && Routes(keys, rank, k) && Reaches(Kid(kids, k), rank, leaf);
      assert KidGood(kind, img, keys, kids, lo, hi, h - 1, nxt, k);
      var kid := TreeLoses(kind, img, kids[k], LoOf(keys, lo, k), HiOf(keys, hi, k), h - 1, NextOf(kids, nxt, k), rank, leaf, i);
      t' := KidLost(kind, img, t, lo, hi, h, nxt, rank, leaf, i, k, kid);
  }

  lemma KidLost(kind: Kind, img: Image, t: Tree, lo: int, hi: int, h: nat, nxt: PageId, rank: int, leaf: PageId, i: nat, k: nat, kid: Tree)
    returns (t': Tree)
    requires t.Fork? && h > 0 && Good(kind, img, t, lo, hi, h, nxt) && |t.kids| == |t.keys| + 1 && k < |t.kids|
    requires leaf in img && img[leaf].Node? && i < |img[leaf].cells| && leaf in Ids(t.kids[k])
    requires Good(kind, img[leaf := WithoutCell(img[leaf], i)], kid, LoOf(t.keys, lo, k), HiOf(t.keys, hi, k), h - 1, NextOf(t.kids, nxt, k))
    requires kid.id == t.kids[k].id && FirstLeaf(kid) == FirstLeaf(t.kids[k]) && Ids(kid) == Ids(t.kids[k])
    requires IsRemoved(Contents(t.kids[k]), rank, Contents(kid))
    ensures t' == Fork(t.id, t.keys, t.kids[k := kid])
    ensures Good(kind, img[leaf := WithoutCell(img[leaf], i)], t', lo, hi, h, nxt)
    ensures FirstLeaf(t') == FirstLeaf(t) && Ids(t') == Ids(t) && leaf in Ids(t)
    ensures IsRemoved(Contents(t), rank, Contents(t'))
  {
    var keys, kids := t.keys, t.kids;
    ForkKids(kind, img, t, lo, hi, h, nxt);
    var img' := img[leaf := WithoutCell(img[leaf], i)];
    var kids' := kids[k := kid];
    t' := Fork(t.id, keys, kids');
    assert t.id != leaf;
    assert KidsGood(kind, img', keys, kids', lo, hi, h - 1, nxt) by {
      ReplaceOne(kind, img, img', keys, kids, lo, hi, h - 1, nxt, k, kid);
    }
    assert Seps(keys, kids') == Seps(keys, kids);
    SameIds(kids, kids');
    ForkIsGood(kind, img', t.id, keys, kids', lo, hi, h, nxt);
    KidRemoved(kids, k, kid, rank);
  }

  lemma KidRemoved(kids: seq<Tree>, k: nat, kid: Tree, rank: int)
    requires k < |kids| && IsRemoved(Contents(kids[k]), rank, Contents(kid))
    ensures IsRemoved(Flatten(kids), rank, Flatten(kids[k := kid]))
  {
    FlattenAround(kids, k);
    FlattenAfter(kids, k, NoSplit, kid, kid);
    RemovedBetween(Flatten(kids[..k]), Contents(kids[k]), Flatten(kids[k + 1..]), rank, Contents(kid));
  }

  lemma SameIds(kids: seq<Tree>, kids': seq<Tree>)
    requires |kids| == |kids'| && forall j :: 0 <= j < |kids| ==> Ids(kids[j]) == Ids(kids'[j])
    ensures IdsOf(kids) == IdsOf(kids')
  {}

  // ---------- a wider range ----------

  lemma {:induction false} Widen(kind: Kind, img: Image, t: Tree, lo: int, hi: int, h: nat, nxt: PageId, lo': int, hi': int)
    requires Good(kind, img, t, lo, hi, h, nxt) && lo' <= lo && hi <= hi'
    ensures Good(kind, img, t, lo', hi', h, nxt)
    decreases t, 1
  {
    if t.Fork? {
      WidenKids(kind, img, t.keys, t.kids, lo, hi, h - 1, nxt, lo', hi');
    }
  }

  lemma {:induction false} WidenKids(kind: Kind, img: Image, keys: seq<Key>, kids: seq<Tree>, lo: int, hi: int, h: nat, nxt: PageId, lo': int, hi': int)
    requires KidsGood(kind, img, keys, kids, lo, hi, h, nxt) && lo' <= lo && hi <= hi'
    ensures KidsGood(kind, img, keys, kids, lo', hi', h, nxt)
    decreases kids, 0
  {
    forall i | 0 <= i < |kids|
      ensures Kid(kids, i) == kids[i] && KidGood(kind, img, keys, kids, lo', hi', h, nxt, i)
    {
      assert KidGood(kind, img, keys, kids, lo, hi, h, nxt, i);
      Widen(kind, img, kids[i], LoOf(keys, lo, i), HiOf(keys, hi, i), h, NextOf(kids, nxt, i), LoOf(keys, lo', i), HiOf(keys, hi', i));
    }
  }

  // ---------- a grown root ----------

  ghost function Moved(t: Tree, id: PageId): Tree {
    match t
    case Tip(_, rows) => Tip(id, rows)
    case Fork(_, keys, kids) => Fork(id, keys, kids)
  }

  /** The left half of the old root, copied to a page of its own. */
  lemma MovedGood(kind: Kind, img: Image, img': Image, t: Tree, id: PageId, lo: int, hi: int, h: nat, nxt: PageId)
    requires Good(kind, img, t, lo, hi, h, nxt) && id !in Ids(t)
    requires id in img' && img'[id] == img[t.id] && Agree(img, img', Ids(t) - {t.id})
    ensures Good(kind, img', Moved(t, id), lo, hi, h, nxt)
    ensures Ids(Moved(t, id)) == Ids(t) - {t.id} + {id} && Contents(Moved(t, id)) == Contents(t)
  {
    if t.Fork? {
      ForkKids(kind, img, t, lo, hi, h, nxt);
      KidsFrame(kind, img, img', t.keys, t.kids, lo, hi, h - 1, nxt);
      ForkIsGood(kind, img', id, t.keys, t.kids, lo, hi, h, nxt);
    }
  }

  lemma RootGood(kind: Kind, img: Image, root: PageId, a: Tree, key: Key, b: Tree, lo: int, hi: int, h: nat)
    requires Good(kind, img, a, lo, key.rank, h, FirstLeaf(b)) && Good(kind, img, b, key.rank, hi, h, 0)
    requires lo < key.rank < hi && LenOk(kind, key) && Ids(a) !! Ids(b) && root !in Ids(a) && root !in Ids(b)
    requires root in img && img[root] == Node(kind, false, [Sep(key, a.id)], b.id)
    ensures var t := Fork(root, [key], [a, b]);
            Good(kind, img, t, lo, hi, h + 1, 0) && Contents(t) == Contents(a) + Contents(b) && Ids(t) == {root} + Ids(a) + Ids(b)
  {
    var keys, kids := [key], [a, b];
    forall i | 0 <= i < |kids| ensures Kid(kids, i) == kids[i] && KidGood(kind, img, keys, kids, lo, hi, h, 0, i) {}
    assert KidsGood(kind, img, keys, kids, lo, hi, h, 0);
    IdsFew(a, b);
    FlattenFew(a, b);
    assert Seps(keys, kids) == [Sep(key, a.id)];
    assert Used(kind, [Sep(key, a.id)]) == CellCost(kind, Sep(key, a.id));
    ForkIsGood(kind, img, root, keys, kids, lo, hi, h + 1, 0);
  }

  /** grow_root: the halves of the old root under a root page with one separator. */
  lemma RootGrows(kind: Kind, img: Image, img': Image, newLeft: PageId, l: Tree, key: Key, r: Tree, lo: int, hi: int, h: nat)
    returns (t: Tree)
    requires Good(kind, img, l, lo, key.rank, h, FirstLeaf(r)) && Good(kind, img, r, key.rank, hi, h, 0)
    requires lo < key.rank < hi && LenOk(kind, key) && Ids(l) !! Ids(r) && newLeft !in Ids(l) + Ids(r)
    requires l.id in img' && img'[l.id] == Node(kind, false, [Sep(key, newLeft)], r.id)
    requires newLeft in img' && img'[newLeft] == img[l.id]
    requires Agree(img, img', Ids(l) + Ids(r) - {l.id})
    ensures t.id == l.id && Good(kind, img', t, lo, hi, h + 1, 0)
    ensures Contents(t) == Contents(l) + Contents(r) && Ids(t) == Ids(l) + Ids(r) + {newLeft}
  {
    t := Fork(l.id, [key], [Moved(l, newLeft), r]);
    assert l.id in Ids(l);
    MovedGood(kind, img, img', l, newLeft, lo, key.rank, h, FirstLeaf(r));
    GoodFrame(kind, img, img', r, key.rank, hi, h, 0);
    RootGood(kind, img', l.id, Moved(l, newLeft), key, r, lo, hi, h);
  }
}
