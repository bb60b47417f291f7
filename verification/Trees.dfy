/** B+trees as values: what pages a tree occupies, what it holds, and the shape btree.c
    keeps (order, separators, equal depth, disjoint pages, the chain of leaves). */
module Trees {
  import opened Pages
  import opened Journal

  /** A tree laid over pages; keys[i] separates kids[i] from kids[i + 1]. */
  datatype Tree =
    | Tip(id: PageId, rows: seq<Cell>)
    | Fork(id: PageId, keys: seq<Key>, kids: seq<Tree>)

  // ---------- contents ----------

  ghost function Contents(t: Tree): seq<Cell>
    decreases t, 1
  {
    match t
    case Tip(_, rows) => rows
    case Fork(_, _, kids) => Flatten(kids)
  }

  ghost function Flatten(ts: seq<Tree>): seq<Cell>
    decreases ts, 0
  {
    if ts == [] then [] else Contents(ts[0]) + Flatten(ts[1..])
  }

  ghost function Ids(t: Tree): set<PageId> {
    match t
    case Tip(id, _) => {id}
    case Fork(id, _, kids) => {id} + IdsOf(kids)
  }

  ghost function IdsOf(ts: seq<Tree>): set<PageId> {
    set i, q | 0 <= i < |ts| && q in Ids(ts[i]) :: q
  }

  ghost function FirstLeaf(t: Tree): PageId {
    match t
    case Tip(id, _) => id
    case Fork(id, _, kids) => if kids == [] then id else FirstLeaf(kids[0])
  }

  // ---------- order ----------

  ghost predicate Sorted(s: seq<Cell>) {
    forall i, j :: 0 <= i < j < |s| ==> s[i].key.rank < s[j].key.rank
  }

  ghost predicate Within(s: seq<Cell>, lo: int, hi: int) {
    forall i :: 0 <= i < |s| ==> lo <= s[i].key.rank < hi
  }

  ghost predicate Below(s: seq<Cell>, rank: int) {
    forall i :: 0 <= i < |s| ==> s[i].key.rank < rank
  }

  ghost predicate Above(s: seq<Cell>, rank: int) {
    forall i :: 0 <= i < |s| ==> s[i].key.rank > rank
  }

  ghost predicate HasRank(s: seq<Cell>, rank: int) {
    exists i :: 0 <= i < |s| && s[i].key.rank == rank
  }

  /** find_index: the first cell not below the key (strict: above the key). */
  ghost predicate IsBound(s: seq<Cell>, rank: int, strict: bool, i: int) {
    && 0 <= i <= |s|
    && (forall j :: 0 <= j < i ==> if strict then s[j].key.rank <= rank else s[j].key.rank < rank)
    && (i < |s| ==> if strict then s[i].key.rank > rank else s[i].key.rank >= rank)
  }

  /** s with the cell c put before the first cell not below it. */
  ghost predicate IsInserted(s: seq<Cell>, c: Cell, s': seq<Cell>) {
    exists i :: IsBound(s, c.key.rank, false, i) && s' == s[..i] + [c] + s[i..]
  }

  // ---------- shape ----------

  ghost function LoOf(keys: seq<Key>, lo: int, i: nat): int
    requires i <= |keys|
  {
    if i == 0 then lo else keys[i - 1].rank
  }

  ghost function HiOf(keys: seq<Key>, hi: int, i: nat): int
    requires i <= |keys|
  {
    if i < |keys| then keys[i].rank else hi
  }

  ghost function NextOf(kids: seq<Tree>, nxt: PageId, i: nat): PageId
    requires i < |kids|
  {
    if i + 1 < |kids| then FirstLeaf(kids[i + 1]) else nxt
  }

  ghost predicate KeysOk(kind: Kind, keys: seq<Key>, lo: int, hi: int) {
    && (forall i :: 0 <= i < |keys| ==> lo < keys[i].rank < hi && LenOk(kind, keys[i]))
    && (forall i, j :: 0 <= i < j < |keys| ==> keys[i].rank < keys[j].rank)
  }

  /** The executor's index keys hold a tag byte and an 8-byte rowid, in buffers of 96 bytes. */
  predicate LenOk(kind: Kind, key: Key) {
    kind == Index ==> 9 <= key.len <= 96
  }

  function Seps(keys: seq<Key>, kids: seq<Tree>): (r: seq<Cell>)
    requires |keys| <= |kids|
    ensures |r| == |keys|
  {
    seq(|keys|, i requires 0 <= i < |keys| => Sep(keys[i], kids[i].id))
  }

  /** img lays out t: keys in [lo, hi), height h, the last leaf linked to nxt. */
  ghost predicate Good(kind: Kind, img: Image, t: Tree, lo: int, hi: int, h: nat, nxt: PageId)
    decreases t, 1
  {
    && t.id in img
    && match t
       case Tip(id, rows) =>
         && h == 0
         && img[id] == Node(kind, true, rows, nxt)
         && Sorted(rows) && Within(rows, lo, hi) && Used(kind, rows) <= CAPACITY
         && (forall i :: 0 <= i < |rows| ==> rows[i].Row? && LenOk(kind, rows[i].key))
       case Fork(id, keys, kids) =>
         && h > 0
         && |kids| == |keys| + 1
         && img[id] == Node(kind, false, Seps(keys, kids), kids[|keys|].id)
         && Used(kind, Seps(keys, kids)) <= CAPACITY
         && (forall i :: 0 <= i < |kids| ==> id !in Ids(kids[i]))
         && KidsGood(kind, img, keys, kids, lo, hi, h - 1, nxt)
  }

  ghost predicate KidsGood(kind: Kind, img: Image, keys: seq<Key>, kids: seq<Tree>, lo: int, hi: int, h: nat, nxt: PageId)
    decreases kids, 1
  {
    && |kids| == |keys| + 1
    && KeysOk(kind, keys, lo, hi)
    && KidsApart(kids)
    && (forall i {:trigger Kid(kids, i)} :: 0 <= i < |kids| ==> KidGood(kind, img, keys, kids, lo, hi, h, nxt, i))
  }

  ghost predicate KidGood(kind: Kind, img: Image, keys: seq<Key>, kids: seq<Tree>, lo: int, hi: int, h: nat, nxt: PageId, i: nat)
    requires |kids| == |keys| + 1 && i < |kids|
    decreases kids, 0
  {
    Good(kind, img, Kid(kids, i), LoOf(keys, lo, i), HiOf(keys, hi, i), h, NextOf(kids, nxt, i))
  }

  function Kid(kids: seq<Tree>, i: nat): Tree
    requires i < |kids|
  {
    kids[i]
  }

  ghost predicate KidsApart(kids: seq<Tree>) {
    forall i, j :: 0 <= i < j < |kids| ==> Ids(kids[i]) !! Ids(kids[j])
  }

  ghost predicate Agree(img: Image, img': Image, ids: set<PageId>) {
    forall q :: q in ids && q in img ==> q in img' && img'[q] == img[q]
  }

  // ---------- lemmas ----------

  lemma {:induction false} FlattenConcat(a: seq<Tree>, b: seq<Tree>)
    ensures Flatten(a + b) == Flatten(a) + Flatten(b)
  {
    if a == [] {
      assert a + b == b;
    } else {
      assert (a + b)[1..] == a[1..] + b;
      FlattenConcat(a[1..], b);
    }
  }

  lemma FlattenAround(kids: seq<Tree>, i: nat)
    requires i < |kids|
    ensures Flatten(kids) == Flatten(kids[..i]) + Contents(kids[i]) + Flatten(kids[i + 1..])
  {
    FlattenParts(kids, kids[..i], kids[i..]);
    FlattenTail(kids, i);
    InThreeParts(Flatten(kids[..i]), Contents(kids[i]), Flatten(kids[i + 1..]));
  }

  lemma FlattenParts(kids: seq<Tree>, a: seq<Tree>, b: seq<Tree>)
    requires kids == a + b
    ensures Flatten(kids) == Flatten(a) + Flatten(b)
  {
    FlattenConcat(a, b);
  }

  lemma InThreeParts(a: seq<Cell>, b: seq<Cell>, c: seq<Cell>)
    ensures a + (b + c) == a + b + c
  {}

  lemma FlattenTail(kids: seq<Tree>, i: nat)
    requires i < |kids|
    ensures Flatten(kids[i..]) == Contents(kids[i]) + Flatten(kids[i + 1..])
  {
    var rest := kids[i..];
    assert rest[0] == kids[i] && rest[1..] == kids[i + 1..];
  }

  lemma FlattenSnoc(kids: seq<Tree>, n: nat)
    requires 0 < n <= |kids|
    ensures Flatten(kids[..n]) == Flatten(kids[..n - 1]) + Contents(kids[n - 1])
  {
    var last := [kids[n - 1]];
    FlattenConcat(kids[..n - 1], last);
    assert kids[..n] == kids[..n - 1] + last;
    assert last[1..] == [];
    assert Flatten(last) == Contents(last[0]) + Flatten(last[1..]);
  }

  /** A tree does not see changes outside its pages. */
  lemma {:induction false} GoodFrame(kind: Kind, img: Image, img': Image, t: Tree, lo: int, hi: int, h: nat, nxt: PageId)
    requires Good(kind, img, t, lo, hi, h, nxt)
    requires Agree(img, img', Ids(t))
    ensures Good(kind, img', t, lo, hi, h, nxt)
    decreases t, 1
  {
    assert t.id in Ids(t);
    if t.Fork? {
      KidsFrame(kind, img, img', t.keys, t.kids, lo, hi, h - 1, nxt);
    }
  }

  lemma {:induction false} KidsFrame(kind: Kind, img: Image, img': Image, keys: seq<Key>, kids: seq<Tree>, lo: int, hi: int, h: nat, nxt: PageId)
    requires KidsGood(kind, img, keys, kids, lo, hi, h, nxt)
    requires Agree(img, img', IdsOf(kids))
    ensures KidsGood(kind, img', keys, kids, lo, hi, h, nxt)
    decreases kids, 0
  {
    forall i | 0 <= i < |kids|
      ensures Kid(kids, i) == kids[i] && KidGood(kind, img', keys, kids, lo, hi, h, nxt, i)
    {
      assert KidGood(kind, img, keys, kids, lo, hi, h, nxt, i);
      assert Ids(kids[i]) <= IdsOf(kids);
      GoodFrame(kind, img, img', kids[i], LoOf(keys, lo, i), HiOf(keys, hi, i), h, NextOf(kids, nxt, i));
    }
  }

  /** The rows of a good tree are sorted, within its bounds, and leaf cells. */
  lemma {:induction false} GoodContents(kind: Kind, img: Image, t: Tree, lo: int, hi: int, h: nat, nxt: PageId)
    requires Good(kind, img, t, lo, hi, h, nxt)
    ensures Sorted(Contents(t)) && Within(Contents(t), lo, hi)
    ensures forall i :: 0 <= i < |Contents(t)| ==> Contents(t)[i].Row? && LenOk(kind, Contents(t)[i].key)
    decreases t, 1, 0
  {
    if t.Fork? {
      KidsContents(kind, img, t.keys, t.kids, lo, hi, h - 1, nxt, |t.kids|);
      assert t.kids[..|t.kids|] == t.kids;
    }
  }

  lemma {:induction false} KidsContents(kind: Kind, img: Image, keys: seq<Key>, kids: seq<Tree>, lo: int, hi: int, h: nat, nxt: PageId, n: nat)
    requires KidsGood(kind, img, keys, kids, lo, hi, h, nxt) && n <= |kids|
    ensures var s := Flatten(kids[..n]);
            && Sorted(s) && Within(s, lo, if n == 0 then lo else HiOf(keys, hi, n - 1))
            && forall i :: 0 <= i < |s| ==> s[i].Row? && LenOk(kind, s[i].key)
    decreases kids, 0, n
  {
    if n > 0 {
      KidsContents(kind, img, keys, kids, lo, hi, h, nxt, n - 1);
      assert KidGood(kind, img, keys, kids, lo, hi, h, nxt, n - 1);
      GoodContents(kind, img, kids[n - 1], LoOf(keys, lo, n - 1), HiOf(keys, hi, n - 1), h, NextOf(kids, nxt, n - 1));
      FlattenSnoc(kids, n);
      SortedConcat(Flatten(kids[..n - 1]), Contents(kids[n - 1]), lo, LoOf(keys, lo, n - 1), HiOf(keys, hi, n - 1));
    }
  }

  lemma SortedConcat(a: seq<Cell>, b: seq<Cell>, lo: int, mid: int, hi: int)
    requires Sorted(a) && Sorted(b) && Within(a, lo, mid) && Within(b, mid, hi) && lo <= mid && (mid <= hi || a == [])
    ensures Sorted(a + b) && Within(a + b, lo, hi)
  {}

  /** Rows to the right of kid i are at or above the separator after it. */
  lemma {:induction false} RightOf(kind: Kind, img: Image, keys: seq<Key>, kids: seq<Tree>, lo: int, hi: int, h: nat, nxt: PageId, n: nat)
    requires |kids| == |keys| + 1 && KidsGood(kind, img, keys, kids, lo, hi, h, nxt) && 0 < n <= |keys|
    ensures Within(Flatten(kids[n..]), keys[n - 1].rank, hi)
    decreases |kids| - n
  {
    if n < |kids| {
      assert KidGood(kind, img, keys, kids, lo, hi, h, nxt, n);
      GoodContents(kind, img, kids[n], LoOf(keys, lo, n), HiOf(keys, hi, n), h, NextOf(kids, nxt, n));
      assert kids[n..][1..] == kids[n + 1..];
      if n + 1 < |kids| {
        RightOf(kind, img, keys, kids, lo, hi, h, nxt, n + 1);
      }
    }
  }

  /** Where the key goes, everything before is below it and everything after above it. */
  lemma AroundKid(kind: Kind, img: Image, keys: seq<Key>, kids: seq<Tree>, lo: int, hi: int, h: nat, nxt: PageId, rank: int, i: nat)
    requires KidsGood(kind, img, keys, kids, lo, hi, h, nxt) && i < |kids|
    requires LoOf(keys, lo, i) <= rank < HiOf(keys, hi, i)
    ensures Below(Flatten(kids[..i]), rank) && Above(Flatten(kids[i + 1..]), rank)
  {
    KidsContents(kind, img, keys, kids, lo, hi, h, nxt, i);
    if i + 1 < |kids| {
      RightOf(kind, img, keys, kids, lo, hi, h, nxt, i + 1);
    }
  }

  lemma InsertedBetween(a: seq<Cell>, s: seq<Cell>, b: seq<Cell>, c: Cell, s': seq<Cell>)
    requires IsInserted(s, c, s')
    requires Below(a, c.key.rank) && Above(b, c.key.rank)
    ensures IsInserted(a + s + b, c, a + s' + b)
  {
    var i :| IsBound(s, c.key.rank, false, i) && s' == s[..i] + [c] + s[i..];
    BoundBetween(a, s, b, c.key.rank, i);
    CellBetween(a, s, b, c, i);
  }

  lemma BoundBetween(a: seq<Cell>, s: seq<Cell>, b: seq<Cell>, rank: int, i: nat)
    requires Below(a, rank) && Above(b, rank) && IsBound(s, rank, false, i)
    ensures IsBound(a + s + b, rank, false, |a| + i)
  {}

  lemma CellBetween(a: seq<Cell>, s: seq<Cell>, b: seq<Cell>, c: Cell, i: nat)
    requires i <= |s|
    ensures var whole := a + s + b; whole[..|a| + i] + [c] + whole[|a| + i..] == a + (s[..i] + [c] + s[i..]) + b
  {
    var whole := a + s + b;
    assert whole[..|a| + i] == a + s[..i];
    assert whole[|a| + i..] == s[i..] + b;
    CellInParts(a, s[..i], c, s[i..], b);
  }

  lemma CellInParts(a: seq<Cell>, x: seq<Cell>, c: Cell, y: seq<Cell>, b: seq<Cell>)
    ensures a + x + [c] + (y + b) == a + (x + [c] + y) + b
  {}

  lemma HasRankAround(a: seq<Cell>, s: seq<Cell>, b: seq<Cell>, rank: int)
    requires Below(a, rank) && Above(b, rank)
    ensures HasRank(a + s + b, rank) <==> HasRank(s, rank)
  {
    var whole := a + s + b;
    if HasRank(s, rank) {
      var i :| 0 <= i < |s| && s[i].key.rank == rank;
      assert whole[|a| + i] == s[i];
    }
    if HasRank(whole, rank) {
      var k :| 0 <= k < |whole| && whole[k].key.rank == rank;
      assert |a| <= k < |a| + |s|;
      assert s[k - |a|] == whole[k];
    }
  }

  // ---------- changing one kid ----------

  ghost predicate Apart(kids: seq<Tree>, i: nat, ids: set<PageId>) {
    forall j :: 0 <= j < |kids| && j != i ==> Ids(kids[j]) !! ids
  }

  ghost predicate OthersAgree(img: Image, img': Image, kids: seq<Tree>, i: nat) {
    forall j :: 0 <= j < |kids| && j != i ==> Agree(img, img', Ids(kids[j]))
  }

  lemma ReplaceOne(kind: Kind, img: Image, img': Image, keys: seq<Key>, kids: seq<Tree>, lo: int, hi: int, h: nat, nxt: PageId,
                   i: nat, l: Tree)
    requires |kids| == |keys| + 1 && i < |kids| && KidsGood(kind, img, keys, kids, lo, hi, h, nxt)
    requires OthersAgree(img, img', kids, i) && Apart(kids, i, Ids(l))
    requires Good(kind, img', l, LoOf(keys, lo, i), HiOf(keys, hi, i), h, NextOf(kids, nxt, i))
    requires FirstLeaf(l) == FirstLeaf(kids[i])
    ensures KidsGood(kind, img', keys, kids[i := l], lo, hi, h, nxt)
  {
    var kids' := kids[i := l];
    forall j | 0 <= j < |kids'|
      ensures Kid(kids', j) == kids'[j] && KidGood(kind, img', keys, kids', lo, hi, h, nxt, j)
    {
      if j != i {
        MoveKid(kind, img, img', keys, kids, lo, hi, h, nxt, j, keys, kids', lo, hi, nxt, j);
      }
    }
    assert KidsApart(kids');
    assert KidsGood(kind, img', keys, kids', lo, hi, h, nxt);
  }

  lemma ReplaceTwo(kind: Kind, img: Image, img': Image, keys: seq<Key>, kids: seq<Tree>, lo: int, hi: int, h: nat, nxt: PageId,
                   i: nat, l: Tree, key: Key, r: Tree)
    requires |kids| == |keys| + 1 && i < |kids| && KidsGood(kind, img, keys, kids, lo, hi, h, nxt)
    requires OthersAgree(img, img', kids, i) && Apart(kids, i, Ids(l)) && Apart(kids, i, Ids(r)) && Ids(l) !! Ids(r)
    requires LoOf(keys, lo, i) < key.rank < HiOf(keys, hi, i) && LenOk(kind, key)
    requires Good(kind, img', l, LoOf(keys, lo, i), key.rank, h, FirstLeaf(r))
    requires Good(kind, img', r, key.rank, HiOf(keys, hi, i), h, NextOf(kids, nxt, i))
    requires FirstLeaf(l) == FirstLeaf(kids[i])
    ensures KidsGood(kind, img', keys[..i] + [key] + keys[i..], kids[..i] + [l, r] + kids[i + 1..], lo, hi, h, nxt)
  {
    var keys' := keys[..i] + [key] + keys[i..];
    var kids' := kids[..i] + [l, r] + kids[i + 1..];
    assert KeysOk(kind, keys', lo, hi) by {
      SpreadKeys(kind, keys, lo, hi, i, key);
    }
    assert KidsApart(kids') by {
      SpreadApart(kids, i, l, r);
    }
    forall j | 0 <= j < |kids'|
      ensures Kid(kids', j) == kids'[j] && KidGood(kind, img', keys', kids', lo, hi, h, nxt, j)
    {
      ReplacedKid(kind, img, img', keys, kids, lo, hi, h, nxt, i, l, key, r, j);
    }
    assert KidsGood(kind, img', keys', kids', lo, hi, h, nxt);
  }

  lemma ReplacedKid(kind: Kind, img: Image, img': Image, keys: seq<Key>, kids: seq<Tree>, lo: int, hi: int, h: nat, nxt: PageId,
                    i: nat, l: Tree, key: Key, r: Tree, j: nat)
    requires |kids| == |keys| + 1 && i < |kids| && KidsGood(kind, img, keys, kids, lo, hi, h, nxt) && j <= |kids|
    requires OthersAgree(img, img', kids, i)
    requires Good(kind, img', l, LoOf(keys, lo, i), key.rank, h, FirstLeaf(r))
    requires Good(kind, img', r, key.rank, HiOf(keys, hi, i), h, NextOf(kids, nxt, i))
    requires FirstLeaf(l) == FirstLeaf(kids[i])
    ensures KidGood(kind, img', keys[..i] + [key] + keys[i..], kids[..i] + [l, r] + kids[i + 1..], lo, hi, h, nxt, j)
  {
    var keys' := keys[..i] + [key] + keys[i..];
    var kids' := kids[..i] + [l, r] + kids[i + 1..];
    if j < i {
      SpreadBefore(keys, kids, lo, hi, nxt, i, l, key, r, j);
      MoveKid(kind, img, img', keys, kids, lo, hi, h, nxt, j, keys', kids', lo, hi, nxt, j);
    } else if j > i + 1 {
      SpreadAfter(keys, kids, lo, hi, nxt, i, l, key, r, j);
      MoveKid(kind, img, img', keys, kids, lo, hi, h, nxt, j - 1, keys', kids', lo, hi, nxt, j);
    } else {
      SpreadAt(keys, kids, i, l, key, r);
    }
  }

  lemma SpreadBefore(keys: seq<Key>, kids: seq<Tree>, lo: int, hi: int, nxt: PageId, i: nat, l: Tree, key: Key, r: Tree, j: nat)
    requires |kids| == |keys| + 1 && j < i < |kids| && FirstLeaf(l) == FirstLeaf(kids[i])
    ensures var keys', kids' := keys[..i] + [key] + keys[i..], kids[..i] + [l, r] + kids[i + 1..];
            && kids'[j] == kids[j] && LoOf(keys', lo, j) == LoOf(keys, lo, j) && HiOf(keys', hi, j) == HiOf(keys, hi, j)
            && NextOf(kids', nxt, j) == NextOf(kids, nxt, j)
  {
    SpreadAt(keys, kids, i, l, key, r);
  }

  lemma SpreadAfter(keys: seq<Key>, kids: seq<Tree>, lo: int, hi: int, nxt: PageId, i: nat, l: Tree, key: Key, r: Tree, j: nat)
    requires |kids| == |keys| + 1 && i < |kids| && i + 1 < j <= |kids|
    ensures var keys', kids' := keys[..i] + [key] + keys[i..], kids[..i] + [l, r] + kids[i + 1..];
            && kids'[j] == kids[j - 1] && LoOf(keys', lo, j) == LoOf(keys, lo, j - 1) && HiOf(keys', hi, j) == HiOf(keys, hi, j - 1)
            && NextOf(kids', nxt, j) == NextOf(kids, nxt, j - 1)
  {
    SpreadAt(keys, kids, i, l, key, r);
  }

  lemma SpreadAt(keys: seq<Key>, kids: seq<Tree>, i: nat, l: Tree, key: Key, r: Tree)
    requires |kids| == |keys| + 1 && i < |kids|
    ensures var keys' := keys[..i] + [key] + keys[i..];
            |keys'| == |keys| + 1 && forall j :: 0 <= j < |keys'| ==> keys'[j] == if j < i then keys[j] else if j == i then key else keys[j - 1]
    ensures var kids' := kids[..i] + [l, r] + kids[i + 1..];
            |kids'| == |kids| + 1
            && forall j :: 0 <= j < |kids'| ==> kids'[j] == if j < i then kids[j] else if j == i then l else if j == i + 1 then r else kids[j - 1]
  {}

  /** A kid that keeps its neighbours' bounds stays good in a changed parent. */
  lemma MoveKid(kind: Kind, img: Image, img': Image, keys: seq<Key>, kids: seq<Tree>, lo: int, hi: int, h: nat, nxt: PageId, i: nat,
                keys': seq<Key>, kids': seq<Tree>, lo': int, hi': int, nxt': PageId, j: nat)
    requires |kids| == |keys| + 1 && |kids'| == |keys'| + 1 && i < |kids| && j < |kids'| && kids'[j] == kids[i]
    requires KidGood(kind, img, keys, kids, lo, hi, h, nxt, i)
    requires Agree(img, img', Ids(kids[i]))
    requires LoOf(keys', lo', j) == LoOf(keys, lo, i) && HiOf(keys', hi', j) == HiOf(keys, hi, i)
    requires NextOf(kids', nxt', j) == NextOf(kids, nxt, i)
    ensures KidGood(kind, img', keys', kids', lo', hi', h, nxt', j)
  {
    GoodFrame(kind, img, img', kids[i], LoOf(keys, lo, i), HiOf(keys, hi, i), h, NextOf(kids, nxt, i));
  }

  lemma SpreadApart(kids: seq<Tree>, i: nat, l: Tree, r: Tree)
    requires i < |kids| && KidsApart(kids) && Apart(kids, i, Ids(l)) && Apart(kids, i, Ids(r)) && Ids(l) !! Ids(r)
    ensures KidsApart(kids[..i] + [l, r] + kids[i + 1..])
  {
    var kids' := kids[..i] + [l, r] + kids[i + 1..];
    assert forall a :: 0 <= a < i ==> kids'[a] == kids[a];
    assert forall a :: i + 1 < a < |kids'| ==> kids'[a] == kids[a - 1];
    forall a, b | 0 <= a < b < |kids'|
      ensures Ids(kids'[a]) !! Ids(kids'[b])
    {}
  }

  lemma SpreadKeys(kind: Kind, keys: seq<Key>, lo: int, hi: int, i: nat, key: Key)
    requires KeysOk(kind, keys, lo, hi) && i <= |keys| && LenOk(kind, key)
    requires LoOf(keys, lo, i) < key.rank < HiOf(keys, hi, i) && lo < hi
    ensures KeysOk(kind, keys[..i] + [key] + keys[i..], lo, hi)
  {
    var keys' := keys[..i] + [key] + keys[i..];
    assert |keys'| == |keys| + 1;
    assert forall j :: 0 <= j < |keys'| ==> keys'[j] == if j < i then keys[j] else if j == i then key else keys[j - 1];
  }

  /** An interior split: the middle key goes up and separates the two halves. */
  lemma LeftKids(kind: Kind, img: Image, keys: seq<Key>, kids: seq<Tree>, lo: int, hi: int, h: nat, nxt: PageId, mid: nat)
    requires |kids| == |keys| + 1 && mid < |keys| && KidsGood(kind, img, keys, kids, lo, hi, h, nxt)
    ensures KidsGood(kind, img, keys[..mid], kids[..mid + 1], lo, keys[mid].rank, h, FirstLeaf(kids[mid + 1]))
  {
    var ks, ts, next := keys[..mid], kids[..mid + 1], FirstLeaf(kids[mid + 1]);
    forall j | 0 <= j < |ts|
      ensures Kid(ts, j) == ts[j] && KidGood(kind, img, ks, ts, lo, keys[mid].rank, h, next, j)
    {
      MoveKid(kind, img, img, keys, kids, lo, hi, h, nxt, j, ks, ts, lo, keys[mid].rank, next, j);
    }
    assert KidsGood(kind, img, ks, ts, lo, keys[mid].rank, h, next);
  }

  lemma RightKids(kind: Kind, img: Image, keys: seq<Key>, kids: seq<Tree>, lo: int, hi: int, h: nat, nxt: PageId, mid: nat)
    requires |kids| == |keys| + 1 && mid < |keys| && KidsGood(kind, img, keys, kids, lo, hi, h, nxt)
    ensures KidsGood(kind, img, keys[mid + 1..], kids[mid + 1..], keys[mid].rank, hi, h, nxt)
  {
    var ks, ts := keys[mid + 1..], kids[mid + 1..];
    forall j | 0 <= j < |ts|
      ensures Kid(ts, j) == ts[j] && KidGood(kind, img, ks, ts, keys[mid].rank, hi, h, nxt, j)
    {
      MoveKid(kind, img, img, keys, kids, lo, hi, h, nxt, mid + 1 + j, ks, ts, keys[mid].rank, hi, nxt, j);
    }
    assert KidsGood(kind, img, ks, ts, keys[mid].rank, hi, h, nxt);
  }

  lemma SplitIds(kids: seq<Tree>, n: nat)
    requires KidsApart(kids) && n <= |kids|
    ensures IdsOf(kids[..n]) !! IdsOf(kids[n..])
    ensures IdsOf(kids[..n]) + IdsOf(kids[n..]) == IdsOf(kids)
    ensures Flatten(kids[..n]) + Flatten(kids[n..]) == Flatten(kids)
  {
    assert kids == kids[..n] + kids[n..];
    FlattenConcat(kids[..n], kids[n..]);
    IdsConcat(kids[..n], kids[n..]);
    PartsApart(kids, n);
  }

  lemma PartsApart(kids: seq<Tree>, n: nat)
    requires KidsApart(kids) && n <= |kids|
    ensures IdsOf(kids[..n]) !! IdsOf(kids[n..])
  {
    var a, b := kids[..n], kids[n..];
    forall i, j | 0 <= i < |a| && 0 <= j < |b| ensures Ids(a[i]) !! Ids(b[j]) {
      assert a[i] == kids[i] && b[j] == kids[n + j];
    }
  }

  lemma IdsConcat(a: seq<Tree>, b: seq<Tree>)
    ensures IdsOf(a + b) == IdsOf(a) + IdsOf(b)
  {
    var ts := a + b;
    forall q | q in IdsOf(a) + IdsOf(b) ensures q in IdsOf(ts) {
      if q in IdsOf(a) {
        var i :| 0 <= i < |a| && q in Ids(a[i]);
        assert ts[i] == a[i];
      } else {
        var i :| 0 <= i < |b| && q in Ids(b[i]);
        assert ts[|a| + i] == b[i];
      }
    }
  }
}
