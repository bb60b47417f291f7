/** The leaves of a tree in order, and the chain that links them. */
module Leaves {
  import opened Pages
  import opened Journal
  import opened Trees
  import opened Inserts
  import opened Splits
  import opened Deletes

  ghost function LeavesOf(t: Tree): seq<Tree>
    decreases t, 1
  {
    match t
    case Tip(_, _) => [t]
    case Fork(_, _, kids) => LeavesOfAll(kids)
  }

  ghost function LeavesOfAll(ts: seq<Tree>): seq<Tree>
    decreases ts, 0
  {
    if ts == [] then [] else LeavesOf(ts[0]) + LeavesOfAll(ts[1..])
  }

  /** Each leaf page links to the next leaf, the last one to nxt. */
  ghost predicate Chained(kind: Kind, img: Image, ls: seq<Tree>, nxt: PageId) {
    && ls != []
    && forall j :: 0 <= j < |ls| ==>
         && ls[j].Tip? && ls[j].id in img
         && img[ls[j].id] == Node(kind, true, ls[j].rows, LinkOf(ls, nxt, j))
  }

  ghost function LinkOf(ls: seq<Tree>, nxt: PageId, j: nat): PageId {
    if j + 1 < |ls| then ls[j + 1].id else nxt
  }

  lemma {:induction false} LeavesHold(t: Tree)
    ensures Flatten(LeavesOf(t)) == Contents(t)
    decreases t, 1
  {
    match t
    case Tip(_, _) => FlattenFew(t, t);
    case Fork(_, _, kids) => LeavesHoldAll(kids);
  }

  lemma {:induction false} LeavesHoldAll(ts: seq<Tree>)
    ensures Flatten(LeavesOfAll(ts)) == Flatten(ts)
    decreases ts, 0
  {
    if ts != [] {
      LeavesHold(ts[0]);
      LeavesHoldAll(ts[1..]);
      FlattenConcat(LeavesOf(ts[0]), LeavesOfAll(ts[1..]));
    }
  }

  lemma {:induction false} LeavesChained(kind: Kind, img: Image, t: Tree, lo: int, hi: int, h: nat, nxt: PageId)
    requires Good(kind, img, t, lo, hi, h, nxt)
    ensures Chained(kind, img, LeavesOf(t), nxt) && LeavesOf(t)[0].id == FirstLeaf(t)
    decreases t, 1, 0
  {
    if t.Fork? {
      ForkKids(kind, img, t, lo, hi, h, nxt);
      KidsChained(kind, img, t.keys, t.kids, lo, hi, h - 1, nxt, 0, t.kids);
    }
  }

  /** The children from the n-th on. */
  lemma {:induction false} KidsChained(kind: Kind, img: Image, keys: seq<Key>, kids: seq<Tree>, lo: int, hi: int, h: nat, nxt: PageId,
                                       n: nat, rest: seq<Tree>)
    requires KidsGood(kind, img, keys, kids, lo, hi, h, nxt) && n < |kids| && rest == kids[n..]
    ensures Chained(kind, img, LeavesOfAll(rest), nxt) && LeavesOfAll(rest)[0].id == FirstLeaf(kids[n])
    decreases kids, 0, |kids| - n
  {
    assert KidGood(kind, img, keys, kids, lo, hi, h, nxt, n);
    LeavesChained(kind, img, kids[n], LoOf(keys, lo, n), HiOf(keys, hi, n), h, NextOf(kids, nxt, n));
    var later := rest[1..];
    if n + 1 < |kids| {
      KidsChained(kind, img, keys, kids, lo, hi, h, nxt, n + 1, later);
    }
    ChainOn(kind, img, LeavesOf(rest[0]), LeavesOfAll(later), LeavesOfAll(rest), nxt);
  }

  lemma ChainOn(kind: Kind, img: Image, here: seq<Tree>, later: seq<Tree>, all: seq<Tree>, nxt: PageId)
    requires all == here + later && Chained(kind, img, here, if later == [] then nxt else later[0].id)
    requires later == [] || Chained(kind, img, later, nxt)
    ensures Chained(kind, img, all, nxt) && all[0].id == here[0].id
  {
    if later == [] {
      assert here + later == here;
    } else {
      ChainJoins(kind, img, here, later, nxt);
    }
  }

  ghost predicate AllWithin(ls: seq<Tree>, ids: set<PageId>) {
    forall j :: 0 <= j < |ls| ==> ls[j].id in ids
  }

  /** The leaves are pages of the tree. */
  lemma {:induction false} LeavesWithin(t: Tree)
    ensures AllWithin(LeavesOf(t), Ids(t))
    decreases t, 1
  {
    if t.Fork? {
      KidsWithin(t.kids);
    }
  }

  lemma {:induction false} KidsWithin(kids: seq<Tree>)
    ensures AllWithin(LeavesOfAll(kids), IdsOf(kids))
    decreases kids, 0
  {
    if kids != [] {
      LeavesWithin(kids[0]);
      KidsWithin(kids[1..]);
      IdsConcat([kids[0]], kids[1..]);
      assert kids == [kids[0]] + kids[1..];
      assert IdsOf([kids[0]]) == Ids(kids[0]);
    }
  }

  lemma ChainJoins(kind: Kind, img: Image, a: seq<Tree>, b: seq<Tree>, nxt: PageId)
    requires b != [] && Chained(kind, img, a, b[0].id) && Chained(kind, img, b, nxt)
    ensures Chained(kind, img, a + b, nxt)
  {
    var ls := a + b;
    forall j | 0 <= j < |ls|
      ensures ls[j].Tip? && ls[j].id in img && img[ls[j].id] == Node(kind, true, ls[j].rows, LinkOf(ls, nxt, j))
    {
      if j < |a| {
        assert ls[j] == a[j] && LinkOf(ls, nxt, j) == LinkOf(a, b[0].id, j);
      } else {
        assert ls[j] == b[j - |a|] && LinkOf(ls, nxt, j) == LinkOf(b, nxt, j - |a|);
      }
    }
  }

  /** The leaves of a kid among the leaves of its parent. */
  lemma LeavesAround(kids: seq<Tree>, i: nat)
    requires i < |kids|
    ensures LeavesOfAll(kids) == LeavesOfAll(kids[..i]) + LeavesOf(kids[i]) + LeavesOfAll(kids[i + 1..])
  {
    hide LeavesOf, LeavesOfAll;
    LeavesOfThree(kids[..i], kids[i], kids[i + 1..]);
    SplitAround(kids, i);
  }

  lemma SplitAround(kids: seq<Tree>, i: nat)
    requires i < |kids|
    ensures kids[..i] + ([kids[i]] + kids[i + 1..]) == kids
  {}

  lemma LeavesOfThree(a: seq<Tree>, t: Tree, c: seq<Tree>)
    ensures LeavesOfAll(a + ([t] + c)) == LeavesOfAll(a) + LeavesOf(t) + LeavesOfAll(c)
  {
    LeavesConcat(a, [t] + c);
    assert ([t] + c)[0] == t && ([t] + c)[1..] == c;
    SeqAssociates(LeavesOfAll(a), LeavesOf(t), LeavesOfAll(c));
  }

  lemma SeqAssociates(a: seq<Tree>, b: seq<Tree>, c: seq<Tree>)
    ensures a + (b + c) == a + b + c
  {}

  lemma {:induction false} LeavesConcat(a: seq<Tree>, b: seq<Tree>)
    ensures LeavesOfAll(a + b) == LeavesOfAll(a) + LeavesOfAll(b)
  {
    if a == [] {
      assert a + b == b;
    } else {
      assert (a + b)[1..] == a[1..] + b;
      LeavesConcat(a[1..], b);
    }
  }

  // ---------- the descent by separators ----------

  /** Where a descent has come to in a tree: the subtree, and what lies around it. */
  datatype Spot = Spot(t: Tree, lo: int, hi: int, h: nat, nxt: PageId,
                       before: seq<Cell>, after: seq<Cell>, leavesBefore: seq<Tree>, leavesAfter: seq<Tree>)

  ghost predicate SpotOk(kind: Kind, img: Image, tree: Tree, rank: int, s: Spot) {
    && Good(kind, img, s.t, s.lo, s.hi, s.h, s.nxt) && s.lo <= rank < s.hi
    && Contents(tree) == s.before + Contents(s.t) + s.after && Below(s.before, rank) && Above(s.after, rank)
    && LeavesOf(tree) == s.leavesBefore + LeavesOf(s.t) + s.leavesAfter && Flatten(s.leavesBefore) == s.before
    && (forall leaf :: Reaches(s.t, rank, leaf) ==> Reaches(tree, rank, leaf))
  }

  lemma StartSpot(kind: Kind, img: Image, tree: Tree, lo: int, hi: int, h: nat, rank: int) returns (s: Spot)
    requires Good(kind, img, tree, lo, hi, h, 0)
    ensures SpotOk(kind, img, tree, rank, s) && s.t == tree && s.h == h
  {
    var lo', hi' := if rank < lo then rank else lo, if rank >= hi then rank + 1 else hi;
    Widen(kind, img, tree, lo, hi, h, 0, lo', hi');
    s := Spot(tree, lo', hi', h, 0, [], [], [], []);
    NothingAround(Contents(tree));
    NothingAround(LeavesOf(tree));
  }

  lemma NothingAround<T>(s: seq<T>)
    ensures [] + s + [] == s
  {}

  lemma StepDown(kind: Kind, img: Image, tree: Tree, rank: int, s: Spot, i: nat) returns (s': Spot)
    requires SpotOk(kind, img, tree, rank, s) && s.t.Fork?
    requires IsBound(img[s.t.id].cells, rank, true, i)
    ensures s.h > 0 && |s.t.kids| == |s.t.keys| + 1 && i < |s.t.kids|
    ensures SpotOk(kind, img, tree, rank, s') && s'.h == s.h - 1 && s'.t == s.t.kids[i]
    ensures var page := img[s.t.id];
            && page == Node(kind, false, Seps(s.t.keys, s.t.kids), s.t.kids[|s.t.keys|].id)
            && s'.t.id == if i < |page.cells| then page.cells[i].child else page.link
  {
    DownToKid(kind, img, s.t, s.lo, s.hi, s.h, s.nxt, rank, i);
    ReachesBelow(s.t, rank, i);
    s' := Stepped(s, i);
    assert Contents(tree) == s'.before + Contents(s'.t) + s'.after && Below(s'.before, rank) && Above(s'.after, rank) by {
      SteppedRows(s, i, rank);
    }
    assert LeavesOf(tree) == s'.leavesBefore + LeavesOf(s'.t) + s'.leavesAfter && Flatten(s'.leavesBefore) == s'.before by {
      LeavesDown(s.leavesBefore, s.t.kids, i, s.leavesAfter);
    }
  }

  /** The i-th child, with what is around it. */
  ghost function Stepped(s: Spot, i: nat): Spot
    requires s.t.Fork? && s.h > 0 && |s.t.kids| == |s.t.keys| + 1 && i < |s.t.kids|
  {
    var a, b := s.t.kids[..i], s.t.kids[i + 1..];
    Spot(s.t.kids[i], LoOf(s.t.keys, s.lo, i), HiOf(s.t.keys, s.hi, i), s.h - 1, NextOf(s.t.kids, s.nxt, i),
         s.before + Flatten(a), Flatten(b) + s.after, s.leavesBefore + LeavesOfAll(a), LeavesOfAll(b) + s.leavesAfter)
  }

  lemma SteppedRows(s: Spot, i: nat, rank: int)
    requires s.t.Fork? && s.h > 0 && |s.t.kids| == |s.t.keys| + 1 && i < |s.t.kids|
    requires Below(s.before, rank) && Above(s.after, rank)
    requires Below(Flatten(s.t.kids[..i]), rank) && Above(Flatten(s.t.kids[i + 1..]), rank)
    ensures var s' := Stepped(s, i);
            && s.before + Contents(s.t) + s.after == s'.before + Contents(s'.t) + s'.after
            && Below(s'.before, rank) && Above(s'.after, rank)
  {
    RowsDown(s.before, s.t.kids, i, s.after);
  }

  lemma DownToKid(kind: Kind, img: Image, t: Tree, lo: int, hi: int, h: nat, nxt: PageId, rank: int, i: nat)
    requires Good(kind, img, t, lo, hi, h, nxt) && t.Fork? && lo <= rank < hi
    requires IsBound(img[t.id].cells, rank, true, i)
    ensures h > 0 && |t.kids| == |t.keys| + 1 && i < |t.kids| && Routes(t.keys, rank, i)
    ensures Good(kind, img, t.kids[i], LoOf(t.keys, lo, i), HiOf(t.keys, hi, i), h - 1, NextOf(t.kids, nxt, i))
    ensures LoOf(t.keys, lo, i) <= rank < HiOf(t.keys, hi, i)
    ensures Below(Flatten(t.kids[..i]), rank) && Above(Flatten(t.kids[i + 1..]), rank)
    ensures var page := img[t.id];
            && page == Node(kind, false, Seps(t.keys, t.kids), t.kids[|t.keys|].id)
            && t.kids[i].id == if i < |page.cells| then page.cells[i].child else page.link
  {
    ForkKids(kind, img, t, lo, hi, h, nxt);
    RouteFound(t.keys, t.kids, rank, i);
    RouteBounds(t.keys, rank, i, lo, hi);
    AroundKid(kind, img, t.keys, t.kids, lo, hi, h - 1, nxt, rank, i);
    assert KidGood(kind, img, t.keys, t.kids, lo, hi, h - 1, nxt, i);
  }

  lemma RowsDown(before: seq<Cell>, kids: seq<Tree>, i: nat, after: seq<Cell>)
    requires i < |kids|
    ensures before + Flatten(kids) + after
            == before + Flatten(kids[..i]) + Contents(kids[i]) + (Flatten(kids[i + 1..]) + after)
  {
    FlattenAround(kids, i);
    RowsAssociate(before, Flatten(kids[..i]), Contents(kids[i]), Flatten(kids[i + 1..]), after);
  }

  lemma RowsAssociate(a: seq<Cell>, b: seq<Cell>, c: seq<Cell>, d: seq<Cell>, e: seq<Cell>)
    ensures a + (b + c + d) + e == a + b + c + (d + e)
  {}

  lemma LeavesDown(before: seq<Tree>, kids: seq<Tree>, i: nat, after: seq<Tree>)
    requires i < |kids|
    ensures before + LeavesOfAll(kids) + after
            == before + LeavesOfAll(kids[..i]) + LeavesOf(kids[i]) + (LeavesOfAll(kids[i + 1..]) + after)
    ensures Flatten(before + LeavesOfAll(kids[..i])) == Flatten(before) + Flatten(kids[..i])
  {
    LeavesAround(kids, i);
    LeavesAssociate(before, LeavesOfAll(kids[..i]), LeavesOf(kids[i]), LeavesOfAll(kids[i + 1..]), after);
    FlattenConcat(before, LeavesOfAll(kids[..i]));
    LeavesHoldAll(kids[..i]);
  }

  lemma LeavesAssociate(a: seq<Tree>, b: seq<Tree>, c: seq<Tree>, d: seq<Tree>, e: seq<Tree>)
    ensures a + (b + c + d) + e == a + b + c + (d + e)
  {}

  lemma RouteBounds(keys: seq<Key>, rank: int, i: nat, lo: int, hi: int)
    requires Routes(keys, rank, i) && lo <= rank < hi
    ensures LoOf(keys, lo, i) <= rank < HiOf(keys, hi, i)
  {}

  lemma RouteFound(keys: seq<Key>, kids: seq<Tree>, rank: int, i: nat)
    requires |kids| == |keys| + 1 && IsBound(Seps(keys, kids), rank, true, i)
    ensures Routes(keys, rank, i)
    ensures i < |keys| ==> Seps(keys, kids)[i].child == kids[i].id
  {
    assert forall j :: 0 <= j < |keys| ==> Seps(keys, kids)[j].key == keys[j];
    if i > 0 {
      assert Seps(keys, kids)[i - 1].key == keys[i - 1];
    }
  }
}
