/** The cells of the tree model as bytes of slotted pages: sizes, free space and key order
    of the model are those the code computes from the bytes. */
module CellBytes {
  import opened Pages
  import opened Values
  import opened IndexKeys
  import opened Records
  import opened SlottedPages
  import Trees

  function TypeOf(kind: Kind, leaf: bool): NodeType {
    if kind.Table? then if leaf then TableLeaf else TableInterior
    else if leaf then IndexLeaf else IndexInterior
  }

  /** A rowid as it lies in a page: little-endian, two's complement. */
  function RowidAt(s: seq<Byte>): Int64
    requires |s| == 8
  {
    FromLeBound(s);
    Pow256Of8();
    Resign(FromLe(s))
  }

  lemma {:induction false} FromLeBound(s: seq<Byte>)
    ensures FromLe(s) < Pow256(|s|)
  {
    if s != [] {
      FromLeBound(s[1..]);
    }
  }

  /** The key bytes of a cell, as get_cell_key finds them. */
  function KeyBytes(nt: NodeType, b: seq<Byte>): seq<Byte>
    requires |b| >= 12 || (nt in {IndexLeaf, IndexInterior} && |b| >= 2 && |b| >= 2 + U16(b, 0))
  {
    match nt
    case TableLeaf => b[4..12]
    case TableInterior => b[..8]
    case _ => if |b| >= 2 + U16(b, 0) then b[2..2 + U16(b, 0)] else []
  }

  /** The key of the model: the rowid, or the rank of the key bytes. */
  function KeyOf(kind: Kind, key: seq<Byte>): Key {
    if kind.Table? then Key(if |key| == 8 then RowidAt(key) else 0, 8) else IndexKey(key)
  }

  /** These bytes are the cell. */
  ghost predicate Encodes(kind: Kind, leaf: bool, b: seq<Byte>, c: Cell) {
    var nt := TypeOf(kind, leaf);
    && WellCell(nt, b) && leaf == c.Row? && c.key == KeyOf(kind, KeyBytes(nt, b))
    && match nt
       case TableLeaf => b[12..] == c.payload
       case TableInterior => U32(b, 8) == c.child
       case IndexLeaf => c.payload == []
       case IndexInterior => U32(b, |b| - 4) == c.child
  }

  ghost predicate EncodesAll(kind: Kind, leaf: bool, bs: seq<seq<Byte>>, cells: seq<Cell>) {
    |bs| == |cells| && forall i :: 0 <= i < |bs| ==> Encodes(kind, leaf, bs[i], cells[i])
  }

  /** The page holds the cells of the model. */
  ghost predicate PageHolds(s: seq<Byte>, kind: Kind, leaf: bool, bs: seq<seq<Byte>>, cells: seq<Cell>) {
    HoldsCells(s, TypeOf(kind, leaf), bs) && EncodesAll(kind, leaf, bs, cells)
  }

  /** The model's cost of a cell is its length plus its pointer. */
  lemma EncodedCost(kind: Kind, leaf: bool, b: seq<Byte>, c: Cell)
    requires Encodes(kind, leaf, b, c)
    ensures CellCost(kind, c) == |b| + 2
  {
  }

  lemma {:induction false} EncodedUsed(kind: Kind, leaf: bool, bs: seq<seq<Byte>>, cells: seq<Cell>)
    requires EncodesAll(kind, leaf, bs, cells)
    ensures Used(kind, cells) == Total(bs) + 2 * |bs|
  {
    if bs != [] {
      EncodedCost(kind, leaf, bs[0], cells[0]);
      EncodedUsed(kind, leaf, bs[1..], cells[1..]);
    }
  }

  /** insert_cell_raw accepts a cell exactly when the model says it fits, and then inserts
      it in the model's sequence of cells. */
  method InsertCell(page: array<Byte>, kind: Kind, leaf: bool, idx: nat, b: seq<Byte>, ghost c: Cell, ghost bs: seq<seq<Byte>>, ghost cells: seq<Cell>)
    returns (ok: bool)
    requires page.Length == PAGE_SIZE && PageHolds(page[..], kind, leaf, bs, cells) && Encodes(kind, leaf, b, c) && idx <= |cells|
    modifies page
    ensures ok <==> Used(kind, cells) + CellCost(kind, c) <= CAPACITY
    ensures ok ==> PageHolds(page[..], kind, leaf, bs[..idx] + [b] + bs[idx..], cells[..idx] + [c] + cells[idx..])
    ensures !ok ==> page[..] == old(page[..])
  {
    EncodedCost(kind, leaf, b, c);
    EncodedUsed(kind, leaf, bs, cells);
    EncodesInserted(kind, leaf, idx, b, c, bs, cells);
    ok := InsertCellRaw(page, TypeOf(kind, leaf), idx, b, bs);
  }

  lemma EncodesInserted(kind: Kind, leaf: bool, idx: nat, b: seq<Byte>, c: Cell, bs: seq<seq<Byte>>, cells: seq<Cell>)
    requires EncodesAll(kind, leaf, bs, cells) && Encodes(kind, leaf, b, c) && idx <= |cells|
    ensures EncodesAll(kind, leaf, bs[..idx] + [b] + bs[idx..], cells[..idx] + [c] + cells[idx..])
  {
  }

  /** delete_cell removes the cell from the model's sequence. */
  method RemoveCell(page: array<Byte>, kind: Kind, leaf: bool, idx: nat, ghost bs: seq<seq<Byte>>, ghost cells: seq<Cell>)
    requires page.Length == PAGE_SIZE && PageHolds(page[..], kind, leaf, bs, cells) && idx < |cells|
    modifies page
    ensures PageHolds(page[..], kind, leaf, bs[..idx] + bs[idx + 1..], cells[..idx] + cells[idx + 1..])
  {
    DeleteCell(page, TypeOf(kind, leaf), idx, bs);
  }

  // ---------- key order ----------

  /** key_compare */
  function KeyCompare(kind: Kind, a: seq<Byte>, b: seq<Byte>): int {
    if kind.Table? then if |a| == 8 && |b| == 8 then Sign(RowidAt(a) - RowidAt(b)) else 0
    else ByteCompare(a, b)
  }

  /** key_compare is the order of the model's ranks. */
  lemma KeyCompareIsRankOrder(kind: Kind, a: seq<Byte>, b: seq<Byte>)
    requires if kind.Table? then |a| == |b| == 8 else |a| <= MAX_INDEX_KEY_LEN && |b| <= MAX_INDEX_KEY_LEN
    ensures KeyCompare(kind, a, b) == Sign(KeyOf(kind, a).rank - KeyOf(kind, b).rank)
  {
    if kind.Index? {
      RankOrder(a, b, MAX_INDEX_KEY_LEN);
    }
  }

  /** The key bytes at an offset of a page: get_cell_key. */
  function KeyAt(nt: NodeType, s: seq<Byte>, off: nat): seq<Byte>
    requires off + 2 <= |s|
  {
    match nt
    case TableLeaf => if off + 12 <= |s| then s[off + 4..off + 12] else []
    case TableInterior => if off + 8 <= |s| then s[off..off + 8] else []
    case _ => if off + 2 + U16(s, off) <= |s| then s[off + 2..off + 2 + U16(s, off)] else []
  }

  lemma PartAt(s: seq<Byte>, off: nat, b: seq<Byte>, i: nat, j: nat)
    requires BytesAt(s, off, b) && i <= j <= |b|
    ensures s[off + i..off + j] == b[i..j]
  {
    var part := s[off + i..off + j];
    forall k | 0 <= k < j - i ensures part[k] == b[i..j][k] {
      SliceAt(s, off, b, i + k);
    }
  }

  lemma KeyOfCellAt(nt: NodeType, s: seq<Byte>, off: nat, b: seq<Byte>)
    requires WellCell(nt, b) && BytesAt(s, off, b)
    ensures off + 2 <= |s| && KeyAt(nt, s, off) == KeyBytes(nt, b)
  {
    SliceAt(s, off, b, 0);
    SliceAt(s, off, b, 1);
    match nt
    case TableLeaf => PartAt(s, off, b, 4, 12);
    case TableInterior => PartAt(s, off, b, 0, 8);
    case _ => PartAt(s, off, b, 2, 2 + U16(b, 0));
  }

  /** find_index on the bytes of a page finds the model's position. */
  method FindIndex(page: array<Byte>, kind: Kind, leaf: bool, key: seq<Byte>, strict: bool, ghost bs: seq<seq<Byte>>, ghost cells: seq<Cell>)
    returns (i: nat)
    requires page.Length == PAGE_SIZE && PageHolds(page[..], kind, leaf, bs, cells)
    requires if kind.Table? then |key| == 8 else |key| <= MAX_INDEX_KEY_LEN && forall j :: 0 <= j < |cells| ==> cells[j].key.len <= MAX_INDEX_KEY_LEN
    ensures Trees.IsBound(cells, KeyOf(kind, key).rank, strict, i)
  {
    var nt := TypeOf(kind, leaf);
    ghost var offs, rank := PtrsOf(page[..], nt, bs), KeyOf(kind, key).rank;
    var n := U16(page[..], NUM_CELLS);
    i := 0;
    while i < n
      invariant i <= n == |cells|
      invariant forall j :: 0 <= j < i ==> if strict then cells[j].key.rank <= rank else cells[j].key.rank < rank
    {
      KeyOfCellAt(nt, page[..], offs[i], bs[i]);
      var k := KeyAt(nt, page[..], Ptr(page[..], i));
      KeyCompareIsRankOrder(kind, k, key);
      var c := KeyCompare(kind, k, key);
      if if strict then c > 0 else c >= 0 {
        return;
      }
      i := i + 1;
    }
  }
}
