/** The bytes of a node page in btree.c: a 16-byte header, an array of two-byte cell
    pointers growing up, and the cells growing down from the end of the page. */
module SlottedPages {
  import opened Pages

  datatype NodeType = TableLeaf | TableInterior | IndexLeaf | IndexInterior

  // ---------- little-endian fields ----------

  /** get_u16 */
  function U16(s: seq<Byte>, p: nat): nat
    requires p + 2 <= |s|
  {
    s[p] as int + 256 * s[p + 1] as int
  }

  /** get_u32 */
  function U32(s: seq<Byte>, p: nat): nat
    requires p + 4 <= |s|
  {
    s[p] as int + 256 * s[p + 1] as int + 65536 * s[p + 2] as int + 16777216 * s[p + 3] as int
  }

  const NUM_CELLS := 2
  const CONTENT_START := 4

  /** get_cell_ptr */
  function Ptr(s: seq<Byte>, i: nat): nat
    requires HDR_SIZE + 2 * i + 2 <= |s|
  {
    U16(s, HDR_SIZE + 2 * i)
  }

  // ---------- cells ----------

  /** The bytes of a cell tell its length. */
  ghost predicate WellCell(nt: NodeType, c: seq<Byte>) {
    match nt
    case TableLeaf => |c| >= 12 && |c| == 12 + U32(c, 0)
    case TableInterior => |c| == 12
    case IndexLeaf => |c| >= 2 && |c| == 2 + U16(c, 0)
    case IndexInterior => |c| >= 6 && |c| == 2 + U16(c, 0) + 4
  }

  /** cell_len_at reads these bytes. */
  function HeadLen(nt: NodeType): nat {
    match nt
    case TableLeaf => 4
    case TableInterior => 0
    case IndexLeaf => 2
    case IndexInterior => 2
  }

  /** cell_len_at, with its cast to 16 bits. */
  function CellLenAt(nt: NodeType, s: seq<Byte>, off: nat): nat
    requires off + HeadLen(nt) <= |s|
  {
    match nt
    case TableLeaf => (12 + U32(s, off)) % 65536
    case TableInterior => 12
    case IndexLeaf => (2 + U16(s, off)) % 65536
    case IndexInterior => (2 + U16(s, off) + 4) % 65536
  }

  ghost function Total(cells: seq<seq<Byte>>): nat {
    if cells == [] then 0 else |cells[0]| + Total(cells[1..])
  }

  lemma {:induction false} TotalConcat(a: seq<seq<Byte>>, b: seq<seq<Byte>>)
    ensures Total(a + b) == Total(a) + Total(b)
  {
    if a == [] {
      assert a + b == b;
    } else {
      assert (a + b)[1..] == a[1..] + b;
      TotalConcat(a[1..], b);
    }
  }

  lemma TotalInserted(cells: seq<seq<Byte>>, i: nat, c: seq<Byte>)
    requires i <= |cells|
    ensures Total(cells[..i] + [c] + cells[i..]) == Total(cells) + |c|
  {
    var a, b := cells[..i], cells[i..];
    assert Total(a + [c]) == Total(a) + |c| by {
      TotalConcat(a, [c]);
      assert [c][1..] == [];
    }
    TotalConcat(a + [c], b);
    TotalConcat(a, b);
    assert cells == a + b;
  }

  // ---------- what a page holds ----------

  ghost predicate BytesAt(s: seq<Byte>, off: nat, c: seq<Byte>) {
    off + |c| <= |s| && s[off..off + |c|] == c
  }

  /** Cell i lies at offset offs[i], at or after start. */
  ghost predicate Body(s: seq<Byte>, nt: NodeType, cells: seq<seq<Byte>>, offs: seq<nat>, start: nat) {
    && |offs| == |cells|
    && forall i :: 0 <= i < |cells| ==> WellCell(nt, cells[i]) && start <= offs[i] && BytesAt(s, offs[i], cells[i])
  }

  ghost predicate Disjoint(a: nat, c: seq<Byte>, b: nat, d: seq<Byte>) {
    a + |c| <= b || b + |d| <= a
  }

  ghost predicate Apart(cells: seq<seq<Byte>>, offs: seq<nat>) {
    && |offs| == |cells|
    && forall i, j :: 0 <= i < j < |cells| ==> Disjoint(offs[i], cells[i], offs[j], cells[j])
  }

  ghost predicate Pointers(s: seq<Byte>, offs: seq<nat>) {
    && HDR_SIZE + 2 * |offs| <= |s|
    && forall i :: 0 <= i < |offs| ==> Ptr(s, i) == offs[i]
  }

  /** The page holds exactly these cells, in pointer order, disjoint and without holes. */
  ghost predicate HoldsAt(s: seq<Byte>, nt: NodeType, cells: seq<seq<Byte>>, offs: seq<nat>) {
    && |s| == PAGE_SIZE && |offs| == |cells|
    && U16(s, NUM_CELLS) == |cells|
    && HDR_SIZE + 2 * |cells| <= U16(s, CONTENT_START) == PAGE_SIZE - Total(cells)
    && Pointers(s, offs)
    && Body(s, nt, cells, offs, U16(s, CONTENT_START))
    && Apart(cells, offs)
  }

  ghost predicate HoldsCells(s: seq<Byte>, nt: NodeType, cells: seq<seq<Byte>>) {
    exists offs :: HoldsAt(s, nt, cells, offs)
  }

  /** The two pages agree on these bytes. */
  ghost predicate Same(s: seq<Byte>, s': seq<Byte>, lo: nat, hi: nat) {
    |s| == |s'| && forall k :: lo <= k < hi && k < |s| ==> s[k] == s'[k]
  }

  /** The header bytes other than cell count and content start. */
  ghost predicate SameHeader(s: seq<Byte>, s': seq<Byte>) {
    Same(s, s', 0, NUM_CELLS) && Same(s, s', 6, HDR_SIZE)
  }

  lemma SliceAt(s: seq<Byte>, off: nat, c: seq<Byte>, k: nat)
    requires BytesAt(s, off, c) && k < |c|
    ensures s[off + k] == c[k]
  {
    assert s[off..off + |c|][k] == s[off + k];
  }

  /** cell_len_at finds the length of a cell of the page. */
  lemma LenOfCell(s: seq<Byte>, nt: NodeType, off: nat, c: seq<Byte>)
    requires WellCell(nt, c) && BytesAt(s, off, c) && |c| < 65536
    ensures off + HeadLen(nt) <= |s| && CellLenAt(nt, s, off) == |c|
  {
    SliceAt(s, off, c, 0);
    SliceAt(s, off, c, 1);
    if nt == TableLeaf {
      SliceAt(s, off, c, 2);
      SliceAt(s, off, c, 3);
    }
  }

  lemma BytesKept(s: seq<Byte>, s': seq<Byte>, off: nat, c: seq<Byte>, start: nat)
    requires Same(s, s', start, |s|) && start <= off && BytesAt(s, off, c)
    ensures BytesAt(s', off, c)
  {
  }

  lemma PointersKept(s: seq<Byte>, s': seq<Byte>, offs: seq<nat>)
    requires Same(s, s', HDR_SIZE, HDR_SIZE + 2 * |offs|) && Pointers(s, offs)
    ensures Pointers(s', offs)
  {
    forall i | 0 <= i < |offs| ensures Ptr(s', i) == offs[i] {
      assert Ptr(s, i) == offs[i];
    }
  }

  // ---------- writing ----------

  /** put_u16 */
  method PutU16(page: array<Byte>, p: nat, v: nat)
    requires p + 2 <= page.Length && v < 65536
    modifies page
    ensures U16(page[..], p) == v
    ensures forall k :: 0 <= k < page.Length && k != p && k != p + 1 ==> page[k] == old(page[k])
  {
    page[p], page[p + 1] := v % 256, v / 256;
  }

  /** memcpy of a cell into the page. */
  method CopyIn(page: array<Byte>, at: nat, c: seq<Byte>)
    requires at + |c| <= page.Length
    modifies page
    ensures BytesAt(page[..], at, c)
    ensures Same(old(page[..]), page[..], 0, at) && Same(old(page[..]), page[..], at + |c|, page.Length)
  {
    forall k | 0 <= k < |c| {
      page[at + k] := c[k];
    }
    assert forall k :: 0 <= k < |c| ==> page[at + k] == c[k];
  }

  /** set_cell_ptr */
  method PutPointer(page: array<Byte>, i: nat, off: nat, n: nat)
    requires page.Length == PAGE_SIZE && HDR_SIZE + 2 * n <= PAGE_SIZE && i < n && off < 65536
    modifies page
    ensures Ptr(page[..], i) == off
    ensures forall k :: 0 <= k < n && k != i ==> Ptr(page[..], k) == Ptr(old(page[..]), k)
    ensures Same(old(page[..]), page[..], 0, HDR_SIZE) && Same(old(page[..]), page[..], HDR_SIZE + 2 * n, PAGE_SIZE)
  {
    PutU16(page, HDR_SIZE + 2 * i, off);
  }

  /** set_content_start and set_num_cells */
  method PutCounts(page: array<Byte>, start: nat, n: nat)
    requires page.Length == PAGE_SIZE && start <= PAGE_SIZE && n <= PAGE_SIZE
    modifies page
    ensures U16(page[..], CONTENT_START) == start && U16(page[..], NUM_CELLS) == n
    ensures SameHeader(old(page[..]), page[..]) && Same(old(page[..]), page[..], HDR_SIZE, PAGE_SIZE)
  {
    PutU16(page, CONTENT_START, start);
    PutU16(page, NUM_CELLS, n);
  }

  ghost function PtrsOf(s: seq<Byte>, nt: NodeType, cells: seq<seq<Byte>>): (offs: seq<nat>)
    requires HoldsCells(s, nt, cells)
    ensures HoldsAt(s, nt, cells, offs)
  {
    var offs :| HoldsAt(s, nt, cells, offs);
    offs
  }

  /** insert_cell_raw: refuses a cell that does not fit with its pointer. */
  method InsertCellRaw(page: array<Byte>, nt: NodeType, idx: nat, cell: seq<Byte>, ghost cells: seq<seq<Byte>>) returns (ok: bool)
    requires page.Length == PAGE_SIZE && HoldsCells(page[..], nt, cells) && idx <= |cells| && WellCell(nt, cell)
    modifies page
    ensures ok <==> Total(cells) + 2 * |cells| + |cell| + 2 <= CAPACITY
    ensures HoldsCells(page[..], nt, if ok then cells[..idx] + [cell] + cells[idx..] else cells)
    ensures SameHeader(old(page[..]), page[..]) && (!ok ==> page[..] == old(page[..]))
  {
    ghost var s, offs := page[..], PtrsOf(page[..], nt, cells);
    var n := U16(page[..], NUM_CELLS);
    var start := U16(page[..], CONTENT_START);
    if start - (HDR_SIZE + 2 * n) < |cell| + 2 {
      return false;
    }
    var newStart := start - |cell|;
    CopyIn(page, newStart, cell);
    ghost var s1 := page[..];
    assert Pointers(s1, offs) by { PointersKept(s, s1, offs); }
    InsertPointer(page, n, idx, newStart, offs);
    ghost var s2, offs2 := page[..], offs[..idx] + [newStart] + offs[idx..];
    PutCounts(page, newStart, n + 1);
    assert Pointers(page[..], offs2) by { PointersKept(s2, page[..], offs2); }
    assert BytesAt(page[..], newStart, cell) by { BytesKept(s1, page[..], newStart, cell, newStart); }
    InsertedHolds(s, page[..], nt, idx, cell, cells, offs);
    return true;
  }

  /** The pointer loop of insert_cell_raw. */
  method InsertPointer(page: array<Byte>, n: nat, idx: nat, off: nat, ghost offs: seq<nat>)
    requires page.Length == PAGE_SIZE && HDR_SIZE + 2 * n + 2 <= PAGE_SIZE && idx <= n == |offs| && off < 65536
    requires Pointers(page[..], offs)
    modifies page
    ensures Pointers(page[..], offs[..idx] + [off] + offs[idx..])
    ensures Same(old(page[..]), page[..], 0, HDR_SIZE)
    ensures Same(old(page[..]), page[..], HDR_SIZE + 2 * n + 2, PAGE_SIZE)
  {
    ghost var offs' := offs[..idx] + [off] + offs[idx..];
    var i := n;
    while i > idx
      invariant idx <= i <= n
      invariant forall k :: 0 <= k < i ==> Ptr(page[..], k) == offs[k]
      invariant forall k :: i < k <= n ==> Ptr(page[..], k) == offs'[k]
      invariant Same(old(page[..]), page[..], 0, HDR_SIZE)
      invariant Same(old(page[..]), page[..], HDR_SIZE + 2 * n + 2, PAGE_SIZE)
    {
      var p := Ptr(page[..], i - 1);
      assert p == offs[i - 1] == offs'[i];
      PutPointer(page, i, p, n + 1);
      i := i - 1;
    }
    PutPointer(page, idx, off, n + 1);
  }

  lemma InsertedHolds(s: seq<Byte>, s': seq<Byte>, nt: NodeType, idx: nat, cell: seq<Byte>, cells: seq<seq<Byte>>, offs: seq<nat>)
    requires HoldsAt(s, nt, cells, offs) && |s'| == PAGE_SIZE && idx <= |cells| && WellCell(nt, cell)
    requires Total(cells) + 2 * |cells| + |cell| + 2 <= CAPACITY
    requires U16(s', NUM_CELLS) == |cells| + 1
    requires U16(s', CONTENT_START) == U16(s, CONTENT_START) - |cell|
    requires Pointers(s', offs[..idx] + [U16(s', CONTENT_START)] + offs[idx..])
    requires BytesAt(s', U16(s', CONTENT_START), cell)
    requires Same(s, s', U16(s, CONTENT_START), PAGE_SIZE)
    ensures HoldsCells(s', nt, cells[..idx] + [cell] + cells[idx..])
  {
    var start, newStart := U16(s, CONTENT_START), U16(s', CONTENT_START);
    TotalInserted(cells, idx, cell);
    InsertedBody(s, s', nt, idx, cell, cells, offs, newStart, start);
    InsertedApart(cells, offs, idx, cell, newStart, start);
    assert HoldsAt(s', nt, cells[..idx] + [cell] + cells[idx..], offs[..idx] + [newStart] + offs[idx..]);
  }

  lemma InsertedBody(s: seq<Byte>, s': seq<Byte>, nt: NodeType, idx: nat, cell: seq<Byte>, cells: seq<seq<Byte>>, offs: seq<nat>,
                     newStart: nat, start: nat)
    requires Body(s, nt, cells, offs, start) && Same(s, s', start, |s|) && idx <= |cells| && newStart <= start
    requires WellCell(nt, cell) && BytesAt(s', newStart, cell)
    ensures Body(s', nt, cells[..idx] + [cell] + cells[idx..], offs[..idx] + [newStart] + offs[idx..], newStart)
  {
    var cells', offs' := cells[..idx] + [cell] + cells[idx..], offs[..idx] + [newStart] + offs[idx..];
    forall i | 0 <= i < |cells'| ensures WellCell(nt, cells'[i]) && newStart <= offs'[i] && BytesAt(s', offs'[i], cells'[i]) {
      if i != idx {
        var j := if i < idx then i else i - 1;
        assert cells'[i] == cells[j] && offs'[i] == offs[j];
        BytesKept(s, s', offs[j], cells[j], start);
      }
    }
  }

  lemma InsertedApart(cells: seq<seq<Byte>>, offs: seq<nat>, idx: nat, cell: seq<Byte>, newStart: nat, start: nat)
    requires Apart(cells, offs) && idx <= |cells| && newStart + |cell| == start
    requires forall i :: 0 <= i < |offs| ==> start <= offs[i]
    ensures Apart(cells[..idx] + [cell] + cells[idx..], offs[..idx] + [newStart] + offs[idx..])
  {
    var cells', offs' := cells[..idx] + [cell] + cells[idx..], offs[..idx] + [newStart] + offs[idx..];
    forall i, j | 0 <= i < j < |cells'| ensures Disjoint(offs'[i], cells'[i], offs'[j], cells'[j]) {
      var i0, j0 := if i < idx then i else i - 1, if j < idx then j else j - 1;
      assert i != idx ==> cells'[i] == cells[i0] && offs'[i] == offs[i0];
      assert j != idx ==> cells'[j] == cells[j0] && offs'[j] == offs[j0];
    }
  }

  // ---------- deleting ----------

  /** delete_cell: drop the pointer, then compact. */
  method DeleteCell(page: array<Byte>, nt: NodeType, idx: nat, ghost cells: seq<seq<Byte>>)
    requires page.Length == PAGE_SIZE && HoldsCells(page[..], nt, cells) && idx < |cells|
    modifies page
    ensures HoldsCells(page[..], nt, cells[..idx] + cells[idx + 1..])
    ensures SameHeader(old(page[..]), page[..])
  {
    ghost var s, offs := page[..], PtrsOf(page[..], nt, cells);
    var n := U16(page[..], NUM_CELLS);
    RemovePointer(page, n, idx, offs);
    ghost var s1, rest, offs1 := page[..], cells[..idx] + cells[idx + 1..], offs[..idx] + offs[idx + 1..];
    PutU16(page, NUM_CELLS, n - 1);
    assert Pointers(page[..], offs1) by { PointersKept(s1, page[..], offs1); }
    RemovedBody(s, page[..], nt, idx, cells, offs);
    CompactPage(page, nt, rest, offs1);
  }

  /** The pointer loop of delete_cell. */
  method RemovePointer(page: array<Byte>, n: nat, idx: nat, ghost offs: seq<nat>)
    requires page.Length == PAGE_SIZE && HDR_SIZE + 2 * n <= PAGE_SIZE && idx < n == |offs|
    requires Pointers(page[..], offs)
    modifies page
    ensures Pointers(page[..], offs[..idx] + offs[idx + 1..])
    ensures Same(old(page[..]), page[..], 0, HDR_SIZE)
    ensures Same(old(page[..]), page[..], HDR_SIZE + 2 * n, PAGE_SIZE)
  {
    ghost var offs' := offs[..idx] + offs[idx + 1..];
    var i := idx;
    while i < n - 1
      invariant idx <= i <= n - 1
      invariant forall k :: 0 <= k < i ==> Ptr(page[..], k) == offs'[k]
      invariant forall k :: i < k < n ==> Ptr(page[..], k) == offs[k]
      invariant Same(old(page[..]), page[..], 0, HDR_SIZE)
      invariant Same(old(page[..]), page[..], HDR_SIZE + 2 * n, PAGE_SIZE)
    {
      var p := Ptr(page[..], i + 1);
      assert p == offs[i + 1] == offs'[i];
      PutPointer(page, i, p, n);
      i := i + 1;
    }
  }

  lemma RemovedBody(s: seq<Byte>, s': seq<Byte>, nt: NodeType, idx: nat, cells: seq<seq<Byte>>, offs: seq<nat>)
    requires HoldsAt(s, nt, cells, offs) && idx < |cells|
    requires Same(s, s', HDR_SIZE + 2 * |cells|, PAGE_SIZE)
    ensures Body(s', nt, cells[..idx] + cells[idx + 1..], offs[..idx] + offs[idx + 1..], 0)
    ensures HDR_SIZE + 2 * (|cells| - 1) + Total(cells[..idx] + cells[idx + 1..]) <= PAGE_SIZE
  {
    var rest, offs' := cells[..idx] + cells[idx + 1..], offs[..idx] + offs[idx + 1..];
    RemovedTotal(cells, idx);
    forall i | 0 <= i < |rest| ensures WellCell(nt, rest[i]) && BytesAt(s', offs'[i], rest[i]) {
      var j := if i < idx then i else i + 1;
      assert rest[i] == cells[j] && offs'[i] == offs[j];
      BytesKept(s, s', offs[j], cells[j], HDR_SIZE + 2 * |cells|);
    }
  }

  lemma RemovedTotal(cells: seq<seq<Byte>>, idx: nat)
    requires idx < |cells|
    ensures Total(cells[..idx] + cells[idx + 1..]) + |cells[idx]| == Total(cells)
  {
    var rest := cells[..idx] + cells[idx + 1..];
    TotalInserted(rest, idx, cells[idx]);
    assert rest[..idx] == cells[..idx] && rest[idx..] == cells[idx + 1..];
    assert cells[..idx] + [cells[idx]] + cells[idx + 1..] == cells;
  }

  /** The offsets of cells packed in order against the end of the page. */
  ghost predicate PackedFrom(cells: seq<seq<Byte>>, offs: seq<nat>, i: nat) {
    && |offs| == |cells| && i <= |cells|
    && forall k :: i <= k < |cells| ==> offs[k] + Total(cells[k..]) == PAGE_SIZE
  }

  /** The cells from i on lie where offs says, all of them at or after start. */
  ghost predicate BodyFrom(s: seq<Byte>, cells: seq<seq<Byte>>, offs: seq<nat>, i: nat, start: nat) {
    && |offs| == |cells|
    && forall k :: i <= k < |cells| ==> start <= offs[k] && BytesAt(s, offs[k], cells[k])
  }

  lemma TotalTail(cells: seq<seq<Byte>>, k: nat)
    requires k < |cells|
    ensures Total(cells[k..]) == |cells[k]| + Total(cells[k + 1..]) <= Total(cells)
  {
    assert cells[k..][1..] == cells[k + 1..];
    assert cells == cells[..k] + cells[k..];
    TotalConcat(cells[..k], cells[k..]);
  }

  /** compact_page: the cells the pointers lead to, packed in pointer order; whatever lies
      between them is dropped. */
  method CompactPage(page: array<Byte>, nt: NodeType, ghost cells: seq<seq<Byte>>, ghost offs: seq<nat>)
    requires page.Length == PAGE_SIZE && U16(page[..], NUM_CELLS) == |cells| && HDR_SIZE + 2 * |cells| + Total(cells) <= PAGE_SIZE
    requires Pointers(page[..], offs) && Body(page[..], nt, cells, offs, 0)
    modifies page
    ensures HoldsCells(page[..], nt, cells)
    ensures SameHeader(old(page[..]), page[..])
  {
    var n := U16(page[..], NUM_CELLS);
    var newStart, offsets, tmp := Pack(page, nt, n, cells, offs);
    CopyIn(page, newStart, tmp[newStart..]);
    forall k | newStart <= k < PAGE_SIZE ensures page[k] == tmp[k] {
      SliceAt(page[..], newStart, tmp[newStart..], k - newStart);
    }
    ghost var t, s := tmp[..], page[..];
    PutPointers(page, n, offsets);
    ghost var s1 := page[..];
    PutU16(page, CONTENT_START, newStart);
    assert Pointers(page[..], offsets) by { PointersKept(s1, page[..], offsets); }
    assert Same(t, page[..], newStart, PAGE_SIZE);
    PackedHolds(page[..], t, nt, cells, offsets);
  }

  /** The last loop of compact_page. */
  method PutPointers(page: array<Byte>, n: nat, offsets: seq<nat>)
    requires page.Length == PAGE_SIZE && HDR_SIZE + 2 * n <= PAGE_SIZE && n == |offsets|
    requires forall k :: 0 <= k < n ==> offsets[k] < 65536
    modifies page
    ensures Pointers(page[..], offsets)
    ensures Same(old(page[..]), page[..], 0, HDR_SIZE) && Same(old(page[..]), page[..], HDR_SIZE + 2 * n, PAGE_SIZE)
  {
    var i := 0;
    while i < n
      invariant 0 <= i <= n
      invariant forall k :: 0 <= k < i ==> Ptr(page[..], k) == offsets[k]
      invariant Same(old(page[..]), page[..], 0, HDR_SIZE) && Same(old(page[..]), page[..], HDR_SIZE + 2 * n, PAGE_SIZE)
    {
      PutPointer(page, i, offsets[i], n);
      i := i + 1;
    }
  }

  /** The first loop of compact_page: copy the cells, last first, into a scratch page. */
  method Pack(page: array<Byte>, nt: NodeType, n: nat, ghost cells: seq<seq<Byte>>, ghost offs: seq<nat>)
    returns (newStart: nat, offsets: seq<nat>, tmp: array<Byte>)
    requires page.Length == PAGE_SIZE && n == |cells| && HDR_SIZE + 2 * |cells| + Total(cells) <= PAGE_SIZE
    requires Pointers(page[..], offs) && Body(page[..], nt, cells, offs, 0)
    ensures fresh(tmp) && tmp.Length == PAGE_SIZE && newStart == PAGE_SIZE - Total(cells)
    ensures PackedFrom(cells, offsets, 0) && BodyFrom(tmp[..], cells, offsets, 0, newStart)
  {
    tmp := new Byte[PAGE_SIZE](_ => 0);
    offsets := seq(n, _ => 0);
    newStart := PAGE_SIZE;
    var i := n;
    assert cells[n..] == [];
    while i > 0
      invariant 0 <= i <= n && newStart + Total(cells[i..]) == PAGE_SIZE
      invariant PackedFrom(cells, offsets, i) && BodyFrom(tmp[..], cells, offsets, i, newStart)
    {
      i := i - 1;
      TotalTail(cells, i);
      newStart := PackOne(page, tmp, nt, newStart, Ptr(page[..], i), i, cells, offsets);
      offsets := offsets[i := newStart];
    }
    assert cells[0..] == cells;
  }

  /** One round of that loop. */
  method PackOne(page: array<Byte>, tmp: array<Byte>, nt: NodeType, start: nat, off: nat, ghost i: nat,
                 ghost cells: seq<seq<Byte>>, ghost offsets: seq<nat>)
    returns (newStart: nat)
    requires page != tmp && page.Length == tmp.Length == PAGE_SIZE && i < |cells| && |cells[i]| <= start <= PAGE_SIZE
    requires WellCell(nt, cells[i]) && BytesAt(page[..], off, cells[i])
    requires BodyFrom(tmp[..], cells, offsets, i + 1, start)
    modifies tmp
    ensures newStart == start - |cells[i]| && BodyFrom(tmp[..], cells, offsets[i := newStart], i, newStart)
  {
    LenOfCell(page[..], nt, off, cells[i]);
    var len := CellLenAt(nt, page[..], off);
    newStart := start - len;
    CopyIn(tmp, newStart, page[off..off + len]);
    assert page[off..off + len] == cells[i];
    BodyExtended(old(tmp[..]), tmp[..], cells, offsets, i, start, newStart);
  }

  lemma BodyExtended(s: seq<Byte>, s': seq<Byte>, cells: seq<seq<Byte>>, offs: seq<nat>, i: nat, start: nat, newStart: nat)
    requires i < |cells| && BodyFrom(s, cells, offs, i + 1, start) && newStart <= start
    requires Same(s, s', start, |s|) && BytesAt(s', newStart, cells[i])
    ensures BodyFrom(s', cells, offs[i := newStart], i, newStart)
  {
    forall k | i < k < |cells| ensures BytesAt(s', offs[k], cells[k]) {
      BytesKept(s, s', offs[k], cells[k], start);
    }
  }

  lemma PackedHolds(s: seq<Byte>, tmp: seq<Byte>, nt: NodeType, cells: seq<seq<Byte>>, offs: seq<nat>)
    requires |s| == |tmp| == PAGE_SIZE && HDR_SIZE + 2 * |cells| + Total(cells) <= PAGE_SIZE
    requires U16(s, NUM_CELLS) == |cells| && U16(s, CONTENT_START) == PAGE_SIZE - Total(cells)
    requires PackedFrom(cells, offs, 0) && Pointers(s, offs)
    requires forall i :: 0 <= i < |cells| ==> WellCell(nt, cells[i])
    requires BodyFrom(tmp, cells, offs, 0, U16(s, CONTENT_START)) && Same(tmp, s, U16(s, CONTENT_START), PAGE_SIZE)
    ensures HoldsCells(s, nt, cells)
  {
    forall i | 0 <= i < |cells| ensures BytesAt(s, offs[i], cells[i]) {
      BytesKept(tmp, s, offs[i], cells[i], U16(s, CONTENT_START));
    }
    forall i, j | 0 <= i < j < |cells| ensures Disjoint(offs[i], cells[i], offs[j], cells[j]) {
      TotalOfTail(cells, i, j);
    }
    assert HoldsAt(s, nt, cells, offs);
  }

  lemma {:induction false} TotalOfTail(cells: seq<seq<Byte>>, i: nat, j: nat)
    requires i < j <= |cells|
    ensures Total(cells[i..]) >= |cells[i]| + Total(cells[j..])
    decreases j - i
  {
    TotalTail(cells, i);
    if i + 1 < j {
      TotalOfTail(cells, i + 1, j);
    }
  }
}
