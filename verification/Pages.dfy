/** What one 4096-byte page of the database file holds, as the layers above the byte
    level see it.  SlottedPage.dfy relates node pages to their bytes. */
module Pages {

  const PAGE_SIZE := 4096
  const HDR_SIZE := 16
  const CAPACITY := PAGE_SIZE - HDR_SIZE

  type PageId = nat
  type Byte = n: int | 0 <= n < 256

  datatype Option<+T> = None | Some(value: T)

  ghost function Elements<T(!new)>(s: seq<T>): set<T> {
    set x | x in s
  }

  lemma EmptyOrHasOne<T>(s: seq<T>)
    ensures s == [] || exists i :: 0 <= i < |s| && s[i] in s
  {
    if s != [] {
      assert s[0] in s;
    }
  }

  datatype Kind = Table | Index

  /** A tree key: its place in the order the tree compares by, and the bytes it occupies.
      In a table tree rank is the signed rowid and len is 8; in an index tree rank is the
      place of the key bytes in memcmp-then-length order (IndexKeys.Rank). */
  datatype Key = Key(rank: int, len: nat)

  /** A leaf cell or an interior cell. */
  datatype Cell =
    | Row(key: Key, payload: seq<Byte>)
    | Sep(key: Key, child: PageId)

  datatype Page =
    | Raw(word: nat)  // zero-filled but for the first 32-bit word: a fresh page or a free-list link
    | Header(numPages: nat, freeHead: PageId)
    | Node(kind: Kind, leaf: bool, cells: seq<Cell>, link: PageId)  // link: next leaf or rightmost child
    | Garbled         // a cell pointer was written past the end of the pointer array

  /** cell_len_at plus the two bytes of the cell's pointer. */
  function CellCost(kind: Kind, c: Cell): nat {
    match (kind, c)
    case (Table, Row(_, payload)) => 12 + |payload| + 2
    case (Table, Sep(_, _)) => 12 + 2
    case (Index, Row(key, _)) => 2 + key.len + 2
    case (Index, Sep(key, _)) => 2 + key.len + 4 + 2
  }

  function Used(kind: Kind, cells: seq<Cell>): nat {
    if cells == [] then 0 else CellCost(kind, cells[0]) + Used(kind, cells[1..])
  }

  lemma {:induction false} UsedConcat(kind: Kind, a: seq<Cell>, b: seq<Cell>)
    ensures Used(kind, a + b) == Used(kind, a) + Used(kind, b)
  {
    if a == [] {
      assert a + b == b;
    } else {
      assert (a + b)[1..] == a[1..] + b;
      UsedConcat(kind, a[1..], b);
    }
  }

  lemma {:induction false} UsedBounds(kind: Kind, cells: seq<Cell>, least: nat, most: nat)
    requires forall i :: 0 <= i < |cells| ==> least <= CellCost(kind, cells[i]) <= most
    ensures |cells| * least <= Used(kind, cells) <= |cells| * most
  {
    if cells != [] {
      UsedBounds(kind, cells[1..], least, most);
      assert |cells| * least == (|cells| - 1) * least + least;
      assert |cells| * most == (|cells| - 1) * most + most;
    }
  }
}
