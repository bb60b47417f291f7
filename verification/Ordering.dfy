/** The order of ORDER BY (orderby_compare, src/executor.c:995-1002): the keys in turn, each
    ascending or descending, then the order in which the rows were found. */
module Ordering {
  import opened Pages
  import opened Values
  import opened Groups

  /** A result row: its ORDER BY keys and its place among the rows found. */
  datatype ResultRow = ResultRow(keys: seq<Value>, place: int)

  /** Keys of the shape of the ORDER BY list, comparable position by position, no NaN. */
  ghost predicate Alike(descending: seq<bool>, a: ResultRow, b: ResultRow) {
    && |a.keys| == |b.keys| == |descending|
    && forall i :: 0 <= i < |descending| ==> Comparable(a.keys[i], b.keys[i]) && IsNumber(a.keys[i]) && IsNumber(b.keys[i])
  }

  /** orderby_compare from key i on. */
  function CompareFrom(descending: seq<bool>, a: ResultRow, b: ResultRow, i: nat): int
    requires |a.keys| == |b.keys| == |descending| && i <= |descending|
    requires forall k :: 0 <= k < |descending| ==> Comparable(a.keys[k], b.keys[k])
    decreases |descending| - i
  {
    if i == |descending| then Sign(a.place - b.place)
    else
      var c := ValueCompare(a.keys[i], b.keys[i]);
      if c != 0 then if descending[i] then -c else c else CompareFrom(descending, a, b, i + 1)
  }

  /** The keys before i are equal, and the i-th says that a comes first: it is less and
      ascending, or greater and descending. */
  ghost predicate FirstAt(descending: seq<bool>, a: ResultRow, b: ResultRow, i: nat)
    requires |a.keys| == |b.keys| == |descending|
  {
    && i < |descending| && (forall j :: 0 <= j < i ==> Same(a.keys[j], b.keys[j]))
    && if descending[i] then Less(b.keys[i], a.keys[i]) else Less(a.keys[i], b.keys[i])
  }

  /** What ORDER BY asks for: the first key that differs decides, or else who was found first. */
  ghost predicate Precedes(descending: seq<bool>, a: ResultRow, b: ResultRow)
    requires |a.keys| == |b.keys| == |descending|
  {
    || (exists i :: FirstAt(descending, a, b, i))
    || ((forall i :: 0 <= i < |descending| ==> Same(a.keys[i], b.keys[i])) && a.place < b.place)
  }

  lemma {:induction false} CompareFromMeans(descending: seq<bool>, a: ResultRow, b: ResultRow, i: nat)
    requires |a.keys| == |b.keys| == |descending| && i <= |descending|
    requires forall k :: 0 <= k < |descending| ==> Comparable(a.keys[k], b.keys[k])
    requires forall j :: 0 <= j < i ==> Same(a.keys[j], b.keys[j])
    ensures CompareFrom(descending, a, b, i) < 0 <==> Precedes(descending, a, b)
    decreases |descending| - i
  {
    if i < |descending| {
      var x, y := a.keys[i], b.keys[i];
      CompareMeans(x, y);
      if ValueCompare(x, y) == 0 {
        CompareFromMeans(descending, a, b, i + 1);
      } else {
        DiffersAt(descending, a, b, i);
      }
    } else {
      forall k: nat | k < |descending| ensures !FirstAt(descending, a, b, k) {
        SameIsNotLess(a.keys[k], b.keys[k]);
      }
    }
  }

  lemma SameIsNotLess(x: Value, y: Value)
    requires Same(x, y)
    ensures !Less(x, y) && !Less(y, x)
  {
    if x.Text? && y.Text? {
      CompareMeans(x, y);
    }
  }

  /** No later key matters. */
  lemma DiffersAt(descending: seq<bool>, a: ResultRow, b: ResultRow, i: nat)
    requires |a.keys| == |b.keys| == |descending| && i < |descending|
    requires (forall j :: 0 <= j < i ==> Same(a.keys[j], b.keys[j])) && !Same(a.keys[i], b.keys[i])
    ensures Precedes(descending, a, b) <==> FirstAt(descending, a, b, i)
  {
    forall k: nat | k < i ensures !FirstAt(descending, a, b, k) {
      SameIsNotLess(a.keys[k], b.keys[k]);
    }
  }

  /** The loop of orderby_compare. */
  method OrderByCompare(descending: seq<bool>, a: ResultRow, b: ResultRow) returns (c: int)
    requires |a.keys| == |b.keys| == |descending|
    requires forall k :: 0 <= k < |descending| ==> Comparable(a.keys[k], b.keys[k])
    ensures c == CompareFrom(descending, a, b, 0)
    ensures c < 0 <==> Precedes(descending, a, b)
  {
    CompareFromMeans(descending, a, b, 0);
    for i := 0 to |descending|
      invariant CompareFrom(descending, a, b, 0) == CompareFrom(descending, a, b, i)
    {
      c := ValueCompare(a.keys[i], b.keys[i]);
      if descending[i] {
        c := -c;
      }
      if c != 0 {
        return;
      }
    }
    c := if a.place < b.place then -1 else if a.place > b.place then 1 else 0;
  }

  lemma {:induction false} CompareFromFlips(descending: seq<bool>, a: ResultRow, b: ResultRow, i: nat)
    requires Alike(descending, a, b) && i <= |descending|
    ensures CompareFrom(descending, b, a, i) == -CompareFrom(descending, a, b, i)
    decreases |descending| - i
  {
    if i < |descending| {
      CompareFlips(a.keys[i], b.keys[i]);
      CompareFromFlips(descending, a, b, i + 1);
    }
  }

  lemma {:induction false} CompareFromTransitive(descending: seq<bool>, a: ResultRow, b: ResultRow, c: ResultRow, i: nat)
    requires Alike(descending, a, b) && Alike(descending, b, c) && Alike(descending, a, c) && i <= |descending|
    requires CompareFrom(descending, a, b, i) <= 0 && CompareFrom(descending, b, c, i) <= 0
    ensures CompareFrom(descending, a, c, i) <= 0
    ensures CompareFrom(descending, a, b, i) < 0 || CompareFrom(descending, b, c, i) < 0 ==> CompareFrom(descending, a, c, i) < 0
    decreases |descending| - i
  {
    if i < |descending| {
      var x, y, z := a.keys[i], b.keys[i], c.keys[i];
      CompareFlips(x, y);
      CompareFlips(y, z);
      CompareFlips(x, z);
      if descending[i] {
        CompareTransitive(z, y, x);
        InTurn(z, y, x);
      } else {
        CompareTransitive(x, y, z);
        InTurn(x, y, z);
      }
      if ValueCompare(x, y) == 0 && ValueCompare(y, z) == 0 {
        CompareFromTransitive(descending, a, b, c, i + 1);
      }
    }
  }

  /** Values in order of which the outer two are equal are all equal. */
  lemma InTurn(x: Value, y: Value, z: Value)
    requires Comparable(x, y) && Comparable(y, z) && Comparable(x, z) && IsNumber(x) && IsNumber(y) && IsNumber(z)
    requires ValueCompare(x, y) <= 0 && ValueCompare(y, z) <= 0
    ensures ValueCompare(x, z) == 0 <==> ValueCompare(x, y) == 0 && ValueCompare(y, z) == 0
  {
    CompareFlips(x, y);
    CompareFlips(y, z);
    CompareFlips(x, z);
    if ValueCompare(x, z) == 0 {
      CompareTransitive(z, x, y);
      CompareTransitive(y, z, x);
    }
    if ValueCompare(x, y) == 0 && ValueCompare(y, z) == 0 {
      CompareTransitive(x, y, z);
      CompareTransitive(z, y, x);
    }
  }

  /** ORDER BY is a total order that leaves no two rows equal, so the sorted result does not
      depend on how qsort works. */
  lemma OrderIsTotal(descending: seq<bool>, a: ResultRow, b: ResultRow, c: ResultRow)
    requires Alike(descending, a, b) && Alike(descending, b, c) && Alike(descending, a, c)
    ensures a.place != b.place ==> CompareFrom(descending, a, b, 0) != 0
    ensures CompareFrom(descending, b, a, 0) == -CompareFrom(descending, a, b, 0)
    ensures CompareFrom(descending, a, b, 0) < 0 && CompareFrom(descending, b, c, 0) < 0 ==> CompareFrom(descending, a, c, 0) < 0
  {
    CompareFromFlips(descending, a, b, 0);
    if a.place != b.place {
      PlacesDecide(descending, a, b, 0);
    }
    if CompareFrom(descending, a, b, 0) < 0 && CompareFrom(descending, b, c, 0) < 0 {
      CompareFromTransitive(descending, a, b, c, 0);
    }
  }

  lemma {:induction false} PlacesDecide(descending: seq<bool>, a: ResultRow, b: ResultRow, i: nat)
    requires Alike(descending, a, b) && i <= |descending| && a.place != b.place
    ensures CompareFrom(descending, a, b, i) != 0
    decreases |descending| - i
  {
    if i < |descending| {
      PlacesDecide(descending, a, b, i + 1);
    }
  }

  // ---------- the sorted result ----------

  ghost predicate AllAlike(descending: seq<bool>, rows: seq<ResultRow>) {
    forall i, j :: 0 <= i < |rows| && 0 <= j < |rows| ==> Alike(descending, rows[i], rows[j])
  }

  /** Each row was found at a place of its own. */
  ghost predicate OwnPlaces(rows: seq<ResultRow>) {
    forall i, j :: 0 <= i < j < |rows| ==> rows[i].place != rows[j].place
  }

  ghost predicate InOrder(descending: seq<bool>, rows: seq<ResultRow>)
    requires AllAlike(descending, rows)
  {
    forall i, j :: 0 <= i < j < |rows| ==> NotAfter(descending, rows[i], rows[j])
  }

  ghost predicate NotAfter(descending: seq<bool>, a: ResultRow, b: ResultRow)
    requires Alike(descending, a, b)
  {
    CompareFrom(descending, a, b, 0) <= 0
  }

  /** A sorted result has each row before those that ORDER BY puts after it. */
  lemma SortedMeans(descending: seq<bool>, rows: seq<ResultRow>)
    requires AllAlike(descending, rows) && OwnPlaces(rows)
    ensures InOrder(descending, rows) <==> forall i, j :: 0 <= i < j < |rows| ==> Precedes(descending, rows[i], rows[j])
  {
    forall i, j | 0 <= i < j < |rows| ensures NotAfter(descending, rows[i], rows[j]) <==> Precedes(descending, rows[i], rows[j]) {
      CompareFromMeans(descending, rows[i], rows[j], 0);
      PlacesDecide(descending, rows[i], rows[j], 0);
    }
  }

  /** By one ascending key the keys never fall, by a descending one they never rise, and rows
      with equal keys stay in the order found. */
  lemma SortedByOne(desc: bool, rows: seq<ResultRow>)
    requires AllAlike([desc], rows) && OwnPlaces(rows) && InOrder([desc], rows)
    ensures forall i, j :: 0 <= i < j < |rows| ==>
              var x, y := rows[i].keys[0], rows[j].keys[0];
              && (if desc then !Less(x, y) else !Less(y, x))
              && (Same(x, y) ==> rows[i].place < rows[j].place)
  {
    SortedMeans([desc], rows);
    forall i, j | 0 <= i < j < |rows|
      ensures var x, y := rows[i].keys[0], rows[j].keys[0];
              (if desc then !Less(x, y) else !Less(y, x)) && (Same(x, y) ==> rows[i].place < rows[j].place)
    {
      var x, y := rows[i].keys[0], rows[j].keys[0];
      assert Precedes([desc], rows[i], rows[j]) && Alike([desc], rows[i], rows[j]);
      CompareMeans(x, y);
      CompareMeans(y, x);
      CompareFlips(x, y);
    }
  }

  /** However qsort works: two sorted lists of the same rows are the same list. */
  lemma {:induction false} SortedIsUnique(descending: seq<bool>, a: seq<ResultRow>, b: seq<ResultRow>)
    requires AllAlike(descending, a) && AllAlike(descending, b) && OwnPlaces(a) && OwnPlaces(b)
    requires forall x :: x in a <==> x in b
    requires InOrder(descending, a) && InOrder(descending, b)
    ensures a == b
    decreases |a|
  {
    if a == [] {
      EmptyOrHasOne(b);
    } else {
      assert a[0] in b;
      FirstsAgree(descending, a, b);
      RestHolds(a);
      RestHolds(b);
      SortedIsUnique(descending, a[1..], b[1..]);
      assert a == [a[0]] + a[1..] && b == [b[0]] + b[1..];
    }
  }

  lemma RestHolds(a: seq<ResultRow>)
    requires a != [] && OwnPlaces(a)
    ensures forall x :: x in a[1..] <==> x in a && x != a[0]
  {
    assert a == [a[0]] + a[1..];
  }

  lemma FirstsAgree(descending: seq<bool>, a: seq<ResultRow>, b: seq<ResultRow>)
    requires a != [] && b != [] && AllAlike(descending, a) && AllAlike(descending, b) && OwnPlaces(a)
    requires InOrder(descending, a) && InOrder(descending, b) && a[0] in b && b[0] in a
    ensures a[0] == b[0]
  {
    var i :| 0 <= i < |b| && b[i] == a[0];
    var j :| 0 <= j < |a| && a[j] == b[0];
    if j > 0 {
      assert NotAfter(descending, a[0], a[j]);
      assert i > 0 ==> NotAfter(descending, b[0], b[i]);
      CompareFromFlips(descending, a[0], b[0], 0);
      PlacesDecide(descending, a[0], b[0], 0);
    }
  }
}
