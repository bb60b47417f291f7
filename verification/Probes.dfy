/** An index probe accepts the same combinations of rows as a scan of every table. */
module Probes {
  import opened Pages
  import opened Values
  import opened IndexKeys
  import opened Expressions
  import opened Queries

  // ---------- what an index run visits ----------

  ghost predicate SortedKeys(keys: seq<seq<Byte>>) {
    forall i, j :: 0 <= i < j < |keys| ==> ByteCompare(keys[i], keys[j]) < 0
  }

  ghost predicate WellFormedTable(s: Source) {
    && (forall i :: 0 <= i < |s.rows| ==> |s.rows[i].row| == |s.schema.columns|)
    && (forall i, j :: 0 <= i < j < |s.rows| ==> s.rows[i].rowid < s.rows[j].rowid)
  }

  function KeyOf(ix: Index, e: Entry): seq<Byte>
    requires ix.column < |e.row|
  {
    Encode(e.row[ix.column], e.rowid)
  }

  /** The keys of an index are exactly those of the table's rows. */
  ghost predicate Agrees(s: Source, ix: Index)
    requires WellFormedTable(s)
  {
    && ix.column < |s.schema.columns| && SortedKeys(ix.keys)
    && (forall i :: 0 <= i < |s.rows| ==> KeyOf(ix, s.rows[i]) in ix.keys)
    && (forall key :: key in ix.keys ==> exists i :: 0 <= i < |s.rows| && KeyOf(ix, s.rows[i]) == key)
  }

  ghost predicate WellFormed(q: Query) {
    && (forall l :: 0 <= l < |q.from| ==> WellFormedTable(q.from[l]))
    && (forall l, k :: 0 <= l < |q.from| && 0 <= k < |q.from[l].indexes| ==> Agrees(q.from[l], q.from[l].indexes[k]))
    && (forall l, l' :: 0 <= l < l' < |q.from| ==> q.from[l].schema.alias != q.from[l'].schema.alias)
  }

  /** The run holds the keys from i up to the first without the prefix. */
  lemma {:induction false} RunIsSlice(keys: seq<seq<Byte>>, i: nat, p: seq<Byte>)
    requires i <= |keys|
    ensures RunFrom(keys, i, p) <= keys[i..]
    ensures forall j :: i <= j < |keys| && (forall k :: i <= k <= j ==> p <= keys[k]) ==> keys[j] in RunFrom(keys, i, p)
    decreases |keys| - i
  {
    if i < |keys| && p <= keys[i] {
      RunIsSlice(keys, i + 1, p);
      assert keys[i..] == [keys[i]] + keys[i + 1..];
      forall j | i <= j < |keys| && (forall k :: i <= k <= j ==> p <= keys[k]) ensures keys[j] in RunFrom(keys, i, p) {
        if j > i {
          assert keys[j] in RunFrom(keys, i + 1, p);
        }
      }
    }
  }

  /** Every key long enough that has the prefix is in the run. */
  lemma RunIsComplete(keys: seq<seq<Byte>>, p: seq<Byte>, j: nat)
    requires SortedKeys(keys) && j < |keys| && p <= keys[j] && |keys[j]| >= |p| + 8
    ensures keys[j] in RunFrom(keys, SeekFrom(keys, p + Be(0, 8)), p)
  {
    var seek := p + Be(0, 8);
    var i := SeekFrom(keys, seek);
    SeekKeyIsLeast(p, keys[j]);
    assert i <= j;
    forall k | i <= k <= j ensures p <= keys[k] {
      ByteCompareFlips(keys[i], seek);
      ByteCompareSame(keys[i], keys[i]);
      ByteCompareTransitive(seek, keys[i], keys[k]);
      ByteCompareSame(keys[j], keys[j]);
      PrefixIsContiguous(p, seek, keys[k], keys[j]);
    }
    RunIsSlice(keys, i, p);
  }

  lemma {:induction false} FindsRow(rows: seq<Entry>, i: nat)
    requires i < |rows| && forall j, k :: 0 <= j < k < |rows| ==> rows[j].rowid < rows[k].rowid
    ensures Find(rows, rows[i].rowid) == Some(rows[i])
  {
    if i > 0 {
      assert rows[0].rowid < rows[i].rowid;
      FindsRow(rows[1..], i - 1);
    }
  }

  lemma FetchesRow(s: Source, ix: Index, i: nat)
    requires WellFormedTable(s) && ix.column < |s.schema.columns| && i < |s.rows|
    ensures Fetch(s.rows, KeyOf(ix, s.rows[i])) == [s.rows[i]]
  {
    EncodedParts(s.rows[i].row[ix.column], s.rows[i].rowid);
    FindsRow(s.rows, i);
  }

  /** The rows fetched for some of the index's keys: for each key its row, in key order. */
  ghost predicate Fetched(s: Source, ix: Index, keys: seq<seq<Byte>>, es: seq<Entry>)
    requires WellFormedTable(s) && ix.column < |s.schema.columns|
  {
    |es| == |keys| && forall i :: 0 <= i < |es| ==> es[i] in s.rows && KeyOf(ix, es[i]) == keys[i]
  }

  ghost predicate NoRepeats(es: seq<Entry>) {
    forall i, j :: 0 <= i < j < |es| ==> es[i] != es[j]
  }

  ghost predicate HasRow(s: Source, ix: Index, key: seq<Byte>)
    requires WellFormedTable(s) && ix.column < |s.schema.columns|
  {
    exists e :: e in s.rows && KeyOf(ix, e) == key && Fetch(s.rows, key) == [e]
  }

  lemma {:induction false} FetchedRows(s: Source, ix: Index, keys: seq<seq<Byte>>)
    requires WellFormedTable(s) && ix.column < |s.schema.columns|
    requires forall i :: 0 <= i < |keys| ==> HasRow(s, ix, keys[i])
    ensures Fetched(s, ix, keys, FetchAll(s.rows, keys))
  {
    if keys != [] {
      var front, last := keys[..|keys| - 1], keys[|keys| - 1];
      FetchedRows(s, ix, front);
      assert HasRow(s, ix, last);
      var e :| e in s.rows && KeyOf(ix, e) == last && Fetch(s.rows, last) == [e];
      FetchedOne(s, ix, front, FetchAll(s.rows, front), e);
      assert front + [last] == keys;
    }
  }

  lemma FetchedOne(s: Source, ix: Index, keys: seq<seq<Byte>>, es: seq<Entry>, e: Entry)
    requires WellFormedTable(s) && ix.column < |s.schema.columns| && Fetched(s, ix, keys, es) && e in s.rows
    ensures Fetched(s, ix, keys + [KeyOf(ix, e)], es + [e])
  {
  }

  lemma EachHasRow(s: Source, ix: Index, key: seq<Byte>)
    requires WellFormedTable(s) && Agrees(s, ix) && key in ix.keys
    ensures HasRow(s, ix, key)
  {
    var i :| 0 <= i < |s.rows| && KeyOf(ix, s.rows[i]) == key;
    FetchesRow(s, ix, i);
  }

  lemma SortedAreDistinct(s: Source, ix: Index, keys: seq<seq<Byte>>, es: seq<Entry>)
    requires WellFormedTable(s) && ix.column < |s.schema.columns| && SortedKeys(keys) && Fetched(s, ix, keys, es)
    ensures NoRepeats(es)
  {
    forall i, j | 0 <= i < j < |es| ensures es[i] != es[j] {
      ByteCompareSame(keys[i], keys[j]);
    }
  }

  lemma SameKeySameRow(s: Source, ix: Index, e: Entry, x: Entry)
    requires WellFormedTable(s) && ix.column < |s.schema.columns| && e in s.rows && x in s.rows && KeyOf(ix, e) == KeyOf(ix, x)
    ensures e == x
  {
    EncodeInjective(e.row[ix.column], e.rowid, x.row[ix.column], x.rowid);
  }

  lemma SortedSlice(keys: seq<seq<Byte>>, i: nat, run: seq<seq<Byte>>)
    requires SortedKeys(keys) && i <= |keys| && run <= keys[i..]
    ensures SortedKeys(run) && forall key :: key in run ==> key in keys
  {
    assert forall k :: 0 <= k < |run| ==> run[k] == keys[i..][k] == keys[i + k];
  }

  /** The keys a probe visits. */
  ghost function RunOf(ix: Index, v: Value): seq<seq<Byte>> {
    RunFrom(ix.keys, SeekFrom(ix.keys, Encode(v, 0)), Prefix(v))
  }

  lemma ProbeFetches(s: Source, ix: Index, v: Value)
    requires WellFormedTable(s) && Agrees(s, ix)
    ensures SortedKeys(RunOf(ix, v)) && Fetched(s, ix, RunOf(ix, v), Probed(s.rows, ix.keys, v))
  {
    var i := SeekFrom(ix.keys, Encode(v, 0));
    RunIsSlice(ix.keys, i, Prefix(v));
    SortedSlice(ix.keys, i, RunOf(ix, v));
    forall j | 0 <= j < |RunOf(ix, v)| ensures HasRow(s, ix, RunOf(ix, v)[j]) {
      EachHasRow(s, ix, RunOf(ix, v)[j]);
    }
    FetchedRows(s, ix, RunOf(ix, v));
  }

  /** A probe visits rows of the table, none twice, and among them every row whose indexed
      column equals the probe value. */
  lemma ProbeVisits(s: Source, ix: Index, v: Value)
    requires WellFormedTable(s) && Agrees(s, ix)
    ensures var es := Probed(s.rows, ix.keys, v);
            && (forall e :: e in es ==> e in s.rows)
            && NoRepeats(es)
            && (forall e :: e in s.rows && e.row[ix.column] == v ==> e in es)
  {
    var run, es := RunOf(ix, v), Probed(s.rows, ix.keys, v);
    ProbeFetches(s, ix, v);
    SortedAreDistinct(s, ix, run, es);
    forall e | e in s.rows && e.row[ix.column] == v ensures e in es {
      var j :| 0 <= j < |ix.keys| && ix.keys[j] == KeyOf(ix, e);
      assert Encode(v, 0) == Prefix(v) + Be(0, 8);
      RunIsComplete(ix.keys, Prefix(v), j);
      var i :| 0 <= i < |run| && run[i] == KeyOf(ix, e);
      SameKeySameRow(s, ix, es[i], e);
    }
  }

  // ---------- when a probe is faithful ----------

  /** A value that compares equal to the probe value is it. */
  predicate EqualIsSame(m: Machine, v: Value, w: Value) {
    v.Null? || w.Null? || (Compare(m, v, w) != 0 && Compare(m, w, v) != 0) || v == w
  }

  /** This needs no look at the comparison when both are of one type, no NaN, and not two
      different zeros. */
  predicate SameKind(v: Value, w: Value) {
    v.Null? || w.Null? || (Tag(v) == Tag(w) && (v.Real? ==> !IsNan(v.bits) && !IsNan(w.bits) && (IsZero(v.bits) && IsZero(w.bits) ==> v == w)))
  }

  lemma EqualMeansSame(m: Machine, v: Value, w: Value)
    requires SameKind(v, w)
    ensures EqualIsSame(m, v, w)
  {
    if v.Text? && w.Text? {
      ByteCompareSame(v.text, w.text);
      ByteCompareSame(w.text, v.text);
    } else if v.Real? && w.Real? {
      TotalOrderIsNumeric(v.bits, w.bits);
      TotalOrderIsNumeric(w.bits, v.bits);
    }
  }

  /** The probe value of a level, if it has a probe: it evaluates, and no value of the column
      only compares equal to it. */
  ghost predicate ProbeFits(m: Machine, q: Query, tables: seq<Bound>)
    requires |tables| < |q.from| && WellFormed(q)
  {
    var plan, s := Plan(q, |tables|), q.from[|tables|];
    plan.Some? ==>
      && Uncorrelated(m, plan.value.value, q.outer)
      && var v := Eval(m, plan.value.value, Context(tables, q.outer));
      && v.Some?
      && forall i :: 0 <= i < |s.rows| ==> EqualIsSame(m, v.value, s.rows[i].row[s.indexes[plan.value.index].column])
  }

  /** So at every level the scan comes to. */
  ghost predicate ProbesFit(m: Machine, q: Query, tables: seq<Bound>)
    requires |tables| <= |q.from| && WellFormed(q)
    decreases |q.from| - |tables|
  {
    |tables| < |q.from| ==>
      && ProbeFits(m, q, tables)
      && forall e :: e in q.from[|tables|].rows && Keeps(m, q.from[|tables|].on, Context(Extend(q, tables, e), q.outer)) == Some(true)
                     ==> ProbesFit(m, q, Extend(q, tables, e))
  }

  /** At every level the probe value evaluates, and has the type of the column, NaN and a zero
      of the other sign apart: what a caller can check without the comparison. */
  ghost predicate ProbesMatch(m: Machine, q: Query, tables: seq<Bound>)
    requires |tables| <= |q.from| && WellFormed(q)
    decreases |q.from| - |tables|
  {
    |tables| < |q.from| ==>
      && ProbeMatches(m, q, tables)
      && forall e :: e in q.from[|tables|].rows && Keeps(m, q.from[|tables|].on, Context(Extend(q, tables, e), q.outer)) == Some(true)
                     ==> ProbesMatch(m, q, Extend(q, tables, e))
  }

  ghost predicate ProbeMatches(m: Machine, q: Query, tables: seq<Bound>)
    requires |tables| < |q.from| && WellFormed(q)
  {
    var plan, s := Plan(q, |tables|), q.from[|tables|];
    plan.Some? ==>
      && Uncorrelated(m, plan.value.value, q.outer)
      && var v := Eval(m, plan.value.value, Context(tables, q.outer));
      && v.Some?
      && forall i :: 0 <= i < |s.rows| ==> SameKind(v.value, s.rows[i].row[s.indexes[plan.value.index].column])
  }

  lemma MatchingFits(m: Machine, q: Query, tables: seq<Bound>)
    requires |tables| < |q.from| && WellFormed(q) && ProbeMatches(m, q, tables)
    ensures ProbeFits(m, q, tables)
  {
    var plan, s := Plan(q, |tables|), q.from[|tables|];
    if plan.Some? {
      var v := Eval(m, plan.value.value, Context(tables, q.outer)).value;
      forall i | 0 <= i < |s.rows| ensures EqualIsSame(m, v, s.rows[i].row[s.indexes[plan.value.index].column]) {
        EqualMeansSame(m, v, s.rows[i].row[s.indexes[plan.value.index].column]);
      }
    }
  }

  lemma {:induction false} AllMatchingFit(m: Machine, q: Query, tables: seq<Bound>)
    requires |tables| <= |q.from| && WellFormed(q) && ProbesMatch(m, q, tables)
    ensures ProbesFit(m, q, tables)
    decreases |q.from| - |tables|
  {
    if |tables| < |q.from| {
      MatchingFits(m, q, tables);
      forall e | e in q.from[|tables|].rows && Keeps(m, q.from[|tables|].on, Context(Extend(q, tables, e), q.outer)) == Some(true)
        ensures ProbesFit(m, q, Extend(q, tables, e))
      {
        AllMatchingFit(m, q, Extend(q, tables, e));
      }
    }
  }

  ghost predicate BoundTo(q: Query, tables: seq<Bound>) {
    && |tables| <= |q.from|
    && forall i :: 0 <= i < |tables| ==> tables[i].schema == q.from[i].schema && |tables[i].row| == |tables[i].schema.columns|
  }

  lemma ExtendedIsBound(q: Query, tables: seq<Bound>, e: Entry)
    requires WellFormed(q) && BoundTo(q, tables) && |tables| < |q.from| && e in q.from[|tables|].rows
    ensures BoundTo(q, Extend(q, tables, e)) && Extend(q, tables, e)[..|tables|] == tables
  {
    assert WellFormedTable(q.from[|tables|]);
  }

  lemma BoundIsDistinct(q: Query, tables: seq<Bound>, k: nat)
    requires WellFormed(q) && BoundTo(q, tables) && k <= |tables|
    ensures Shaped(tables) && DistinctAliases(tables) && Schemas(tables[..k]) == SchemasBefore(q, k)
  {
    forall i, j | 0 <= i < j < |tables| ensures tables[i].schema.alias != tables[j].schema.alias {
      assert q.from[i].schema.alias != q.from[j].schema.alias;
    }
  }

  /** Where the condition of a level with a probe keeps a row, the row has the probe value. */
  lemma KeptRowHasProbeValue(m: Machine, q: Query, tables: seq<Bound>, k: nat, e: Entry)
    requires WellFormed(q) && BoundTo(q, tables) && k < |tables| && e in q.from[k].rows && tables[k].row == e.row
    requires Plan(q, k).Some? && ProbeFits(m, q, tables[..k])
    requires Keeps(m, Condition(q, k), Context(tables, q.outer)) == Some(true)
    ensures var p := Plan(q, k).value;
            Eval(m, p.value, Context(tables[..k], q.outer)) == Some(e.row[q.from[k].indexes[p.index].column])
    ensures !e.row[q.from[k].indexes[Plan(q, k).value.index].column].Null?
  {
    var s, p := q.from[k], Plan(q, k).value;
    BoundIsDistinct(q, tables, k);
    ColumnsInRow(q, tables, k);
    KeptRowMatchesProbe(m, Condition(q, k).value, tables, k, q.outer, Indexed(s));
    BoundBefore(q, tables, k);
    EvaluatedEarly(m, p.value, tables[..k], tables[k..], q.outer);
    var i :| 0 <= i < |s.rows| && s.rows[i] == e;
    assert EqualIsSame(m, Eval(m, p.value, Context(tables, q.outer)).value, s.rows[i].row[s.indexes[p.index].column]);
  }

  lemma ColumnsInRow(q: Query, tables: seq<Bound>, k: nat)
    requires WellFormed(q) && BoundTo(q, tables) && k < |tables|
    ensures forall i :: 0 <= i < |Indexed(q.from[k])| ==> Indexed(q.from[k])[i] < |tables[k].row|
  {
    forall i | 0 <= i < |Indexed(q.from[k])| ensures Indexed(q.from[k])[i] < |tables[k].row| {
      assert Agrees(q.from[k], q.from[k].indexes[i]);
    }
  }

  lemma BoundBefore(q: Query, tables: seq<Bound>, k: nat)
    requires WellFormed(q) && BoundTo(q, tables) && k <= |tables|
    ensures BoundTo(q, tables[..k]) && Shaped(tables[..k]) && tables[..k] + tables[k..] == tables
  {
    BoundIsDistinct(q, tables[..k], k);
    assert tables[..k][..k] == tables[..k];
  }

  // ---------- rows the probe skips ----------

  ghost predicate Lacks(m: Machine, q: Query, tables: seq<Bound>, e: Entry)
    requires WellFormed(q) && |tables| < |q.from| && e in q.from[|tables|].rows && Plan(q, |tables|).Some?
  {
    var p, s := Plan(q, |tables|).value, q.from[|tables|];
    assert WellFormedTable(s) && Agrees(s, s.indexes[p.index]);
    var w := e.row[s.indexes[p.index].column];
    w.Null? || Eval(m, p.value, Context(tables, q.outer)) != Some(w)
  }

  /** If row e of the first table lacks the probe value, WHERE rejects it with whatever
      rows of the other tables. */
  lemma {:induction false} FirstRowRejected(m: Machine, q: Query, tables: seq<Bound>, e: Entry)
    requires WellFormed(q) && BoundTo(q, tables) && |tables| >= 1 && e in q.from[0].rows && tables[0].row == e.row
    requires Plan(q, 0).Some? && ProbeFits(m, q, []) && Accepted(m, q, false, tables).Some?
    requires Lacks(m, q, [], e)
    ensures Accepted(m, q, false, tables).value == []
    decreases |q.from| - |tables|, 1, 0
  {
    if |tables| == |q.from| {
      assert tables[..0] == [];
      if Keeps(m, q.where, Context(tables, q.outer)) == Some(true) {
        KeptRowHasProbeValue(m, q, tables, 0, e);
      }
    } else {
      FirstRowRejectedWith(m, q, tables, e, q.from[|tables|].rows);
    }
  }

  lemma {:induction false} FirstRowRejectedWith(m: Machine, q: Query, tables: seq<Bound>, e: Entry, entries: seq<Entry>)
    requires WellFormed(q) && BoundTo(q, tables) && 1 <= |tables| < |q.from| && e in q.from[0].rows && tables[0].row == e.row
    requires Plan(q, 0).Some? && ProbeFits(m, q, []) && AcceptedOf(m, q, false, tables, entries).Some?
    requires Lacks(m, q, [], e)
    requires forall x :: x in entries ==> x in q.from[|tables|].rows
    ensures AcceptedOf(m, q, false, tables, entries).value == []
    decreases |q.from| - |tables|, 0, |entries| + 1
  {
    if entries != [] {
      var front, x := entries[..|entries| - 1], entries[|entries| - 1];
      FirstRowRejectedWith(m, q, tables, e, front);
      FirstRowRejectedBy(m, q, tables, e, x);
    }
  }

  lemma {:induction false} FirstRowRejectedBy(m: Machine, q: Query, tables: seq<Bound>, e: Entry, x: Entry)
    requires WellFormed(q) && BoundTo(q, tables) && 1 <= |tables| < |q.from| && e in q.from[0].rows && tables[0].row == e.row
    requires Plan(q, 0).Some? && ProbeFits(m, q, []) && AcceptedWith(m, q, false, tables, x).Some?
    requires Lacks(m, q, [], e) && x in q.from[|tables|].rows
    ensures AcceptedWith(m, q, false, tables, x).value == []
    decreases |q.from| - |tables|, 0, 0
  {
    ExtendedIsBound(q, tables, x);
    if Keeps(m, q.from[|tables|].on, Context(Extend(q, tables, x), q.outer)) == Some(true) {
      assert Extend(q, tables, x)[0] == tables[0];
      FirstRowRejected(m, q, Extend(q, tables, x), e);
    }
  }

  /** A row that lacks the probe value of its level contributes nothing to the scan. */
  lemma RowWithoutValueIsRejected(m: Machine, q: Query, tables: seq<Bound>, e: Entry)
    requires WellFormed(q) && BoundTo(q, tables) && |tables| < |q.from| && e in q.from[|tables|].rows
    requires ProbeFits(m, q, tables) && AcceptedWith(m, q, false, tables, e).Some?
    requires Plan(q, |tables|).Some? && Lacks(m, q, tables, e)
    ensures AcceptedWith(m, q, false, tables, e).value == []
  {
    var ext := Extend(q, tables, e);
    ExtendedIsBound(q, tables, e);
    if Keeps(m, q.from[|tables|].on, Context(ext, q.outer)) == Some(true) {
      if |tables| == 0 {
        assert tables == [];
        FirstRowRejected(m, q, ext, e);
      } else {
        KeptRowHasProbeValue(m, q, ext, |tables|, e);
      }
    }
  }

  /** So does a row the probe does not visit. */
  lemma SkippedRowIsRejected(m: Machine, q: Query, tables: seq<Bound>, e: Entry)
    requires WellFormed(q) && BoundTo(q, tables) && |tables| < |q.from| && e in q.from[|tables|].rows
    requires ProbeFits(m, q, tables) && AcceptedWith(m, q, false, tables, e).Some?
    requires Visits(m, q, true, tables).Some? && e !in Visits(m, q, true, tables).value
    ensures AcceptedWith(m, q, false, tables, e).value == []
  {
    var s, p := q.from[|tables|], Plan(q, |tables|).value;
    assert WellFormedTable(s) && Agrees(s, s.indexes[p.index]);
    ProbeVisits(s, s.indexes[p.index], Eval(m, p.value, Context(tables, q.outer)).value);
    RowWithoutValueIsRejected(m, q, tables, e);
  }

  // ---------- the same combinations ----------

  /** What one row contributes to the scan. */
  ghost function Tally(m: Machine, q: Query, tables: seq<Bound>, e: Entry): multiset<seq<Bound>>
    requires |tables| < |q.from|
  {
    var r := AcceptedWith(m, q, false, tables, e);
    if r.Some? then multiset(r.value) else multiset{}
  }

  type Tallies = Entry -> multiset<seq<Bound>>

  ghost function Contributions(m: Machine, q: Query, tables: seq<Bound>): Tallies
    requires |tables| < |q.from|
  {
    e => Tally(m, q, tables, e)
  }

  ghost function SumOf(f: Tallies, entries: seq<Entry>): multiset<seq<Bound>> {
    if entries == [] then multiset{} else SumOf(f, entries[..|entries| - 1]) + f(entries[|entries| - 1])
  }

  lemma {:induction false} ScanIsTally(m: Machine, q: Query, tables: seq<Bound>, entries: seq<Entry>)
    requires |tables| < |q.from| && AcceptedOf(m, q, false, tables, entries).Some?
    ensures multiset(AcceptedOf(m, q, false, tables, entries).value) == SumOf(Contributions(m, q, tables), entries)
    ensures forall e :: e in entries ==> AcceptedWith(m, q, false, tables, e).Some?
  {
    if entries != [] {
      ScanIsTally(m, q, tables, entries[..|entries| - 1]);
    }
  }

  lemma {:induction false} SumWithout(f: Tallies, entries: seq<Entry>, j: nat)
    requires j < |entries|
    ensures SumOf(f, entries) == SumOf(f, entries[..j] + entries[j + 1..]) + f(entries[j])
  {
    var front, rest := entries[..|entries| - 1], entries[..j] + entries[j + 1..];
    if j < |front| {
      SumWithout(f, front, j);
      assert rest[..|rest| - 1] == front[..j] + front[j + 1..];
    } else {
      assert rest == front;
    }
  }

  lemma FrontOf(es: seq<Entry>)
    requires es != [] && NoRepeats(es)
    ensures var front, last := es[..|es| - 1], es[|es| - 1];
            NoRepeats(front) && forall e :: e in front <==> e in es && e != last
  {
    assert es == es[..|es| - 1] + [es[|es| - 1]];
  }

  lemma WithoutOne(es: seq<Entry>, j: nat)
    requires NoRepeats(es) && j < |es|
    ensures NoRepeats(es[..j] + es[j + 1..])
    ensures forall e :: e in es[..j] + es[j + 1..] <==> e in es && e != es[j]
  {
    var rest := es[..j] + es[j + 1..];
    assert forall k :: 0 <= k < |rest| ==> rest[k] == es[if k < j then k else k + 1];
    forall e | e in es && e != es[j] ensures e in rest {
      var k :| 0 <= k < |es| && es[k] == e;
      assert rest[if k < j then k else k - 1] == e;
    }
  }

  /** Leaving out rows that contribute nothing, and reordering, does not change the sum. */
  lemma {:induction false} SumOfSome(f: Tallies, all: seq<Entry>, some: seq<Entry>)
    requires NoRepeats(all) && NoRepeats(some) && forall e :: e in some ==> e in all
    requires forall e :: e in all && e !in some ==> f(e) == multiset{}
    ensures SumOf(f, some) == SumOf(f, all)
    decreases |all|
  {
    if all != [] {
      var front, e := all[..|all| - 1], all[|all| - 1];
      FrontOf(all);
      if e in some {
        var j :| 0 <= j < |some| && some[j] == e;
        SumWithout(f, some, j);
        WithoutOne(some, j);
        SumOfSome(f, front, some[..j] + some[j + 1..]);
      } else {
        SumOfSome(f, front, some);
      }
    } else {
      assert forall e :: e !in some;
    }
  }

  /** From any bound tables on, where the scan meets no error: the plan with index probes
      meets none either and accepts the same combinations. */
  lemma {:induction false} PlanFromHere(m: Machine, q: Query, tables: seq<Bound>)
    requires WellFormed(q) && BoundTo(q, tables) && ProbesFit(m, q, tables) && Accepted(m, q, false, tables).Some?
    ensures Accepted(m, q, true, tables).Some?
    ensures multiset(Accepted(m, q, true, tables).value) == multiset(Accepted(m, q, false, tables).value)
    decreases |q.from| - |tables|, 2, 0
  {
    if |tables| < |q.from| {
      var s, entries := q.from[|tables|], Visits(m, q, true, tables).value;
      ScanIsTally(m, q, tables, s.rows);
      assert NoRepeats(s.rows) by {
        assert WellFormedTable(s);
      }
      VisitsSome(m, q, tables);
      forall e | e in s.rows && e !in entries ensures Tally(m, q, tables, e) == multiset{} {
        SkippedRowIsRejected(m, q, tables, e);
      }
      SumOfSome(Contributions(m, q, tables), s.rows, entries);
      PlanOver(m, q, tables, entries);
    }
  }

  lemma VisitsSome(m: Machine, q: Query, tables: seq<Bound>)
    requires WellFormed(q) && BoundTo(q, tables) && |tables| < |q.from| && ProbeFits(m, q, tables)
    ensures Visits(m, q, true, tables).Some?
    ensures var es := Visits(m, q, true, tables).value; NoRepeats(es) && forall e :: e in es ==> e in q.from[|tables|].rows
  {
    var s, plan := q.from[|tables|], Plan(q, |tables|);
    assert WellFormedTable(s);
    if plan.Some? {
      assert Agrees(s, s.indexes[plan.value.index]);
      var v := Eval(m, plan.value.value, Context(tables, q.outer)).value;
      ProbeVisits(s, s.indexes[plan.value.index], v);
    }
  }

  lemma {:induction false} PlanOver(m: Machine, q: Query, tables: seq<Bound>, entries: seq<Entry>)
    requires WellFormed(q) && BoundTo(q, tables) && |tables| < |q.from| && ProbesFit(m, q, tables)
    requires forall e :: e in entries ==> e in q.from[|tables|].rows && AcceptedWith(m, q, false, tables, e).Some?
    ensures AcceptedOf(m, q, true, tables, entries).Some?
    ensures multiset(AcceptedOf(m, q, true, tables, entries).value) == SumOf(Contributions(m, q, tables), entries)
    decreases |q.from| - |tables|, 1, |entries|
  {
    if entries != [] {
      var front, e := entries[..|entries| - 1], entries[|entries| - 1];
      PlanOver(m, q, tables, front);
      assert e in entries;
      PlanWith(m, q, tables, e);
    }
  }

  lemma {:induction false} PlanWith(m: Machine, q: Query, tables: seq<Bound>, e: Entry)
    requires WellFormed(q) && BoundTo(q, tables) && |tables| < |q.from| && ProbesFit(m, q, tables)
    requires e in q.from[|tables|].rows && AcceptedWith(m, q, false, tables, e).Some?
    ensures AcceptedWith(m, q, true, tables, e).Some?
    ensures multiset(AcceptedWith(m, q, true, tables, e).value) == Tally(m, q, tables, e)
    decreases |q.from| - |tables|, 0, 0
  {
    if Keeps(m, q.from[|tables|].on, Context(Extend(q, tables, e), q.outer)) == Some(true) {
      ExtendedIsBound(q, tables, e);
      PlanFromHere(m, q, Extend(q, tables, e));
    }
  }

  /** For any number of joined tables: where scanning meets no error, the plan with index
      probes accepts exactly the same combinations of rows. */
  lemma ProbesAcceptWhatScansAccept(m: Machine, q: Query)
    requires WellFormed(q) && ProbesFit(m, q, []) && Accepted(m, q, false, []).Some?
    ensures Accepted(m, q, true, []).Some?
    ensures multiset(Accepted(m, q, true, []).value) == multiset(Accepted(m, q, false, []).value)
  {
    PlanFromHere(m, q, []);
  }

  /** So it does where every probe value has the type of its column. */
  lemma MatchingProbesAcceptWhatScansAccept(m: Machine, q: Query)
    requires WellFormed(q) && ProbesMatch(m, q, []) && Accepted(m, q, false, []).Some?
    ensures Accepted(m, q, true, []).Some?
    ensures multiset(Accepted(m, q, true, []).value) == multiset(Accepted(m, q, false, []).value)
  {
    AllMatchingFit(m, q, []);
    ProbesAcceptWhatScansAccept(m, q);
  }

  // ---------- why the hypotheses are there ----------

  /** COUNT of a star as a probe value: the planner takes it, since it names no column. */
  function Failing(): Expr {
    Func(Count, true, None)
  }

  function OneTable(rows: seq<Entry>, keys: seq<seq<Byte>>, value: Expr): Query {
    Query([Source(Schema("t", ["c"]), rows, [Index.Index(0, keys)], None)], Some(Binary(Eq, Column("", "c"), value)), None)
  }

  lemma OneTablePlan(rows: seq<Entry>, keys: seq<seq<Byte>>, value: Expr)
    requires RefsOnly(value, [])
    ensures Plan(OneTable(rows, keys, value), 0) == Some(Probe(0, value))
  {
    var q := OneTable(rows, keys, value);
    var s := q.from[0].schema;
    assert s.columns[0] == "c" && ColumnIndex(s.columns, "c") == 0;
    assert Indexed(q.from[0]) == [0] && SchemasBefore(q, 0) == [];
    assert IndexOn([0], 0) == 0;
    assert OfTable(Column("", "c"), s);
  }

  /** On an empty table the scan evaluates nothing, but the probe value is evaluated, and
      may fail. */
  lemma ProbeFailsOnEmptyTable(m: Machine)
    ensures var q := OneTable([], [], Failing());
            WellFormed(q) && Accepted(m, q, false, []) == Some([]) && Accepted(m, q, true, []).None?
  {
    var q := OneTable([], [], Failing());
    OneTablePlan([], [], Failing());
    assert Agrees(q.from[0], q.from[0].indexes[0]);
  }

  /** WHERE c = 1 on a REAL column with the row 1.0, where the comparison holds: the key of
      the row carries the tag of REAL, so the probe misses it. */
  lemma IntProbeMissesRealRow(m: Machine, one: Bits64)
    requires m.mixed(Real(one), Int(1)) == 0
    ensures var q := OneTable([Entry(1, [Real(one)])], [Encode(Real(one), 1)], Literal(Int(1)));
            && WellFormed(q) && Accepted(m, q, true, []) == Some([])
            && exists row :: Accepted(m, q, false, []) == Some([row])
  {
    var e, key := Entry(1, [Real(one)]), Encode(Real(one), 1);
    var q := OneTable([e], [key], Literal(Int(1)));
    assert WellFormed(q) by {
      assert KeyOf(q.from[0].indexes[0], q.from[0].rows[0]) == key;
      assert Agrees(q.from[0], q.from[0].indexes[0]);
    }
    assert Accepted(m, q, true, []) == Some([]) by {
      OneTablePlan([e], [key], Literal(Int(1)));
      IntProbeMisses(one, [e]);
    }
    assert Accepted(m, q, false, []) == Some([[Bound(q.from[0].schema, e.row)]]) by {
      ScanKeeps(m, [e], [key], Int(1), Real(one));
    }
  }

  lemma IntProbeMisses(one: Bits64, rows: seq<Entry>)
    ensures Probed(rows, [Encode(Real(one), 1)], Int(1)) == []
  {
    var keys := [Encode(Real(one), 1)];
    PrefixMatches(Int(1), Real(one), 1);
    assert RunFrom(keys, SeekFrom(keys, Encode(Int(1), 0)), Prefix(Int(1))) == [];
  }

  lemma ScanKeeps(m: Machine, rows: seq<Entry>, keys: seq<seq<Byte>>, v: Value, w: Value)
    requires |rows| == 1 && rows[0].row == [w] && !v.Null? && !w.Null? && Compare(m, w, v) == 0
    ensures var q := OneTable(rows, keys, Literal(v)); Accepted(m, q, false, []) == Some([[Bound(q.from[0].schema, [w])]])
  {
    var q := OneTable(rows, keys, Literal(v));
    var row := [Bound(q.from[0].schema, [w])];
    assert Extend(q, [], rows[0]) == row;
    assert Named(["c"], [w], "c") == [w];
    assert row[..0] == [] && NamedIn(row, "c") == [w];
    assert Resolve(Context(row, None), "", "c") == Some(w);
    assert Eval(m, Column("", "c"), Context(row, None)) == Some(w) && Eval(m, Literal(v), Context(row, None)) == Some(v);
    assert Eval(m, q.where.value, Context(row, None)) == Apply(m, Eq, w, v) == Some(Truth(true));
    assert Keeps(m, q.where, Context(row, None)) == Some(true);
    assert Accepted(m, q, false, row) == Some([row]);
    assert AcceptedWith(m, q, false, [], rows[0]) == Some([row]);
    assert rows[..0] == [] && AcceptedOf(m, q, false, [], rows[..0]) == Some([]);
    assert [] + [row] == [row];
    assert AcceptedOf(m, q, false, [], rows) == Some([row]);
  }
}
