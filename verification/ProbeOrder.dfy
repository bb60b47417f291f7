/** With rowids of one sign an index plan also finds the rows in the order of the scan, so
    that a LIMIT without ORDER BY cuts both off at the same row. */
module ProbeOrder {
  import opened Pages
  import opened Values
  import opened IndexKeys
  import opened Expressions
  import opened Queries
  import opened Probes

  /** No table has both negative rowids and others. */
  ghost predicate OneSign(q: Query) {
    forall l :: 0 <= l < |q.from| ==> OneSigned(q.from[l].rows)
  }

  ghost predicate OneSigned(rows: seq<Entry>) {
    forall i, j :: 0 <= i < |rows| && 0 <= j < |rows| ==> (rows[i].rowid < 0 <==> rows[j].rowid < 0)
  }

  type Lists = Entry -> seq<seq<Bound>>

  /** What each row contributes to the scan, in order. */
  ghost function Results(m: Machine, q: Query, tables: seq<Bound>): Lists
    requires |tables| < |q.from|
  {
    e => var r := AcceptedWith(m, q, false, tables, e); if r.Some? then r.value else []
  }

  ghost function ConcatOf(f: Lists, entries: seq<Entry>): seq<seq<Bound>> {
    if entries == [] then [] else ConcatOf(f, entries[..|entries| - 1]) + f(entries[|entries| - 1])
  }

  /** The entries that contribute something come in rowid order. */
  ghost predicate Rising(f: Lists, es: seq<Entry>) {
    forall i, j :: 0 <= i < j < |es| && f(es[i]) != [] && f(es[j]) != [] ==> es[i].rowid < es[j].rowid
  }

  ghost predicate SameContributors(f: Lists, a: seq<Entry>, b: seq<Entry>) {
    forall e :: f(e) != [] ==> (e in a <==> e in b)
  }

  /** Two lists with the same contributors in rowid order contribute the same. */
  lemma {:induction false} ConcatAgrees(f: Lists, a: seq<Entry>, b: seq<Entry>)
    requires Rising(f, a) && Rising(f, b) && SameContributors(f, a, b)
    ensures ConcatOf(f, a) == ConcatOf(f, b)
    decreases |a| + |b|
  {
    if a != [] && f(a[|a| - 1]) == [] {
      DropLast(f, a, b);
      ConcatAgrees(f, a[..|a| - 1], b);
    } else if b != [] && f(b[|b| - 1]) == [] {
      DropLast(f, b, a);
      ConcatAgrees(f, a, b[..|b| - 1]);
    } else if a != [] && b != [] {
      LastsAgree(f, a, b);
      ConcatAgrees(f, a[..|a| - 1], b[..|b| - 1]);
    }
  }

  lemma DropLast(f: Lists, a: seq<Entry>, b: seq<Entry>)
    requires a != [] && f(a[|a| - 1]) == [] && Rising(f, a) && SameContributors(f, a, b)
    ensures Rising(f, a[..|a| - 1]) && SameContributors(f, a[..|a| - 1], b) && ConcatOf(f, a) == ConcatOf(f, a[..|a| - 1])
  {
    RisingFront(f, a);
    FrontOrLast(a);
  }

  lemma RisingFront(f: Lists, a: seq<Entry>)
    requires a != [] && Rising(f, a)
    ensures Rising(f, a[..|a| - 1])
  {}

  lemma FrontOrLast(a: seq<Entry>)
    requires a != []
    ensures forall e :: e in a <==> e in a[..|a| - 1] || e == a[|a| - 1]
  {
    assert a == a[..|a| - 1] + [a[|a| - 1]];
  }

  lemma LastsAgree(f: Lists, a: seq<Entry>, b: seq<Entry>)
    requires a != [] && b != [] && f(a[|a| - 1]) != [] && f(b[|b| - 1]) != []
    requires Rising(f, a) && Rising(f, b) && SameContributors(f, a, b)
    ensures a[|a| - 1] == b[|b| - 1]
    ensures Rising(f, a[..|a| - 1]) && Rising(f, b[..|b| - 1]) && SameContributors(f, a[..|a| - 1], b[..|b| - 1])
  {
    LastIsHighest(f, a, b[|b| - 1]);
    LastIsHighest(f, b, a[|a| - 1]);
    FrontIsRest(f, a);
    FrontIsRest(f, b);
  }

  lemma LastIsHighest(f: Lists, a: seq<Entry>, e: Entry)
    requires a != [] && Rising(f, a) && f(a[|a| - 1]) != [] && f(e) != [] && e in a
    ensures e == a[|a| - 1] || e.rowid < a[|a| - 1].rowid
  {
  }

  lemma FrontIsRest(f: Lists, a: seq<Entry>)
    requires a != [] && Rising(f, a) && f(a[|a| - 1]) != []
    ensures var front, last := a[..|a| - 1], a[|a| - 1];
            Rising(f, front) && forall e :: f(e) != [] ==> (e in front <==> e in a && e != last)
  {
    RisingFront(f, a);
    FrontOrLast(a);
  }

  lemma {:induction false} ScanIsConcat(m: Machine, q: Query, tables: seq<Bound>, entries: seq<Entry>)
    requires |tables| < |q.from| && AcceptedOf(m, q, false, tables, entries).Some?
    ensures AcceptedOf(m, q, false, tables, entries).value == ConcatOf(Results(m, q, tables), entries)
    ensures forall e :: e in entries ==> AcceptedWith(m, q, false, tables, e).Some?
  {
    if entries != [] {
      ScanIsConcat(m, q, tables, entries[..|entries| - 1]);
    }
  }

  /** Keys of one value are in rowid order exactly if both rowids or none is negative. */
  lemma SameValueInRowidOrder(v: Value, r: Int64, s: Int64)
    requires ByteCompare(Encode(v, r), Encode(v, s)) < 0
    ensures r < s <==> (r < 0 <==> s < 0)
  {
    ByteCompareAfter(Prefix(v), Be(Unsign(r), 8), Be(Unsign(s), 8));
    RowidOrder(r, s);
  }

  /** So two rows with the probe value are visited in rowid order exactly then. */
  lemma VisitedInOrderIff(s: Source, ix: Index, v: Value, i: nat, j: nat)
    requires WellFormedTable(s) && Agrees(s, ix) && i < j < |Probed(s.rows, ix.keys, v)|
    requires var es := Probed(s.rows, ix.keys, v);
             forall k :: k == i || k == j ==> ix.column < |es[k].row| && es[k].row[ix.column] == v
    ensures var es := Probed(s.rows, ix.keys, v);
            es[i].rowid < es[j].rowid <==> (es[i].rowid < 0 <==> es[j].rowid < 0)
  {
    var es := Probed(s.rows, ix.keys, v);
    ProbeFetches(s, ix, v);
    assert ByteCompare(KeyOf(ix, es[i]), KeyOf(ix, es[j])) < 0;
    SameValueInRowidOrder(v, es[i].rowid, es[j].rowid);
  }

  /** Of the rows a level visits, those that contribute come in rowid order. */
  lemma VisitsRise(m: Machine, q: Query, tables: seq<Bound>)
    requires WellFormed(q) && OneSign(q) && BoundTo(q, tables) && |tables| < |q.from| && ProbeFits(m, q, tables)
    requires forall e :: e in q.from[|tables|].rows ==> AcceptedWith(m, q, false, tables, e).Some?
    requires Visits(m, q, true, tables).Some?
    ensures Rising(Results(m, q, tables), Visits(m, q, true, tables).value)
  {
    var s, es, plan := q.from[|tables|], Visits(m, q, true, tables).value, Plan(q, |tables|);
    assert WellFormedTable(s);
    if plan.Some? && !Eval(m, plan.value.value, Context(tables, q.outer)).value.Null? {
      var ix, v := s.indexes[plan.value.index], Eval(m, plan.value.value, Context(tables, q.outer)).value;
      assert Agrees(s, ix);
      ProbeFetches(s, ix, v);
      forall i, j | 0 <= i < j < |es| && Results(m, q, tables)(es[i]) != [] && Results(m, q, tables)(es[j]) != []
        ensures es[i].rowid < es[j].rowid {
        ContributorHasValue(m, q, tables, es[i]);
        ContributorHasValue(m, q, tables, es[j]);
        SameSign(s.rows, es[i], es[j]);
        assert ByteCompare(KeyOf(ix, es[i]), KeyOf(ix, es[j])) < 0;
        SameValueInRowidOrder(v, es[i].rowid, es[j].rowid);
      }
    }
  }

  lemma SameSign(rows: seq<Entry>, a: Entry, b: Entry)
    requires OneSigned(rows) && a in rows && b in rows
    ensures a.rowid < 0 <==> b.rowid < 0
  {}

  lemma ContributorHasValue(m: Machine, q: Query, tables: seq<Bound>, e: Entry)
    requires WellFormed(q) && BoundTo(q, tables) && |tables| < |q.from| && e in q.from[|tables|].rows && ProbeFits(m, q, tables)
    requires AcceptedWith(m, q, false, tables, e).Some? && Results(m, q, tables)(e) != [] && Plan(q, |tables|).Some?
    ensures !Lacks(m, q, tables, e)
  {
    if Lacks(m, q, tables, e) {
      RowWithoutValueIsRejected(m, q, tables, e);
    }
  }

  /** From any bound tables on, where the scan meets no error: the same list. */
  lemma {:induction false} OrderFromHere(m: Machine, q: Query, tables: seq<Bound>)
    requires WellFormed(q) && OneSign(q) && BoundTo(q, tables) && ProbesFit(m, q, tables)
    requires Accepted(m, q, false, tables).Some?
    ensures Accepted(m, q, true, tables) == Accepted(m, q, false, tables)
    decreases |q.from| - |tables|, 2, 0
  {
    if |tables| < |q.from| {
      var s, f := q.from[|tables|], Results(m, q, tables);
      ScanIsConcat(m, q, tables, s.rows);
      VisitsSome(m, q, tables);
      var entries := Visits(m, q, true, tables).value;
      VisitsRise(m, q, tables);
      assert Rising(f, s.rows) by {
        assert WellFormedTable(s);
      }
      forall e | f(e) != [] ensures e in s.rows <==> e in entries {
        if e in s.rows && e !in entries {
          SkippedRowIsRejected(m, q, tables, e);
        }
      }
      ConcatAgrees(f, s.rows, entries);
      OrderOver(m, q, tables, entries);
    }
  }

  lemma {:induction false} OrderOver(m: Machine, q: Query, tables: seq<Bound>, entries: seq<Entry>)
    requires WellFormed(q) && OneSign(q) && BoundTo(q, tables) && |tables| < |q.from| && ProbesFit(m, q, tables)
    requires forall e :: e in entries ==> e in q.from[|tables|].rows && AcceptedWith(m, q, false, tables, e).Some?
    ensures AcceptedOf(m, q, true, tables, entries) == Some(ConcatOf(Results(m, q, tables), entries))
    decreases |q.from| - |tables|, 1, |entries|
  {
    if entries != [] {
      var front, e := entries[..|entries| - 1], entries[|entries| - 1];
      OrderOver(m, q, tables, front);
      assert e in entries;
      OrderWith(m, q, tables, e);
    }
  }

  lemma {:induction false} OrderWith(m: Machine, q: Query, tables: seq<Bound>, e: Entry)
    requires WellFormed(q) && OneSign(q) && BoundTo(q, tables) && |tables| < |q.from| && ProbesFit(m, q, tables)
    requires e in q.from[|tables|].rows && AcceptedWith(m, q, false, tables, e).Some?
    ensures AcceptedWith(m, q, true, tables, e) == AcceptedWith(m, q, false, tables, e)
    decreases |q.from| - |tables|, 0, 0
  {
    if Keeps(m, q.from[|tables|].on, Context(Extend(q, tables, e), q.outer)) == Some(true) {
      ExtendedIsBound(q, tables, e);
      OrderFromHere(m, q, Extend(q, tables, e));
    }
  }

  /** The index plan accepts the same combinations in the same order. */
  lemma ProbesKeepTheOrder(m: Machine, q: Query)
    requires WellFormed(q) && OneSign(q) && ProbesFit(m, q, []) && Accepted(m, q, false, []).Some?
    ensures Accepted(m, q, true, []) == Accepted(m, q, false, [])
  {
    OrderFromHere(m, q, []);
  }
}
