/** What the nested loops compute: of all combinations of rows, one from each table, those
    that meet every ON condition and WHERE, how often, in which order, and when they fail. */
module Joins {
  import opened Pages
  import opened Values
  import opened Expressions
  import opened Queries
  import Meanings
  import Probes

  ghost predicate RowOf(q: Query, l: nat, b: Bound)
    requires l < |q.from|
  {
    exists e :: e in q.from[l].rows && b == Bound(q.from[l].schema, e.row)
  }

  /** From table n on: each row is one of its table's and meets the ON condition with the
      rows before it. */
  ghost predicate Joined(m: Machine, q: Query, combination: seq<Bound>, n: nat)
    requires |combination| == |q.from|
  {
    forall l :: n <= l < |q.from| ==>
      RowOf(q, l, combination[l]) && Keeps(m, q.from[l].on, Context(combination[..l + 1], q.outer)) == Some(true)
  }

  /** The condition on a combination of rows, one per table. */
  ghost predicate Qualifies(m: Machine, q: Query, combination: seq<Bound>) {
    && |combination| == |q.from| && Joined(m, q, combination, 0)
    && Keeps(m, q.where, Context(combination, q.outer)) == Some(true)
  }

  ghost predicate Extends(q: Query, tables: seq<Bound>, combination: seq<Bound>) {
    |tables| <= |combination| == |q.from| && combination[..|tables|] == tables
  }

  // ---------- how often ----------

  /** How many of the entries have this row. */
  function Times(schema: Schema, entries: seq<Entry>, b: Bound): nat {
    if entries == [] then 0
    else Times(schema, entries[..|entries| - 1], b) + if Bound(schema, entries[|entries| - 1].row) == b then 1 else 0
  }

  /** In how many ways the rows of a combination, from table n on, can be taken from the tables. */
  function Ways(q: Query, combination: seq<Bound>, n: nat): nat
    requires n <= |combination| == |q.from|
    decreases |q.from| - n
  {
    if n == |q.from| then 1 else Times(q.from[n].schema, q.from[n].rows, combination[n]) * Ways(q, combination, n + 1)
  }

  /** The conditions on a combination from table n on. */
  ghost predicate Meets(m: Machine, q: Query, combination: seq<Bound>, n: nat)
    requires n <= |combination| == |q.from|
    decreases |q.from| - n
  {
    if n == |q.from| then Keeps(m, q.where, Context(combination, q.outer)) == Some(true)
    else Keeps(m, q.from[n].on, Context(combination[..n + 1], q.outer)) == Some(true) && Meets(m, q, combination, n + 1)
  }

  ghost function Weight(m: Machine, q: Query, combination: seq<Bound>, n: nat): nat
    requires n <= |combination| == |q.from|
  {
    if Meets(m, q, combination, n) then Ways(q, combination, n) else 0
  }

  /** A scan accepts a qualifying combination as often as the tables hold its rows. */
  lemma ScanCounts(m: Machine, q: Query, combination: seq<Bound>)
    requires Accepted(m, q, false, []).Some?
    ensures multiset(Accepted(m, q, false, []).value)[combination] == if Qualifies(m, q, combination) then Ways(q, combination, 0) else 0
  {
    CountsFrom(m, q, [], combination);
    if |combination| == |q.from| {
      MeetsAll(m, q, combination, 0);
    }
  }

  /** So it accepts exactly the qualifying ones. */
  lemma ScanSelects(m: Machine, q: Query, combination: seq<Bound>)
    requires Accepted(m, q, false, []).Some?
    ensures combination in Accepted(m, q, false, []).value <==> Qualifies(m, q, combination)
  {
    ScanCounts(m, q, combination);
    if Qualifies(m, q, combination) {
      MeetsAll(m, q, combination, 0);
    }
    var scan := Accepted(m, q, false, []).value;
    assert combination in multiset(scan) <==> combination in scan;
  }

  lemma {:induction false} MeetsAll(m: Machine, q: Query, combination: seq<Bound>, n: nat)
    requires n <= |combination| == |q.from|
    ensures Joined(m, q, combination, n) && Keeps(m, q.where, Context(combination, q.outer)) == Some(true)
            <==> Meets(m, q, combination, n) && Ways(q, combination, n) > 0
    decreases |q.from| - n
  {
    if n < |q.from| {
      MeetsAll(m, q, combination, n + 1);
      TimesOfRows(q.from[n].schema, q.from[n].rows, combination[n]);
      assert Joined(m, q, combination, n) <==>
        RowOf(q, n, combination[n]) && Keeps(m, q.from[n].on, Context(combination[..n + 1], q.outer)) == Some(true) && Joined(m, q, combination, n + 1);
    }
  }

  lemma {:induction false} TimesOfRows(schema: Schema, entries: seq<Entry>, b: Bound)
    ensures Times(schema, entries, b) > 0 <==> exists e :: e in entries && b == Bound(schema, e.row)
  {
    if entries != [] {
      var front, e := entries[..|entries| - 1], entries[|entries| - 1];
      assert entries == front + [e];
      TimesOfRows(schema, front, b);
    }
  }

  lemma {:induction false} CountsFrom(m: Machine, q: Query, tables: seq<Bound>, combination: seq<Bound>)
    requires |tables| <= |q.from| && Accepted(m, q, false, tables).Some?
    ensures multiset(Accepted(m, q, false, tables).value)[combination] == if Extends(q, tables, combination) then Weight(m, q, combination, |tables|) else 0
    decreases |q.from| - |tables|, 2, 0
  {
    if |tables| == |q.from| {
      assert Extends(q, tables, combination) ==> combination[..|tables|] == combination;
    } else {
      CountsOf(m, q, tables, q.from[|tables|].rows, combination);
    }
  }

  /** The combinations that go on with one row. */
  ghost function Share(m: Machine, q: Query, tables: seq<Bound>, combination: seq<Bound>): nat
    requires |tables| < |q.from|
  {
    if Extends(q, tables, combination) && Meets(m, q, combination, |tables|) then Ways(q, combination, |tables| + 1) else 0
  }

  lemma {:induction false} CountsOf(m: Machine, q: Query, tables: seq<Bound>, entries: seq<Entry>, combination: seq<Bound>)
    requires |tables| < |q.from| && AcceptedOf(m, q, false, tables, entries).Some?
    ensures multiset(AcceptedOf(m, q, false, tables, entries).value)[combination]
            == if Extends(q, tables, combination)
               then Times(q.from[|tables|].schema, entries, combination[|tables|]) * Share(m, q, tables, combination) else 0
    decreases |q.from| - |tables|, 1, |entries|
  {
    hide Share, Extends;
    if entries != [] {
      var front, e, n := entries[..|entries| - 1], entries[|entries| - 1], |tables|;
      CountsOf(m, q, tables, front, combination);
      CountsWith(m, q, tables, e, combination);
      CountBoth(AcceptedOf(m, q, false, tables, front).value, AcceptedWith(m, q, false, tables, e).value, combination);
      if Extends(q, tables, combination) {
        ExtendsSize(q, tables, combination);
        OneMoreTime(Times(q.from[n].schema, front, combination[n]), Share(m, q, tables, combination));
      }
    }
  }

  lemma ExtendsSize(q: Query, tables: seq<Bound>, combination: seq<Bound>)
    requires Extends(q, tables, combination)
    ensures |tables| <= |combination| == |q.from|
  {}

  lemma OneMoreTime(t: nat, share: nat)
    ensures (t + 1) * share == t * share + share
  {}

  lemma CountBoth<T>(a: seq<T>, b: seq<T>, x: T)
    ensures multiset(a + b)[x] == multiset(a)[x] + multiset(b)[x]
  {}

  lemma {:induction false} CountsWith(m: Machine, q: Query, tables: seq<Bound>, e: Entry, combination: seq<Bound>)
    requires |tables| < |q.from| && AcceptedWith(m, q, false, tables, e).Some?
    ensures multiset(AcceptedWith(m, q, false, tables, e).value)[combination]
            == if Extends(q, Extend(q, tables, e), combination) then Share(m, q, tables, combination) else 0
    ensures Extends(q, Extend(q, tables, e), combination)
            <==> Extends(q, tables, combination) && combination[|tables|] == Bound(q.from[|tables|].schema, e.row)
    decreases |q.from| - |tables|, 0, 0
  {
    var n, next := |tables|, Extend(q, tables, e);
    assert next[..n] == tables;
    if Extends(q, next, combination) {
      assert combination[..n] == combination[..n + 1][..n];
      assert combination[n] == combination[..n + 1][n];
    }
    if Extends(q, tables, combination) {
      assert combination[..n + 1] == tables + [combination[n]];
    }
    if Keeps(m, q.from[n].on, Context(next, q.outer)) == Some(true) {
      CountsFrom(m, q, next, combination);
    }
  }

  // ---------- in which order ----------

  /** Up to k they are the same, and there a is less. */
  ghost predicate LexAt(a: seq<nat>, b: seq<nat>, k: nat) {
    k < |a| && k < |b| && a[..k] == b[..k] && a[k] < b[k]
  }

  ghost predicate LexLess(a: seq<nat>, b: seq<nat>) {
    exists k :: LexAt(a, b, k)
  }

  /** The combination goes on after tables with the rows at these places. */
  ghost predicate Picked(q: Query, tables: seq<Bound>, pick: seq<nat>, combination: seq<Bound>) {
    && Extends(q, tables, combination) && |pick| == |q.from| - |tables|
    && forall l :: |tables| <= l < |q.from| ==> PickedAt(q.from[l], pick[l - |tables|], combination[l])
  }

  ghost predicate PickedAt(s: Source, place: nat, b: Bound) {
    place < |s.rows| && b == Bound(s.schema, s.rows[place].row)
  }

  ghost predicate PicksAre(q: Query, tables: seq<Bound>, picks: seq<seq<nat>>, combinations: seq<seq<Bound>>) {
    && |picks| == |combinations|
    && (forall k :: 0 <= k < |picks| ==> Picked(q, tables, picks[k], combinations[k]))
    && forall i, j :: 0 <= i < j < |picks| ==> LexLess(picks[i], picks[j])
  }

  /** A scan accepts in the order of the rows, those of the first table first: the places of
      the rows of what it accepts rise lexicographically. */
  lemma ScanInOrder(m: Machine, q: Query) returns (picks: seq<seq<nat>>)
    requires Accepted(m, q, false, []).Some?
    ensures PicksAre(q, [], picks, Accepted(m, q, false, []).value)
  {
    picks := PicksFrom(m, q, []);
  }

  lemma {:induction false} PicksFrom(m: Machine, q: Query, tables: seq<Bound>) returns (picks: seq<seq<nat>>)
    requires |tables| <= |q.from| && Accepted(m, q, false, tables).Some?
    ensures PicksAre(q, tables, picks, Accepted(m, q, false, tables).value)
    decreases |q.from| - |tables|, 2, 0
  {
    if |tables| == |q.from| {
      assert tables[..|tables|] == tables;
      picks := if Accepted(m, q, false, tables).value == [] then [] else [[]];
    } else {
      var rows := q.from[|tables|].rows;
      picks := PicksOf(m, q, tables, |rows|, rows);
    }
  }

  lemma {:induction false} PicksOf(m: Machine, q: Query, tables: seq<Bound>, n: nat, entries: seq<Entry>) returns (picks: seq<seq<nat>>)
    requires |tables| < |q.from| && n <= |q.from[|tables|].rows| && entries == q.from[|tables|].rows[..n]
    requires AcceptedOf(m, q, false, tables, entries).Some?
    ensures PicksAre(q, tables, picks, AcceptedOf(m, q, false, tables, entries).value)
    ensures forall k :: 0 <= k < |picks| ==> picks[k] != [] && picks[k][0] < n
    decreases |q.from| - |tables|, 1, n
  {
    picks := [];
    if n > 0 {
      var front, e := entries[..n - 1], entries[n - 1];
      var before := PicksOf(m, q, tables, n - 1, front);
      var last := PicksWith(m, q, tables, n - 1, e);
      picks := before + last;
      forall i, j | 0 <= i < |before| <= j < |picks| ensures LexLess(picks[i], picks[j]) {
        assert LexAt(picks[i], picks[j], 0);
      }
    }
  }

  lemma {:induction false} PicksWith(m: Machine, q: Query, tables: seq<Bound>, place: nat, e: Entry) returns (picks: seq<seq<nat>>)
    requires |tables| < |q.from| && place < |q.from[|tables|].rows| && e == q.from[|tables|].rows[place]
    requires AcceptedWith(m, q, false, tables, e).Some?
    ensures PicksAre(q, tables, picks, AcceptedWith(m, q, false, tables, e).value)
    ensures forall k :: 0 <= k < |picks| ==> picks[k] != [] && picks[k][0] == place
    decreases |q.from| - |tables|, 0, 0
  {
    picks := [];
    var next := Extend(q, tables, e);
    if Keeps(m, q.from[|tables|].on, Context(next, q.outer)) == Some(true) {
      var rest := PicksFrom(m, q, next);
      picks := seq(|rest|, k requires 0 <= k < |rest| => [place] + rest[k]);
      PicksBefore(q, tables, place, e, rest, Accepted(m, q, false, next).value);
    }
  }

  lemma PicksBefore(q: Query, tables: seq<Bound>, place: nat, e: Entry, rest: seq<seq<nat>>, combinations: seq<seq<Bound>>)
    requires |tables| < |q.from| && PickedAt(q.from[|tables|], place, Bound(q.from[|tables|].schema, e.row))
    requires PicksAre(q, Extend(q, tables, e), rest, combinations)
    ensures PicksAre(q, tables, seq(|rest|, k requires 0 <= k < |rest| => [place] + rest[k]), combinations)
  {
    var n, next := |tables|, Extend(q, tables, e);
    forall k | 0 <= k < |rest| ensures Picked(q, tables, [place] + rest[k], combinations[k]) {
      var c := combinations[k];
      assert Picked(q, next, rest[k], c);
      assert c[..n] == c[..n + 1][..n] && next[..n] == tables && c[n] == c[..n + 1][n];
      forall l | n <= l < |q.from| ensures PickedAt(q.from[l], ([place] + rest[k])[l - n], c[l]) {
        assert l > n ==> PickedAt(q.from[l], rest[k][l - (n + 1)], c[l]);
      }
    }
    forall i, j | 0 <= i < j < |rest| ensures LexLess([place] + rest[i], [place] + rest[j]) {
      var k: nat :| LexAt(rest[i], rest[j], k);
      assert ([place] + rest[i])[..k + 1] == [place] + rest[i][..k] && ([place] + rest[j])[..k + 1] == [place] + rest[j][..k];
      assert LexAt([place] + rest[i], [place] + rest[j], k + 1);
    }
  }

  // ---------- when it fails ----------

  /** Rows of the first tables that meet their ON conditions. */
  ghost predicate Reached(m: Machine, q: Query, rows: seq<Bound>) {
    && |rows| <= |q.from|
    && forall l :: 0 <= l < |rows| ==> RowOf(q, l, rows[l]) && Keeps(m, q.from[l].on, Context(rows[..l + 1], q.outer)) == Some(true)
  }

  /** Rows on which a condition fails: WHERE on rows of all tables that meet every ON condition,
      or the ON condition of one more row. */
  ghost predicate Breaks(m: Machine, q: Query, rows: seq<Bound>) {
    || (|rows| == |q.from| && Reached(m, q, rows) && Keeps(m, q.where, Context(rows, q.outer)).None?)
    || BreaksOn(m, q, rows)
  }

  ghost predicate BreaksOn(m: Machine, q: Query, rows: seq<Bound>) {
    && 0 < |rows| <= |q.from| && Reached(m, q, rows[..|rows| - 1]) && RowOf(q, |rows| - 1, rows[|rows| - 1])
    && Keeps(m, q.from[|rows| - 1].on, Context(rows, q.outer)).None?
  }

  ghost predicate BreaksAfter(m: Machine, q: Query, tables: seq<Bound>, rows: seq<Bound>) {
    tables <= rows && Breaks(m, q, rows)
  }

  /** A scan fails exactly if there are such rows. */
  lemma ScanFailsIff(m: Machine, q: Query)
    ensures Accepted(m, q, false, []).None? <==> exists rows :: Breaks(m, q, rows)
  {
    FailsFrom(m, q, []);
    if rows :| Breaks(m, q, rows) {
      assert BreaksAfter(m, q, [], rows);
    }
  }

  lemma {:induction false} FailsFrom(m: Machine, q: Query, tables: seq<Bound>)
    requires Reached(m, q, tables)
    ensures Accepted(m, q, false, tables).None? <==> exists rows :: BreaksAfter(m, q, tables, rows)
    decreases |q.from| - |tables|, 2, 0
  {
    NotOn(m, q, tables);
    if |tables| == |q.from| {
      forall rows | BreaksAfter(m, q, tables, rows) ensures rows == tables {}
      assert Keeps(m, q.where, Context(tables, q.outer)).None? ==> BreaksAfter(m, q, tables, tables);
    } else {
      var entries := q.from[|tables|].rows;
      FailsOf(m, q, tables, entries);
      forall rows ensures BreaksAfter(m, q, tables, rows) <==> BreaksVia(m, q, tables, entries, rows) {
        ViaEntry(m, q, tables, rows);
      }
    }
  }

  lemma NotOn(m: Machine, q: Query, tables: seq<Bound>)
    requires Reached(m, q, tables)
    ensures !BreaksOn(m, q, tables)
  {
    if tables != [] {
      assert tables[..|tables| - 1 + 1] == tables;
    }
  }

  /** They go on after tables with one of the entries. */
  ghost predicate BreaksVia(m: Machine, q: Query, tables: seq<Bound>, entries: seq<Entry>, rows: seq<Bound>)
    requires |tables| < |q.from|
  {
    exists e :: e in entries && BreaksAfter(m, q, Extend(q, tables, e), rows)
  }

  lemma ViaEntry(m: Machine, q: Query, tables: seq<Bound>, rows: seq<Bound>)
    requires |tables| < |q.from| && !BreaksOn(m, q, tables)
    ensures BreaksAfter(m, q, tables, rows) <==> BreaksVia(m, q, tables, q.from[|tables|].rows, rows)
  {
    var n := |tables|;
    forall e | Extend(q, tables, e) <= rows ensures tables <= rows {
      assert rows[..n] == rows[..n + 1][..n];
    }
    if tables <= rows {
      if |rows| == n {
        assert rows == tables;
      } else {
        assert rows[..n + 1] == tables + [rows[n]];
        assert |rows| - 1 > n ==> rows[..|rows| - 1][n] == rows[n];
        if e :| e in q.from[n].rows && rows[n] == Bound(q.from[n].schema, e.row) {
          assert Extend(q, tables, e) <= rows;
        }
      }
    }
  }

  lemma {:induction false} FailsOf(m: Machine, q: Query, tables: seq<Bound>, entries: seq<Entry>)
    requires Reached(m, q, tables) && |tables| < |q.from| && forall e :: e in entries ==> e in q.from[|tables|].rows
    ensures AcceptedOf(m, q, false, tables, entries).None? <==> exists rows :: BreaksVia(m, q, tables, entries, rows)
    decreases |q.from| - |tables|, 1, |entries|
  {
    if entries != [] {
      var front, e := entries[..|entries| - 1], entries[|entries| - 1];
      assert entries == front + [e];
      FailsOf(m, q, tables, front);
      FailsWith(m, q, tables, e);
      forall rows ensures BreaksVia(m, q, tables, entries, rows) <==>
        BreaksVia(m, q, tables, front, rows) || BreaksAfter(m, q, Extend(q, tables, e), rows) {}
    }
  }

  lemma {:induction false} FailsWith(m: Machine, q: Query, tables: seq<Bound>, e: Entry)
    requires Reached(m, q, tables) && |tables| < |q.from| && e in q.from[|tables|].rows
    ensures AcceptedWith(m, q, false, tables, e).None? <==> exists rows :: BreaksAfter(m, q, Extend(q, tables, e), rows)
    decreases |q.from| - |tables|, 0, 0
  {
    var n, next := |tables|, Extend(q, tables, e);
    var kept := Keeps(m, q.from[n].on, Context(next, q.outer));
    assert next[..n] == tables && next[..n + 1] == next && RowOf(q, n, next[n]);
    if kept.None? {
      assert BreaksAfter(m, q, next, next);
    } else if kept.value {
      ReachedNext(m, q, tables, next);
      FailsFrom(m, q, next);
    } else {
      forall rows ensures !BreaksAfter(m, q, next, rows) {
        NotPast(m, q, next, rows);
      }
    }
  }

  lemma ReachedNext(m: Machine, q: Query, tables: seq<Bound>, next: seq<Bound>)
    requires Reached(m, q, tables) && |next| == |tables| + 1 <= |q.from| && next[..|tables|] == tables
    requires RowOf(q, |tables|, next[|tables|]) && Keeps(m, q.from[|tables|].on, Context(next, q.outer)) == Some(true)
    ensures Reached(m, q, next)
  {
    assert next[..|tables| + 1] == next;
    forall l | 0 <= l < |tables| ensures next[..l + 1] == tables[..l + 1] && next[l] == tables[l] {}
  }

  /** Where a row does not meet its ON condition nothing more is evaluated. */
  lemma NotPast(m: Machine, q: Query, next: seq<Bound>, rows: seq<Bound>)
    requires next != [] && |next| <= |q.from| && Keeps(m, q.from[|next| - 1].on, Context(next, q.outer)) == Some(false)
    ensures !BreaksAfter(m, q, next, rows)
  {
    if next <= rows {
      var n := |next| - 1;
      assert rows[..n + 1] == next;
      if |rows| > n + 1 {
        assert rows[..|rows| - 1][..n + 1] == next;
      } else {
        assert rows == next;
      }
    }
  }

  /** So does the plan with index probes, under the hypotheses of Probes.dfy. */
  lemma PlanSelects(m: Machine, q: Query, combination: seq<Bound>)
    requires Probes.WellFormed(q) && Probes.ProbesFit(m, q, []) && Accepted(m, q, false, []).Some?
    ensures Accepted(m, q, true, []).Some?
    ensures combination in Accepted(m, q, true, []).value <==> Qualifies(m, q, combination)
    ensures multiset(Accepted(m, q, true, []).value)[combination] == if Qualifies(m, q, combination) then Ways(q, combination, 0) else 0
  {
    Probes.ProbesAcceptWhatScansAccept(m, q);
    ScanSelects(m, q, combination);
    ScanCounts(m, q, combination);
    var plan, scan := Accepted(m, q, true, []).value, Accepted(m, q, false, []).value;
    assert combination in multiset(plan) <==> combination in plan;
    assert combination in multiset(scan) <==> combination in scan;
  }

  // ---------- which index ----------

  /** The plan of a level is the first conjunct of its condition, WHERE for the first table and
      ON for the others, that an index of the table serves with a value of the tables before. */
  lemma PlanMeans(q: Query, l: nat)
    requires l < |q.from|
    ensures var cond, plan := if l == 0 then q.where else q.from[l].on, Plan(q, l);
            && |Indexed(q.from[l])| == |q.from[l].indexes|
            && (forall i :: 0 <= i < |q.from[l].indexes| ==> Indexed(q.from[l])[i] == q.from[l].indexes[i].column)
            && (forall k :: 0 <= k < l ==> SchemasBefore(q, l)[k] == q.from[k].schema)
            && if cond.None? then plan.None?
               else Meanings.FirstUsable(Meanings.Conjuncts(cond.value), q.from[l].schema, Indexed(q.from[l]), SchemasBefore(q, l), plan)
  {
    var cond := if l == 0 then q.where else q.from[l].on;
    if cond.Some? {
      Meanings.ProbeFoundIff(cond.value, q.from[l].schema, Indexed(q.from[l]), SchemasBefore(q, l));
    }
  }
}
