/** Streaming GROUP BY (src/executor.c:650-679 and 719-769): each accepted row is folded
    into the first group whose key compares equal, or starts a new group. */
module Groups {
  import opened Pages
  import opened Values
  import opened Expressions
  import Queries

  /** An aggregate call; star is COUNT of all rows. */
  datatype Aggregate = Aggregate(fn: FuncKind, star: bool, arg: Expr)

  datatype AggState = AggState(count: nat, sum: Bits64, any: bool, minv: Value, maxv: Value)

  const START := AggState(0, 0, false, Null, Null)

  datatype Group = Group(key: seq<Value>, states: seq<AggState>)

  /** An accepted row: its GROUP BY values and the argument of each aggregate. */
  datatype Item = Item(key: seq<Value>, args: seq<Value>)

  // ---------- aggregates ----------

  /** agg_update on a value; plus is the addition of doubles. */
  function AggStep(m: Machine, plus: (Bits64, Value) -> Bits64, agg: Aggregate, st: AggState, v: Value): AggState {
    if agg.fn == Count then if agg.star || !v.Null? then st.(count := st.count + 1) else st
    else if v.Null? then st
    else match agg.fn
      case Sum => st.(sum := plus(st.sum, v), any := true)
      case Avg => st.(sum := plus(st.sum, v), count := st.count + 1, any := true)
      case Min => st.(minv := if !st.any || Below(m, v, st.minv) then v else st.minv, any := true)
      case _ => st.(maxv := if !st.any || Over(m, v, st.maxv) then v else st.maxv, any := true)
  }

  /** value_compare says less. */
  predicate Below(m: Machine, a: Value, b: Value) {
    Compare(m, a, b) < 0
  }

  /** value_compare says greater. */
  predicate Over(m: Machine, a: Value, b: Value) {
    Compare(m, a, b) > 0
  }

  function Fold(m: Machine, plus: (Bits64, Value) -> Bits64, agg: Aggregate, vals: seq<Value>): AggState {
    if vals == [] then START
    else AggStep(m, plus, agg, Fold(m, plus, agg, vals[..|vals| - 1]), vals[|vals| - 1])
  }

  function NonNull(vals: seq<Value>): nat {
    if vals == [] then 0 else NonNull(vals[..|vals| - 1]) + if vals[|vals| - 1].Null? then 0 else 1
  }

  predicate IsNumber(v: Value) {
    v.Real? ==> !IsNan(v.bits)
  }

  /** Values of one type, or NULL, none a NaN. */
  ghost predicate OneKind(vals: set<Value>) {
    forall a, b :: a in vals && b in vals ==> Comparable(a, b) && IsNumber(a)
  }

  lemma CompareFlips(a: Value, b: Value)
    requires Comparable(a, b)
    ensures ValueCompare(b, a) == -ValueCompare(a, b)
  {
    if a.Text? && b.Text? {
      ByteCompareFlips(a.text, b.text);
    }
  }

  lemma CompareTransitive(a: Value, b: Value, c: Value)
    requires Comparable(a, b) && Comparable(b, c) && Comparable(a, c) && IsNumber(a) && IsNumber(b) && IsNumber(c)
    requires ValueCompare(a, b) <= 0 && ValueCompare(b, c) <= 0
    ensures ValueCompare(a, c) <= 0
  {
    if a.Text? && b.Text? && c.Text? {
      ByteCompareTransitive(a.text, b.text, c.text);
    }
  }

  /** COUNT(arg) counts the values that are not NULL, COUNT(*) all. */
  lemma {:induction false} CountCounts(m: Machine, plus: (Bits64, Value) -> Bits64, agg: Aggregate, vals: seq<Value>)
    requires agg.fn == Count
    ensures Fold(m, plus, agg, vals).count == if agg.star then |vals| else NonNull(vals)
  {
    if vals != [] {
      CountCounts(m, plus, agg, vals[..|vals| - 1]);
    }
  }

  /** The values that are not NULL. */
  function Present(vals: seq<Value>): seq<Value> {
    if vals == [] then []
    else Present(vals[..|vals| - 1]) + if vals[|vals| - 1].Null? then [] else [vals[|vals| - 1]]
  }

  /** Positive zero and all values, added in turn. */
  function SumOf(plus: (Bits64, Value) -> Bits64, vals: seq<Value>): Bits64 {
    if vals == [] then 0 else plus(SumOf(plus, vals[..|vals| - 1]), vals[|vals| - 1])
  }

  /** SUM and AVG add each value that is not NULL once, in order; AVG counts them. */
  lemma {:induction false} SumAdds(m: Machine, plus: (Bits64, Value) -> Bits64, agg: Aggregate, vals: seq<Value>)
    requires agg.fn in {Sum, Avg}
    ensures var st := Fold(m, plus, agg, vals);
            && st.sum == SumOf(plus, Present(vals)) && (st.any <==> exists v :: v in vals && !v.Null?)
            && (agg.fn == Avg ==> st.count == NonNull(vals))
  {
    if vals != [] {
      var front, last := vals[..|vals| - 1], vals[|vals| - 1];
      assert vals == front + [last];
      SumAdds(m, plus, agg, front);
      var before := Present(front);
      if last.Null? {
        assert Present(vals) == before;
      } else {
        assert Present(vals) == before + [last] && (before + [last])[..|before|] == before;
      }
    }
  }

  lemma {:induction false} PresentCounts(vals: seq<Value>)
    ensures |Present(vals)| == NonNull(vals) && forall v :: v in Present(vals) <==> v in vals && !v.Null?
  {
    if vals != [] {
      var front, last := vals[..|vals| - 1], vals[|vals| - 1];
      assert vals == front + [last];
      PresentCounts(front);
    }
  }

  /** agg_finalize; over divides a sum by a count. */
  function Finalize(over: (Bits64, nat) -> Bits64, fn: FuncKind, st: AggState): Value
    requires st.count < TWO63
  {
    match fn
    case Count => Int(st.count)
    case Sum => if st.any then Real(st.sum) else Null
    case Avg => if st.count > 0 then Real(over(st.sum, st.count)) else Null
    case Min => if st.any then st.minv else Null
    case Max => if st.any then st.maxv else Null
  }

  /** The result of an aggregate over the values of its rows: COUNT their number without the
      NULLs, or the number of rows; the others NULL if no value is left, else the sum, the sum
      over the number, or a value that none is below or above. */
  ghost predicate IsAggregate(plus: (Bits64, Value) -> Bits64, over: (Bits64, nat) -> Bits64, agg: Aggregate, vals: seq<Value>, v: Value) {
    var rest := Present(vals);
    match agg.fn
    case Count => v.Int? && v.i == if agg.star then |vals| else |rest|
    case Sum => v == if rest == [] then Null else Real(SumOf(plus, rest))
    case Avg => v == if rest == [] then Null else Real(over(SumOf(plus, rest), |rest|))
    case Min => if rest == [] then v.Null? else v in rest && forall w :: w in rest ==> !Less(w, v)
    case Max => if rest == [] then v.Null? else v in rest && forall w :: w in rest ==> !Less(v, w)
  }

  /** MIN is a value of the group no other is below, and there is one exactly when some
      value is not NULL. */
  lemma {:induction false} MinIsLeast(m: Machine, plus: (Bits64, Value) -> Bits64, agg: Aggregate, vals: seq<Value>)
    requires agg.fn == Min && OneKind(Elements(vals))
    ensures var st := Fold(m, plus, agg, vals);
            && (st.any <==> exists v :: v in vals && !v.Null?)
            && (st.any ==> st.minv in vals && !st.minv.Null?)
            && forall v :: v in vals && !v.Null? ==> Comparable(st.minv, v) && ValueCompare(st.minv, v) <= 0
  {
    if vals != [] {
      var front, last := vals[..|vals| - 1], vals[|vals| - 1];
      assert vals == front + [last];
      assert forall v :: v in front ==> v in Elements(vals);
      assert last in Elements(vals);
      MinIsLeast(m, plus, agg, front);
      var least := Fold(m, plus, agg, front);
      if !last.Null? {
        CompareFlips(last, last);
        if least.any && Below(m, last, least.minv) {
          forall v | v in front && !v.Null? ensures ValueCompare(last, v) <= 0 {
            CompareTransitive(last, least.minv, v);
          }
        } else if least.any {
          CompareFlips(last, least.minv);
        }
      }
    }
  }

  /** MAX likewise. */
  lemma {:induction false} MaxIsGreatest(m: Machine, plus: (Bits64, Value) -> Bits64, agg: Aggregate, vals: seq<Value>)
    requires agg.fn == Max && OneKind(Elements(vals))
    ensures var st := Fold(m, plus, agg, vals);
            && (st.any <==> exists v :: v in vals && !v.Null?)
            && (st.any ==> st.maxv in vals && !st.maxv.Null?)
            && forall v :: v in vals && !v.Null? ==> Comparable(v, st.maxv) && ValueCompare(v, st.maxv) <= 0
  {
    if vals != [] {
      var front, last := vals[..|vals| - 1], vals[|vals| - 1];
      assert vals == front + [last];
      assert forall v :: v in front ==> v in Elements(vals);
      assert last in Elements(vals);
      MaxIsGreatest(m, plus, agg, front);
      var greatest := Fold(m, plus, agg, front);
      if !last.Null? {
        CompareFlips(last, last);
        if greatest.any {
          CompareFlips(greatest.maxv, last);
          if Over(m, last, greatest.maxv) {
            forall v | v in front && !v.Null? ensures ValueCompare(v, last) <= 0 {
              CompareTransitive(v, greatest.maxv, last);
            }
          }
        }
      }
    }
  }

  /** What agg_update and agg_finalize compute; for MIN and MAX of values of one type. */
  lemma AggregateMeans(m: Machine, plus: (Bits64, Value) -> Bits64, over: (Bits64, nat) -> Bits64, agg: Aggregate, vals: seq<Value>)
    requires |vals| < TWO63 && (agg.fn in {Min, Max} ==> OneKind(Elements(vals)))
    ensures Fold(m, plus, agg, vals).count <= |vals|
    ensures IsAggregate(plus, over, agg, vals, Finalize(over, agg.fn, Fold(m, plus, agg, vals)))
  {
    PresentCounts(vals);
    EmptyOrHasOne(Present(vals));
    CountAtMost(m, plus, agg, vals);
    match agg.fn
    case Count => CountCounts(m, plus, agg, vals);
    case Min =>
      MinIsLeast(m, plus, agg, vals);
      var least := Fold(m, plus, agg, vals).minv;
      forall w | w in Present(vals) ensures !Less(w, least) {
        CompareMeans(least, w);
      }
    case Max =>
      MaxIsGreatest(m, plus, agg, vals);
      var greatest := Fold(m, plus, agg, vals).maxv;
      forall w | w in Present(vals) ensures !Less(greatest, w) {
        CompareMeans(w, greatest);
      }
    case _ => SumAdds(m, plus, agg, vals);
  }

  lemma {:induction false} CountAtMost(m: Machine, plus: (Bits64, Value) -> Bits64, agg: Aggregate, vals: seq<Value>)
    ensures Fold(m, plus, agg, vals).count <= |vals| && NonNull(vals) <= |vals|
  {
    if vals != [] {
      CountAtMost(m, plus, agg, vals[..|vals| - 1]);
    }
  }

  // ---------- grouping ----------

  /** The key comparison of group_row. */
  predicate SameKey(m: Machine, a: seq<Value>, b: seq<Value>) {
    |a| == |b| && forall k :: 0 <= k < |a| ==> Compare(m, a[k], b[k]) == 0
  }

  function FirstMatch(m: Machine, groups: seq<Group>, key: seq<Value>): (i: nat)
    ensures i <= |groups|
    ensures i < |groups| ==> SameKey(m, key, groups[i].key)
    ensures forall j :: 0 <= j < i ==> !SameKey(m, key, groups[j].key)
  {
    if groups == [] || SameKey(m, key, groups[0].key) then 0 else 1 + FirstMatch(m, groups[1..], key)
  }

  function StepAll(m: Machine, plus: (Bits64, Value) -> Bits64, aggs: seq<Aggregate>, states: seq<AggState>, args: seq<Value>): (r: seq<AggState>)
    requires |states| == |args| == |aggs|
    ensures |r| == |aggs|
  {
    seq(|aggs|, i requires 0 <= i < |aggs| => AggStep(m, plus, aggs[i], states[i], args[i]))
  }

  function Starts(n: nat): (s: seq<AggState>)
    ensures |s| == n
  {
    seq(n, _ => START)
  }

  predicate Sized(aggs: seq<Aggregate>, groups: seq<Group>) {
    forall i :: 0 <= i < |groups| ==> |groups[i].states| == |aggs|
  }

  /** What group_row makes of the groups. */
  function AddRow(m: Machine, plus: (Bits64, Value) -> Bits64, aggs: seq<Aggregate>, groups: seq<Group>, item: Item): (r: seq<Group>)
    requires Sized(aggs, groups) && |item.args| == |aggs|
    ensures Sized(aggs, r)
  {
    var i := FirstMatch(m, groups, item.key);
    if i < |groups| then groups[i := groups[i].(states := StepAll(m, plus, aggs, groups[i].states, item.args))]
    else groups + [Group(item.key, StepAll(m, plus, aggs, Starts(|aggs|), item.args))]
  }

  predicate Items(aggs: seq<Aggregate>, items: seq<Item>) {
    forall i :: 0 <= i < |items| ==> |items[i].args| == |aggs|
  }

  function Stream(m: Machine, plus: (Bits64, Value) -> Bits64, aggs: seq<Aggregate>, items: seq<Item>): (r: seq<Group>)
    requires Items(aggs, items)
    ensures Sized(aggs, r)
  {
    if items == [] then []
    else AddRow(m, plus, aggs, Stream(m, plus, aggs, items[..|items| - 1]), items[|items| - 1])
  }

  /** The rows of one group, in order. */
  function Members(m: Machine, items: seq<Item>, key: seq<Value>): (r: seq<Item>)
    ensures forall x :: x in r <==> x in items && SameKey(m, x.key, key)
  {
    if items == [] then []
    else
      var last := items[|items| - 1];
      assert items == items[..|items| - 1] + [last];
      Members(m, items[..|items| - 1], key) + if SameKey(m, last.key, key) then [last] else []
  }

  function ArgsAt(items: seq<Item>, a: nat): (r: seq<Value>)
    requires forall i :: 0 <= i < |items| ==> a < |items[i].args|
    ensures |r| == |items|
  {
    seq(|items|, i requires 0 <= i < |items| => items[i].args[a])
  }

  /** The states of a partition class: each aggregate folded over the class. */
  ghost predicate FoldedOver(m: Machine, plus: (Bits64, Value) -> Bits64, aggs: seq<Aggregate>, states: seq<AggState>, items: seq<Item>)
    requires Items(aggs, items)
  {
    |states| == |aggs| && forall a :: 0 <= a < |aggs| ==> states[a] == Fold(m, plus, aggs[a], ArgsAt(items, a))
  }

  /** Each key position holds values of one type or NULL, none a NaN. */
  ghost predicate Regular(items: seq<Item>, width: nat) {
    forall x, y :: x in items && y in items ==> AlikeKeys(x, y, width)
  }

  ghost predicate AlikeKeys(x: Item, y: Item, width: nat) {
    && |x.key| == |y.key| == width
    && forall k :: 0 <= k < width ==> Comparable(x.key[k], y.key[k]) && IsNumber(x.key[k]) && IsNumber(y.key[k])
  }

  lemma SameKeyFlips(m: Machine, x: Item, y: Item, width: nat)
    requires AlikeKeys(x, y, width) && SameKey(m, x.key, y.key)
    ensures SameKey(m, y.key, x.key)
  {
    forall k | 0 <= k < width ensures Compare(m, y.key[k], x.key[k]) == 0 {
      CompareFlips(x.key[k], y.key[k]);
    }
  }

  lemma SameKeyTransitive(m: Machine, x: Item, y: Item, z: Item, width: nat)
    requires AlikeKeys(x, y, width) && AlikeKeys(y, z, width) && AlikeKeys(x, z, width)
    requires SameKey(m, x.key, y.key) && SameKey(m, y.key, z.key)
    ensures SameKey(m, x.key, z.key)
  {
    forall k | 0 <= k < width ensures Compare(m, x.key[k], z.key[k]) == 0 {
      CompareTransitive(x.key[k], y.key[k], z.key[k]);
      CompareFlips(x.key[k], y.key[k]);
      CompareFlips(y.key[k], z.key[k]);
      CompareFlips(x.key[k], z.key[k]);
      CompareTransitive(z.key[k], y.key[k], x.key[k]);
    }
  }

  lemma SameKeyReflexive(m: Machine, x: Item, width: nat)
    requires AlikeKeys(x, x, width)
    ensures SameKey(m, x.key, x.key)
  {
    forall k | 0 <= k < width ensures Compare(m, x.key[k], x.key[k]) == 0 {
      CompareFlips(x.key[k], x.key[k]);
    }
  }

  /** Partition, then fold: the groups have different keys, each has the key of its first
      row, every row belongs to a group, and each group's states are the aggregates folded
      over its rows. */
  ghost predicate Partitioned(m: Machine, plus: (Bits64, Value) -> Bits64, aggs: seq<Aggregate>, items: seq<Item>, groups: seq<Group>)
    requires Items(aggs, items)
  {
    && (forall i, j :: 0 <= i < j < |groups| ==> !SameKey(m, groups[i].key, groups[j].key) && !SameKey(m, groups[j].key, groups[i].key))
    && (forall x :: x in items ==> exists i :: 0 <= i < |groups| && SameKey(m, x.key, groups[i].key))
    && forall i :: 0 <= i < |groups| ==> IsClass(m, plus, aggs, items, groups[i])
  }

  ghost predicate IsClass(m: Machine, plus: (Bits64, Value) -> Bits64, aggs: seq<Aggregate>, items: seq<Item>, g: Group)
    requires Items(aggs, items)
  {
    var rows := Members(m, items, g.key);
    rows != [] && rows[0].key == g.key && Items(aggs, rows) && FoldedOver(m, plus, aggs, g.states, rows)
  }

  lemma FoldStep(m: Machine, plus: (Bits64, Value) -> Bits64, aggs: seq<Aggregate>, states: seq<AggState>, items: seq<Item>, x: Item)
    requires Items(aggs, items) && |x.args| == |aggs| && FoldedOver(m, plus, aggs, states, items)
    ensures Items(aggs, items + [x]) && FoldedOver(m, plus, aggs, StepAll(m, plus, aggs, states, x.args), items + [x])
  {
    forall a | 0 <= a < |aggs| ensures StepAll(m, plus, aggs, states, x.args)[a] == Fold(m, plus, aggs[a], ArgsAt(items + [x], a)) {
      var vals := ArgsAt(items + [x], a);
      assert vals[..|vals| - 1] == ArgsAt(items, a) && vals[|vals| - 1] == x.args[a];
    }
  }

  /** Where keys are regular, streaming gives what partition-then-fold gives. */
  lemma {:induction false} StreamPartitions(m: Machine, plus: (Bits64, Value) -> Bits64, aggs: seq<Aggregate>, items: seq<Item>, width: nat)
    requires Items(aggs, items) && Regular(items, width)
    ensures Partitioned(m, plus, aggs, items, Stream(m, plus, aggs, items))
  {
    if items == [] {
      assert Stream(m, plus, aggs, items) == [];
    } else {
      var front, x := items[..|items| - 1], items[|items| - 1];
      var groups := Stream(m, plus, aggs, front);
      assert items == front + [x] && Stream(m, plus, aggs, items) == AddRow(m, plus, aggs, groups, x);
      assert Partitioned(m, plus, aggs, front, groups) by {
        StreamPartitions(m, plus, aggs, front, width);
      }
      AddPartitions(m, plus, aggs, front, groups, x, width);
    }
  }

  lemma AddPartitions(m: Machine, plus: (Bits64, Value) -> Bits64, aggs: seq<Aggregate>, items: seq<Item>, groups: seq<Group>, x: Item, width: nat)
    requires Items(aggs, items) && |x.args| == |aggs| && Regular(items + [x], width)
    requires Sized(aggs, groups) && Partitioned(m, plus, aggs, items, groups)
    ensures Items(aggs, items + [x]) && Partitioned(m, plus, aggs, items + [x], AddRow(m, plus, aggs, groups, x))
  {
    var after := AddRow(m, plus, aggs, groups, x);
    assert x in items + [x];
    SameKeyReflexive(m, x, width);
    forall i | 0 <= i < |groups| && SameKey(m, groups[i].key, x.key) ensures SameKey(m, x.key, groups[i].key) {
      var y := KeyHasRow(m, plus, aggs, items, groups[i]);
      assert y in items + [x];
      SameKeyFlips(m, y, x, width);
    }
    AddKeepsKeys(m, plus, aggs, groups, x);
    AddCovers(m, items, groups, x, after);
    var n := FirstMatch(m, groups, x.key);
    if n < |groups| {
      MatchIsUnique(m, plus, aggs, items, groups, x, width, n);
    } else {
      NoneBefore(m, plus, aggs, items, groups, x, width);
    }
    AddClasses(m, plus, aggs, items, groups, x);
  }

  /** The classes after the new row, which matches one group at most. */
  lemma AddClasses(m: Machine, plus: (Bits64, Value) -> Bits64, aggs: seq<Aggregate>, items: seq<Item>, groups: seq<Group>, x: Item)
    requires Items(aggs, items) && |x.args| == |aggs| && Sized(aggs, groups) && SameKey(m, x.key, x.key)
    requires forall i :: 0 <= i < |groups| ==> IsClass(m, plus, aggs, items, groups[i])
    requires var n := FirstMatch(m, groups, x.key);
             && (forall i :: 0 <= i < |groups| && i != n ==> !SameKey(m, x.key, groups[i].key))
             && (n == |groups| ==> Members(m, items, x.key) == [])
    ensures Items(aggs, items + [x])
    ensures forall g :: g in AddRow(m, plus, aggs, groups, x) ==> IsClass(m, plus, aggs, items + [x], g)
  {
    var n, after := FirstMatch(m, groups, x.key), AddRow(m, plus, aggs, groups, x);
    forall i | 0 <= i < |after| ensures IsClass(m, plus, aggs, items + [x], after[i]) {
      if i < |groups| {
        ClassAfter(m, plus, aggs, items, groups[i], x);
      } else {
        NewClass(m, plus, aggs, items, x);
      }
    }
  }

  /** Every row still has its group. */
  lemma {:induction false} AddCovers(m: Machine, items: seq<Item>, groups: seq<Group>, x: Item, after: seq<Group>)
    requires forall y :: y in items ==> exists i :: 0 <= i < |groups| && SameKey(m, y.key, groups[i].key)
    requires |groups| <= |after| && forall i :: 0 <= i < |groups| ==> after[i].key == groups[i].key
    requires var n := FirstMatch(m, groups, x.key); n < |after| && SameKey(m, x.key, after[n].key)
    ensures forall y :: y in items + [x] ==> exists i :: 0 <= i < |after| && SameKey(m, y.key, after[i].key)
  {
    forall y | y in items + [x] ensures exists i :: 0 <= i < |after| && SameKey(m, y.key, after[i].key) {
      if y in items {
        var i :| 0 <= i < |groups| && SameKey(m, y.key, groups[i].key);
        assert SameKey(m, y.key, after[i].key);
      } else {
        assert SameKey(m, y.key, after[FirstMatch(m, groups, x.key)].key);
      }
    }
  }

  /** Old groups keep their keys and the new one has a new key. */
  lemma AddKeepsKeys(m: Machine, plus: (Bits64, Value) -> Bits64, aggs: seq<Aggregate>, groups: seq<Group>, x: Item)
    requires Sized(aggs, groups) && |x.args| == |aggs|
    requires forall i, j :: 0 <= i < j < |groups| ==> !SameKey(m, groups[i].key, groups[j].key) && !SameKey(m, groups[j].key, groups[i].key)
    requires forall i :: 0 <= i < |groups| && SameKey(m, groups[i].key, x.key) ==> SameKey(m, x.key, groups[i].key)
    ensures var after := AddRow(m, plus, aggs, groups, x);
            && |groups| <= |after|
            && (forall i :: 0 <= i < |groups| ==> after[i].key == groups[i].key)
            && forall i, j :: 0 <= i < j < |after| ==> !SameKey(m, after[i].key, after[j].key) && !SameKey(m, after[j].key, after[i].key)
  {}

  lemma NewClass(m: Machine, plus: (Bits64, Value) -> Bits64, aggs: seq<Aggregate>, items: seq<Item>, x: Item)
    requires Items(aggs, items) && |x.args| == |aggs| && SameKey(m, x.key, x.key) && Members(m, items, x.key) == []
    ensures Items(aggs, items + [x]) && IsClass(m, plus, aggs, items + [x], Group(x.key, StepAll(m, plus, aggs, Starts(|aggs|), x.args)))
  {
    FoldStep(m, plus, aggs, Starts(|aggs|), [], x);
    assert (items + [x])[..|items|] == items;
    assert Members(m, items + [x], x.key) == [] + [x];
  }

  /** A group with the new row in or out. */
  lemma ClassAfter(m: Machine, plus: (Bits64, Value) -> Bits64, aggs: seq<Aggregate>, items: seq<Item>, g: Group, x: Item)
    requires Items(aggs, items) && |x.args| == |aggs| && |g.states| == |aggs| && IsClass(m, plus, aggs, items, g)
    ensures Items(aggs, items + [x])
    ensures IsClass(m, plus, aggs, items + [x],
                    if SameKey(m, x.key, g.key) then g.(states := StepAll(m, plus, aggs, g.states, x.args)) else g)
  {
    var rows := Members(m, items, g.key);
    assert (items + [x])[..|items|] == items;
    if SameKey(m, x.key, g.key) {
      FoldStep(m, plus, aggs, g.states, rows, x);
    } else {
      assert Members(m, items + [x], g.key) == rows + [] == rows;
    }
  }

  /** A group's key is the key of one of its rows. */
  lemma KeyHasRow(m: Machine, plus: (Bits64, Value) -> Bits64, aggs: seq<Aggregate>, items: seq<Item>, g: Group) returns (y: Item)
    requires Items(aggs, items) && IsClass(m, plus, aggs, items, g)
    ensures y in items && y.key == g.key
  {
    y := Members(m, items, g.key)[0];
    assert y in Members(m, items, g.key);
  }

  lemma MatchIsUnique(m: Machine, plus: (Bits64, Value) -> Bits64, aggs: seq<Aggregate>, items: seq<Item>, groups: seq<Group>, x: Item, width: nat, n: nat)
    requires Items(aggs, items) && Regular(items + [x], width) && Partitioned(m, plus, aggs, items, groups)
    requires n < |groups| && SameKey(m, x.key, groups[n].key)
    ensures forall i :: 0 <= i < |groups| && i != n ==> !SameKey(m, x.key, groups[i].key)
  {
    assert x in items + [x];
    forall i | 0 <= i < |groups| && i != n && SameKey(m, x.key, groups[i].key) ensures false {
      var y := KeyHasRow(m, plus, aggs, items, groups[n]);
      var z := KeyHasRow(m, plus, aggs, items, groups[i]);
      SameKeyFlips(m, x, y, width);
      SameKeyTransitive(m, y, x, z, width);
    }
  }

  lemma NoneBefore(m: Machine, plus: (Bits64, Value) -> Bits64, aggs: seq<Aggregate>, items: seq<Item>, groups: seq<Group>, x: Item, width: nat)
    requires Items(aggs, items) && Regular(items + [x], width) && Partitioned(m, plus, aggs, items, groups)
    requires forall i :: 0 <= i < |groups| ==> !SameKey(m, x.key, groups[i].key)
    ensures Members(m, items, x.key) == []
  {
    assert x in items + [x];
    if Members(m, items, x.key) != [] {
      var y := Members(m, items, x.key)[0];
      assert y in Members(m, items, x.key);
      var i :| 0 <= i < |groups| && SameKey(m, y.key, groups[i].key);
      var z := KeyHasRow(m, plus, aggs, items, groups[i]);
      SameKeyFlips(m, y, x, width);
      SameKeyTransitive(m, x, y, z, width);
    }
  }

  // ---------- every row counts once ----------

  function CountSum(groups: seq<Group>, a: nat): nat
    requires forall i :: 0 <= i < |groups| ==> a < |groups[i].states|
  {
    if groups == [] then 0 else CountSum(groups[..|groups| - 1], a) + groups[|groups| - 1].states[a].count
  }

  lemma {:induction false} CountSumUpdate(groups: seq<Group>, a: nat, n: nat, g: Group)
    requires n < |groups| && a < |g.states| && forall i :: 0 <= i < |groups| ==> a < |groups[i].states|
    ensures CountSum(groups[n := g], a) + groups[n].states[a].count == CountSum(groups, a) + g.states[a].count
  {
    var front := groups[..|groups| - 1];
    if n < |front| {
      assert groups[n := g][..|groups| - 1] == front[n := g];
      CountSumUpdate(front, a, n, g);
    } else {
      assert groups[n := g][..|groups| - 1] == front;
    }
  }

  /** Whatever the keys, each accepted row is folded into exactly one group: the groups'
      COUNT(*) add up to the number of rows. */
  lemma {:induction false} CountsAddUp(m: Machine, plus: (Bits64, Value) -> Bits64, aggs: seq<Aggregate>, items: seq<Item>, a: nat)
    requires Items(aggs, items) && a < |aggs| && aggs[a].fn == Count && aggs[a].star
    ensures CountSum(Stream(m, plus, aggs, items), a) == |items|
  {
    if items != [] {
      var front, x := items[..|items| - 1], items[|items| - 1];
      CountsAddUp(m, plus, aggs, front, a);
      var groups := Stream(m, plus, aggs, front);
      var n := FirstMatch(m, groups, x.key);
      if n < |groups| {
        CountSumUpdate(groups, a, n, groups[n].(states := StepAll(m, plus, aggs, groups[n].states, x.args)));
      } else {
        assert AddRow(m, plus, aggs, groups, x)[..|groups|] == groups;
      }
    }
  }

  /** The results of a partition: each aggregate of its class. */
  lemma GroupResults(m: Machine, plus: (Bits64, Value) -> Bits64, over: (Bits64, nat) -> Bits64, aggs: seq<Aggregate>,
                     items: seq<Item>, groups: seq<Group>, i: nat, a: nat)
    requires Items(aggs, items) && |items| < TWO63 && Partitioned(m, plus, aggs, items, groups) && i < |groups| && a < |aggs|
    requires var rows := Members(m, items, groups[i].key);
             Items(aggs, rows) ==> aggs[a].fn in {Min, Max} ==> OneKind(Elements(ArgsAt(rows, a)))
    ensures var rows := Members(m, items, groups[i].key);
            && Items(aggs, rows) && |groups[i].states| == |aggs| && groups[i].states[a].count < TWO63
            && IsAggregate(plus, over, aggs[a], ArgsAt(rows, a), Finalize(over, aggs[a].fn, groups[i].states[a]))
  {
    var rows := Members(m, items, groups[i].key);
    assert IsClass(m, plus, aggs, items, groups[i]);
    MembersAtMost(m, items, groups[i].key);
    AggregateMeans(m, plus, over, aggs[a], ArgsAt(rows, a));
  }

  lemma {:induction false} MembersAtMost(m: Machine, items: seq<Item>, key: seq<Value>)
    ensures |Members(m, items, key)| <= |items|
  {
    if items != [] {
      MembersAtMost(m, items[..|items| - 1], key);
    }
  }

  // ---------- the order of the groups ----------

  function Keys(groups: seq<Group>): (keys: seq<seq<Value>>)
    ensures |keys| == |groups| && forall i :: 0 <= i < |keys| ==> keys[i] == groups[i].key
  {
    seq(|groups|, i requires 0 <= i < |groups| => groups[i].key)
  }

  /** The rows that founded the groups with these keys: each matched no group before it, and
      every row matches a group founded before it or founds one. */
  ghost predicate Founded(m: Machine, items: seq<Item>, keys: seq<seq<Value>>, firsts: seq<nat>) {
    && |firsts| == |keys| && (forall i, j :: 0 <= i < j < |firsts| ==> firsts[i] < firsts[j])
    && (forall i :: 0 <= i < |firsts| ==> firsts[i] < |items| && keys[i] == items[firsts[i]].key)
    && (forall i, j :: 0 <= i < j < |firsts| ==> !SameKey(m, keys[j], keys[i]))
    && forall p :: 0 <= p < |items| ==> Joins(m, items[p].key, keys, firsts, p)
  }

  ghost predicate Joins(m: Machine, key: seq<Value>, keys: seq<seq<Value>>, firsts: seq<nat>, p: nat)
    requires |firsts| == |keys|
  {
    exists i :: 0 <= i < |keys| && JoinsAt(m, key, keys[i], firsts[i], p)
  }

  ghost predicate JoinsAt(m: Machine, key: seq<Value>, other: seq<Value>, first: nat, p: nat) {
    first <= p && (first == p || SameKey(m, key, other))
  }

  /** Whatever the keys, the groups come in the order of the rows that founded them. */
  lemma {:induction false} GroupsInOrder(m: Machine, plus: (Bits64, Value) -> Bits64, aggs: seq<Aggregate>, items: seq<Item>) returns (firsts: seq<nat>)
    requires Items(aggs, items)
    ensures Founded(m, items, Keys(Stream(m, plus, aggs, items)), firsts)
  {
    hide AddRow, Founded, SameKey;
    firsts := [];
    if items == [] {
      NoneFounded(m);
    } else {
      var n := |items| - 1;
      var front, x := items[..n], items[n];
      firsts := GroupsInOrder(m, plus, aggs, front);
      var groups := Stream(m, plus, aggs, front);
      assert items == front + [x];
      KeysAfter(m, plus, aggs, groups, x);
      if FirstMatch(m, groups, x.key) == |groups| {
        FoundedNew(m, front, x, Keys(groups), firsts);
        firsts := firsts + [n];
      } else {
        FoundedStill(m, front, x, Keys(groups), firsts, FirstMatch(m, groups, x.key));
      }
    }
  }

  lemma NoneFounded(m: Machine)
    ensures Founded(m, [], [], [])
  {}

  lemma KeysAfter(m: Machine, plus: (Bits64, Value) -> Bits64, aggs: seq<Aggregate>, groups: seq<Group>, x: Item)
    requires Sized(aggs, groups) && |x.args| == |aggs|
    ensures Keys(AddRow(m, plus, aggs, groups, x)) == if FirstMatch(m, groups, x.key) < |groups| then Keys(groups) else Keys(groups) + [x.key]
  {}

  lemma FoundedStill(m: Machine, items: seq<Item>, x: Item, keys: seq<seq<Value>>, firsts: seq<nat>, found: nat)
    requires Founded(m, items, keys, firsts) && found < |keys| && SameKey(m, x.key, keys[found])
    ensures Founded(m, items + [x], keys, firsts)
  {
    assert JoinsAt(m, x.key, keys[found], firsts[found], |items|);
    hide SameKey, Joins;
  }

  lemma FoundedNew(m: Machine, items: seq<Item>, x: Item, keys: seq<seq<Value>>, firsts: seq<nat>)
    requires Founded(m, items, keys, firsts) && forall i :: 0 <= i < |keys| ==> !SameKey(m, x.key, keys[i])
    ensures Founded(m, items + [x], keys + [x.key], firsts + [|items|])
  {
    hide SameKey;
    var n, keys', firsts' := |items|, keys + [x.key], firsts + [|items|];
    forall p | 0 <= p < n ensures Joins(m, items[p].key, keys', firsts', p) {
      var i :| 0 <= i < |keys| && JoinsAt(m, items[p].key, keys[i], firsts[i], p);
      assert JoinsAt(m, items[p].key, keys'[i], firsts'[i], p);
    }
    assert JoinsAt(m, x.key, keys'[|keys|], firsts'[|keys|], n);
  }

  // ---------- group_row ----------

  /** The GROUP BY values of a row; None is an error. */
  function EvalAll(m: Machine, es: seq<Expr>, ctx: Context): (r: Option<seq<Value>>)
    ensures r.Some? ==> |r.value| == |es| && forall k :: 0 <= k < |es| ==> Eval(m, es[k], ctx) == Some(r.value[k])
    ensures r.None? ==> exists k :: 0 <= k < |es| && Eval(m, es[k], ctx).None?
  {
    if es == [] then Some([])
    else
      var before, v := EvalAll(m, es[..|es| - 1], ctx), Eval(m, es[|es| - 1], ctx);
      if before.None? || v.None? then None else Some(before.value + [v.value])
  }

  lemma {:induction false} EvalAllFails(m: Machine, es: seq<Expr>, ctx: Context, n: nat)
    requires n <= |es| && EvalAll(m, es[..n], ctx).None?
    ensures EvalAll(m, es, ctx).None?
    decreases |es| - n
  {
    if n < |es| {
      assert es[..n + 1][..n] == es[..n];
      EvalAllFails(m, es, ctx, n + 1);
    } else {
      assert es[..n] == es;
    }
  }

  /** The argument of an aggregate in a row; COUNT(*) has none. */
  function ArgOf(m: Machine, agg: Aggregate, ctx: Context): Option<Value> {
    if agg.fn == Count && agg.star then Some(Null) else Eval(m, agg.arg, ctx)
  }

  function ArgsOf(m: Machine, aggs: seq<Aggregate>, ctx: Context): (r: Option<seq<Value>>)
    ensures r.Some? ==> |r.value| == |aggs| && forall a :: 0 <= a < |aggs| ==> ArgOf(m, aggs[a], ctx) == Some(r.value[a])
    ensures r.None? ==> exists a :: 0 <= a < |aggs| && ArgOf(m, aggs[a], ctx).None?
  {
    if aggs == [] then Some([])
    else
      var before, v := ArgsOf(m, aggs[..|aggs| - 1], ctx), ArgOf(m, aggs[|aggs| - 1], ctx);
      if before.None? || v.None? then None else Some(before.value + [v.value])
  }

  /** An accepted row as an item; None is an error. */
  function ItemOf(m: Machine, groupby: seq<Expr>, aggs: seq<Aggregate>, ctx: Context): Option<Item> {
    var key, args := EvalAll(m, groupby, ctx), ArgsOf(m, aggs, ctx);
    if key.None? || args.None? then None else Some(Item(key.value, args.value))
  }

  function ItemsOf(m: Machine, groupby: seq<Expr>, aggs: seq<Aggregate>, rows: seq<seq<Bound>>, outer: Option<Context>): (r: Option<seq<Item>>)
    ensures r.Some? ==> |r.value| == |rows| && Items(aggs, r.value)
  {
    if rows == [] then Some([])
    else
      var before := ItemsOf(m, groupby, aggs, rows[..|rows| - 1], outer);
      var last := ItemOf(m, groupby, aggs, Context(rows[|rows| - 1], outer));
      if before.None? || last.None? then None else Some(before.value + [last.value])
  }

  /** Item i has the GROUP BY values and the arguments of row i. */
  ghost predicate Reads(m: Machine, groupby: seq<Expr>, aggs: seq<Aggregate>, item: Item, ctx: Context) {
    && |item.key| == |groupby| && |item.args| == |aggs|
    && (forall k :: 0 <= k < |groupby| ==> Eval(m, groupby[k], ctx) == Some(item.key[k]))
    && forall a :: 0 <= a < |aggs| && !(aggs[a].fn == Count && aggs[a].star) ==> Eval(m, aggs[a].arg, ctx) == Some(item.args[a])
  }

  lemma {:induction false} ItemsMean(m: Machine, groupby: seq<Expr>, aggs: seq<Aggregate>, rows: seq<seq<Bound>>, outer: Option<Context>)
    requires ItemsOf(m, groupby, aggs, rows, outer).Some?
    ensures forall i :: 0 <= i < |rows| ==> Reads(m, groupby, aggs, ItemsOf(m, groupby, aggs, rows, outer).value[i], Context(rows[i], outer))
  {
    hide Reads, ItemOf;
    if rows != [] {
      ItemsMean(m, groupby, aggs, rows[..|rows| - 1], outer);
      ItemMeans(m, groupby, aggs, Context(rows[|rows| - 1], outer));
    }
  }

  lemma ItemMeans(m: Machine, groupby: seq<Expr>, aggs: seq<Aggregate>, ctx: Context)
    requires ItemOf(m, groupby, aggs, ctx).Some?
    ensures Reads(m, groupby, aggs, ItemOf(m, groupby, aggs, ctx).value, ctx)
  {
    var args := ArgsOf(m, aggs, ctx).value;
    assert forall a :: 0 <= a < |aggs| ==> ArgOf(m, aggs[a], ctx) == Some(args[a]);
  }

  lemma {:induction false} ItemsFail(m: Machine, groupby: seq<Expr>, aggs: seq<Aggregate>, rows: seq<seq<Bound>>, outer: Option<Context>, n: nat)
    requires n <= |rows| && ItemsOf(m, groupby, aggs, rows[..n], outer).None?
    ensures ItemsOf(m, groupby, aggs, rows, outer).None?
    decreases |rows| - n
  {
    if n < |rows| {
      assert rows[..n + 1][..n] == rows[..n];
      ItemsFail(m, groupby, aggs, rows, outer, n + 1);
    } else {
      assert rows[..n] == rows;
    }
  }

  lemma ItemsStep(m: Machine, groupby: seq<Expr>, aggs: seq<Aggregate>, rows: seq<seq<Bound>>, outer: Option<Context>, n: nat)
    requires n < |rows| && ItemsOf(m, groupby, aggs, rows[..n], outer).Some?
    ensures var last := ItemOf(m, groupby, aggs, Context(rows[n], outer));
            ItemsOf(m, groupby, aggs, rows[..n + 1], outer)
            == if last.None? then None else Some(ItemsOf(m, groupby, aggs, rows[..n], outer).value + [last.value])
  {
    assert rows[..n + 1][..n] == rows[..n];
  }

  lemma StreamStep(m: Machine, plus: (Bits64, Value) -> Bits64, aggs: seq<Aggregate>, items: seq<Item>, x: Item)
    requires Items(aggs, items) && |x.args| == |aggs|
    ensures Items(aggs, items + [x]) && Stream(m, plus, aggs, items + [x]) == AddRow(m, plus, aggs, Stream(m, plus, aggs, items), x)
  {
    assert (items + [x])[..|items|] == items;
  }

  class Grouping {
    const m: Machine
    const plus: (Bits64, Value) -> Bits64
    const groupby: seq<Expr>
    const aggs: seq<Aggregate>
    var groups: seq<Group>

    constructor (m: Machine, plus: (Bits64, Value) -> Bits64, groupby: seq<Expr>, aggs: seq<Aggregate>)
      ensures this.m == m && this.plus == plus && this.groupby == groupby && this.aggs == aggs && groups == []
    {
      this.m, this.plus, this.groupby, this.aggs, groups := m, plus, groupby, aggs, [];
    }

    /** group_row; an error ends the query. */
    method GroupRow(ctx: Context) returns (ok: bool, ghost item: Item)
      requires Sized(aggs, groups)
      modifies this
      ensures ok <==> ItemOf(m, groupby, aggs, ctx).Some?
      ensures ok ==> ItemOf(m, groupby, aggs, ctx) == Some(item) && groups == AddRow(m, plus, aggs, old(groups), item)
    {
      item := Item([], []);
      var key := [];
      for i := 0 to |groupby|
        invariant EvalAll(m, groupby[..i], ctx) == Some(key)
      {
        assert groupby[..i + 1][..i] == groupby[..i];
        var v := Eval(m, groupby[i], ctx);
        if v.None? {
          EvalAllFails(m, groupby, ctx, i + 1);
          return false, item;
        }
        key := key + [v.value];
      }
      assert groupby[..|groupby|] == groupby;
      var n := FindGroup(key);
      if n == |groups| {
        groups := groups + [Group(key, Starts(|aggs|))];
      }
      ghost var args;
      ok, args := UpdateGroup(n, ctx);
      item := Item(key, args);
      assert ok ==> ArgsOf(m, aggs, ctx).Some? && ArgsOf(m, aggs, ctx).value == args;
    }

    /** The groups are those of these rows. */
    ghost predicate Grouped(rows: seq<seq<Bound>>, outer: Option<Context>)
      reads this
    {
      var items := ItemsOf(m, groupby, aggs, rows, outer);
      items.Some? && groups == Stream(m, plus, aggs, items.value)
    }

    /** The rows of a query, one after the other. */
    method GroupAll(rows: seq<seq<Bound>>, outer: Option<Context>) returns (ok: bool)
      requires groups == []
      modifies this
      ensures ok <==> ItemsOf(m, groupby, aggs, rows, outer).Some?
      ensures ok ==> Grouped(rows, outer)
    {
      for i := 0 to |rows|
        invariant Grouped(rows[..i], outer)
      {
        ok := GroupNext(rows, i, outer);
        if !ok {
          ItemsFail(m, groupby, aggs, rows, outer, i + 1);
          return;
        }
      }
      assert rows[..|rows|] == rows;
      ok := true;
    }

    method GroupNext(rows: seq<seq<Bound>>, i: nat, outer: Option<Context>) returns (ok: bool)
      requires i < |rows| && Grouped(rows[..i], outer)
      modifies this
      ensures ok <==> ItemsOf(m, groupby, aggs, rows[..i + 1], outer).Some?
      ensures ok ==> Grouped(rows[..i + 1], outer)
    {
      ghost var item;
      ItemsStep(m, groupby, aggs, rows, outer, i);
      ok, item := GroupRow(Context(rows[i], outer));
      if ok {
        StreamStep(m, plus, aggs, ItemsOf(m, groupby, aggs, rows[..i], outer).value, item);
      }
    }

    method FindGroup(key: seq<Value>) returns (n: nat)
      ensures n == FirstMatch(m, groups, key)
    {
      n := 0;
      while n < |groups| && !SameKey(m, key, groups[n].key)
        invariant n <= |groups| && FirstMatch(m, groups, key) == n + FirstMatch(m, groups[n..], key)
      {
        n := n + 1;
      }
    }

    /** The agg_update loop of group_row. */
    method UpdateGroup(n: nat, ctx: Context) returns (ok: bool, ghost args: seq<Value>)
      requires n < |groups| && |groups[n].states| == |aggs|
      modifies this
      ensures ok <==> forall a :: 0 <= a < |aggs| ==> ArgOf(m, aggs[a], ctx).Some?
      ensures ok ==> && |args| == |aggs| && (forall a :: 0 <= a < |aggs| ==> ArgOf(m, aggs[a], ctx) == Some(args[a]))
                     && groups == old(groups)[n := old(groups)[n].(states := StepAll(m, plus, aggs, old(groups)[n].states, args))]
    {
      args := [];
      var states := groups[n].states;
      for a := 0 to |aggs|
        invariant |args| == a && |states| == |aggs| && groups == old(groups)[n := old(groups)[n].(states := states)]
        invariant forall b :: 0 <= b < a ==> ArgOf(m, aggs[b], ctx) == Some(args[b]) && states[b] == AggStep(m, plus, aggs[b], old(groups)[n].states[b], args[b])
        invariant forall b :: a <= b < |aggs| ==> states[b] == old(groups)[n].states[b]
      {
        var v := ArgOf(m, aggs[a], ctx);
        if v.None? {
          return false, args;
        }
        states := states[a := AggStep(m, plus, aggs[a], states[a], v.value)];
        groups := groups[n := groups[n].(states := states)];
        args := args + [v.value];
      }
      assert states == StepAll(m, plus, aggs, old(groups)[n].states, args);
      ok := true;
    }
  }

  /** SELECT ... GROUP BY: where it succeeds and the keys are regular, the groups are the
      classes of the accepted combinations, each aggregate folded over its class. */
  method GroupQuery(m: Machine, plus: (Bits64, Value) -> Bits64, q: Queries.Query, groupby: seq<Expr>, aggs: seq<Aggregate>)
    returns (ok: bool, groups: seq<Group>)
    ensures var accepted := Queries.Accepted(m, q, true, []);
            && (ok <==> accepted.Some? && ItemsOf(m, groupby, aggs, accepted.value, q.outer).Some?)
            && (ok ==> var items := ItemsOf(m, groupby, aggs, accepted.value, q.outer).value;
                       && groups == Stream(m, plus, aggs, items)
                       && (Regular(items, |groupby|) ==> Partitioned(m, plus, aggs, items, groups)))
  {
    groups := [];
    var select := new Queries.Select(m, q);
    ok := select.ExecFromLevel();
    if !ok {
      return;
    }
    assert select.rows == Queries.Accepted(m, q, true, []).value;
    var grouping := new Grouping(m, plus, groupby, aggs);
    ok := grouping.GroupAll(select.rows, q.outer);
    groups := grouping.groups;
    if ok {
      ghost var items := ItemsOf(m, groupby, aggs, select.rows, q.outer).value;
      if Regular(items, |groupby|) {
        StreamPartitions(m, plus, aggs, items, |groupby|);
      }
    }
  }
}
