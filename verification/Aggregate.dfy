/** Query aggregates in exact arithmetic, grouped and ungrouped (bboltstore/aggregate.go). */
module Aggregates {
  import opened Order
  import opened Float64
  import opened Documents
  import opened Engine
  import opened Stores
  import opened Queries

  datatype Agg = Agg(fn: string, over: Term)

  /** A column value: a number, or nil. */
  datatype Cell = Real(r: real) | Nil

  datatype GroupRow = GroupRow(key: seq<Json>, values: seq<Cell>)

  /** aggQueryFloat on a binding; a missing variable is nil. */
  function NumberIn(name: string, b: Bindings): Option<real> {
    if name in b && b[name].Num? then Some(RealValue(b[name].num)) else None
  }

  /** Only numbers count, for what they are worth. */
  lemma NumberRead(name: string, b: Bindings, x: real)
    ensures NumberIn(name, b) == Some(x) <==> exists f :: name in b && b[name] == Num(f) && x == Value(f) as real
  {
    if name in b && b[name].Num? { assert b[name] == Num(b[name].num); }
  }

  function SumOver(name: string, ms: seq<Bindings>): real {
    if ms == [] then 0.0
    else SumOver(name, ms[..|ms| - 1]) + NumberOr0(name, ms[|ms| - 1])
  }

  function NumberOr0(name: string, b: Bindings): real {
    match NumberIn(name, b)
    case Some(x) => x
    case None => 0.0
  }

  function CountOver(name: string, ms: seq<Bindings>): nat {
    if ms == [] then 0
    else CountOver(name, ms[..|ms| - 1]) + if NumberIn(name, ms[|ms| - 1]).Some? then 1 else 0
  }

  ghost predicate Among(x: real, name: string, ms: seq<Bindings>) {
    exists i :: 0 <= i < |ms| && NumberIn(name, ms[i]) == Some(x)
  }

  /** o is the least (sign 1) or greatest (sign -1) number of the members, Nil when there is none. */
  ghost predicate IsBest(o: Cell, sign: int, name: string, ms: seq<Bindings>) {
    && (o.Nil? ==> forall i :: 0 <= i < |ms| ==> NumberIn(name, ms[i]).None?)
    && (o.Real? ==> Among(o.r, name, ms) && forall i :: 0 <= i < |ms| ==>
          (match NumberIn(name, ms[i]) case Some(x) => NoWorse(sign, o.r, x) case None => true))
  }

  predicate NoWorse(sign: int, a: real, b: real) { if sign > 0 then a <= b else a >= b }

  method SumLoop(name: string, ms: seq<Bindings>) returns (sum: real, n: nat)
    ensures name != "" ==> sum == SumOver(name, ms) && n == CountOver(name, ms)
    ensures name == "" ==> sum == 0.0 && n == 0
  {
    sum, n := 0.0, 0;
    if name == "" { return; }
    for i := 0 to |ms|
      invariant sum == SumOver(name, ms[..i]) && n == CountOver(name, ms[..i])
    {
      assert ms[..i + 1][..i] == ms[..i];
      match NumberIn(name, ms[i])
      case Some(x) => sum, n := sum + x, n + 1;
      case None =>
    }
    assert ms[..|ms|] == ms;
  }

  /** aggQueryMinOver and aggQueryMaxOver. */
  method BestLoop(sign: int, name: string, ms: seq<Bindings>) returns (best: Cell)
    ensures name == "" ==> best == Nil
    ensures name != "" ==> IsBest(best, sign, name, ms)
  {
    best := Nil;
    if name == "" { return; }
    for i := 0 to |ms|
      invariant IsBest(best, sign, name, ms[..i])
    {
      assert ms[..i + 1] == ms[..i] + [ms[i]];
      match NumberIn(name, ms[i]) {
        case Some(x) =>
          if best.Nil? || (if sign > 0 then x < best.r else x > best.r) {
            best := Real(x);
            assert ms[..i + 1][i] == ms[i];
          } else {
            ghost var k :| 0 <= k < i && NumberIn(name, ms[..i][k]) == Some(best.r);
            assert ms[..i + 1][k] == ms[..i][k];
          }
        case None =>
          if best.Real? {
            ghost var k :| 0 <= k < i && NumberIn(name, ms[..i][k]) == Some(best.r);
            assert ms[..i + 1][k] == ms[..i][k];
          }
      }
    }
    assert ms[..|ms|] == ms;
  }

  /** What one aggregate column holds for its members. */
  ghost predicate Computes(a: Agg, ms: seq<Bindings>, v: Cell) {
    var name := a.over.name;
    if a.fn == "count" then v == Real(|ms| as real)
    else if a.fn == "sum" || a.fn == "total" then v == Real(if name == "" then 0.0 else SumOver(name, ms))
    else if a.fn == "avg" then
      v == Real(if name == "" || CountOver(name, ms) == 0 then 0.0 else SumOver(name, ms) / CountOver(name, ms) as real)
    else if a.fn == "min" || a.fn == "max" then
      if name == "" then v == Nil else IsBest(v, if a.fn == "min" then 1 else -1, name, ms)
    else v == Nil
  }

  method Compute(a: Agg, ms: seq<Bindings>) returns (v: Cell)
    ensures Computes(a, ms, v)
  {
    if a.fn == "count" {
      v := Real(|ms| as real);
    } else if a.fn == "sum" || a.fn == "total" {
      var s, _ := SumLoop(a.over.name, ms);
      v := Real(s);
    } else if a.fn == "avg" {
      var s, n := SumLoop(a.over.name, ms);
      v := Real(if n == 0 then 0.0 else s / n as real);
    } else if a.fn == "min" {
      v := BestLoop(1, a.over.name, ms);
    } else if a.fn == "max" {
      v := BestLoop(-1, a.over.name, ms);
    } else {
      v := Nil;
    }
  }

  ghost predicate ColumnsRight(aggs: seq<Agg>, ms: seq<Bindings>, values: seq<Cell>) {
    |values| == |aggs| && forall j :: 0 <= j < |aggs| ==> Computes(aggs[j], ms, values[j])
  }

  method ComputeAll(aggs: seq<Agg>, ms: seq<Bindings>) returns (values: seq<Cell>)
    ensures ColumnsRight(aggs, ms, values)
  {
    values := [];
    for j := 0 to |aggs|
      invariant |values| == j && forall i :: 0 <= i < j ==> Computes(aggs[i], ms, values[i])
    {
      var v := Compute(aggs[j], ms);
      values := values + [v];
    }
  }

  // ---------- groups ----------

  function KeyOf(groupBy: seq<string>, b: Bindings): seq<Json> {
    seq(|groupBy|, i requires 0 <= i < |groupBy| => if groupBy[i] in b then b[groupBy[i]] else Null)
  }

  /** The key lists every grouping variable's binding, nil where there is none. */
  ghost predicate KeyShows(groupBy: seq<string>, b: Bindings, key: seq<Json>) {
    && |key| == |groupBy|
    && (forall i :: 0 <= i < |key| && groupBy[i] in b ==> key[i] == b[groupBy[i]])
    && (forall i :: 0 <= i < |key| && groupBy[i] !in b ==> key[i] == Null)
  }

  /** aggGroupKeyString: the parts' printed forms joined by '|'. */
  function KeyString(h: Host, parts: seq<Json>): string {
    if parts == [] then ""
    else if |parts| == 1 then h.sprint(parts[0])
    else KeyString(h, parts[..|parts| - 1]) + "|" + h.sprint(parts[|parts| - 1])
  }

  function KeyText(h: Host, groupBy: seq<string>, b: Bindings): string {
    KeyString(h, KeyOf(groupBy, b))
  }

  /** Where the printed parts have no separator, equal key texts print equally, part by part. */
  lemma {:induction false} KeyTextTells(h: Host, a: seq<Json>, b: seq<Json>)
    requires |a| == |b| && forall v :: v in a || v in b ==> '|' !in h.sprint(v)
    ensures KeyString(h, a) == KeyString(h, b) <==> forall i :: 0 <= i < |a| ==> h.sprint(a[i]) == h.sprint(b[i])
    decreases |a|
  {
    if |a| >= 2 {
      var n := |a| - 1;
      var x, y := KeyString(h, a[..n]), KeyString(h, b[..n]);
      SplitLast(a);
      SplitLast(b);
      KeyTextTells(h, a[..n], b[..n]);
      assert a[n] in a && b[n] in b;
      if x + "|" + h.sprint(a[n]) == y + "|" + h.sprint(b[n]) { LastPart(x, h.sprint(a[n]), y, h.sprint(b[n])); }
    } else if |a| == 1 {
      assert a[0] in a;
    }
  }

  lemma {:induction false} LastPart(x: string, p: string, y: string, q: string)
    requires '|' !in p && '|' !in q && x + "|" + p == y + "|" + q
    ensures x == y && p == q
  {
    var s, t := x + "|" + p, y + "|" + q;
    assert s[|x|] == '|' && t[|y|] == '|';
    assert forall i :: |x| < i < |s| ==> s[i] == p[i - |x| - 1];
    assert forall i :: |y| < i < |t| ==> t[i] == q[i - |y| - 1];
    assert |x| == |y|;
    assert s[..|x|] == x && t[..|y|] == y && s[|x| + 1..] == p && t[|y| + 1..] == q;
  }

  /** The members of one group, in match order. */
  function Members(h: Host, groupBy: seq<string>, ms: seq<Bindings>, k: string): seq<Bindings> {
    if ms == [] then []
    else
      var init, last := Members(h, groupBy, ms[..|ms| - 1], k), ms[|ms| - 1];
      if KeyText(h, groupBy, last) == k then init + [last] else init
  }

  ghost function KeyTexts(h: Host, groupBy: seq<string>, ms: seq<Bindings>): set<string> {
    set i | 0 <= i < |ms| :: KeyText(h, groupBy, ms[i])
  }

  datatype Bucket = Bucket(key: seq<Json>, members: seq<Bindings>)

  ghost predicate BucketsRight(h: Host, groupBy: seq<string>, ms: seq<Bindings>, buckets: map<string, Bucket>,
                               order: seq<string>) {
    && Distinct(order) && Elems(order) == buckets.Keys == KeyTexts(h, groupBy, ms)
    && forall k :: k in buckets ==> BucketRight(h, groupBy, ms, k, buckets[k])
  }

  ghost predicate BucketRight(h: Host, groupBy: seq<string>, ms: seq<Bindings>, k: string, b: Bucket) {
    b.members == Members(h, groupBy, ms, k) && b.members != [] && b.key == KeyOf(groupBy, b.members[0])
  }

  lemma {:induction false} NoMembers(h: Host, groupBy: seq<string>, ms: seq<Bindings>, k: string)
    requires k !in KeyTexts(h, groupBy, ms)
    ensures Members(h, groupBy, ms, k) == []
    decreases |ms|
  {
    if ms != [] {
      var init := ms[..|ms| - 1];
      assert KeyText(h, groupBy, ms[|ms| - 1]) in KeyTexts(h, groupBy, ms);
      assert forall i :: 0 <= i < |init| ==> init[i] == ms[i];
      assert KeyTexts(h, groupBy, init) <= KeyTexts(h, groupBy, ms);
      NoMembers(h, groupBy, init, k);
    }
  }

  function Filed(buckets: map<string, Bucket>, k: string, key: seq<Json>, m: Bindings): map<string, Bucket> {
    var b := if k in buckets then buckets[k] else Bucket(key, []);
    buckets[k := b.(members := b.members + [m])]
  }

  lemma {:induction false} FiledRight(h: Host, groupBy: seq<string>, ms: seq<Bindings>, m: Bindings,
                                      buckets: map<string, Bucket>, order: seq<string>, j: string)
    requires BucketsRight(h, groupBy, ms, buckets, order)
    requires j in buckets || j == KeyText(h, groupBy, m)
    ensures BucketRight(h, groupBy, ms + [m], j, Filed(buckets, KeyText(h, groupBy, m), KeyOf(groupBy, m), m)[j])
  {
    MembersAfter(h, groupBy, ms, m, j);
    if j in buckets {
      assert BucketRight(h, groupBy, ms, j, buckets[j]);
    } else {
      NoMembers(h, groupBy, ms, j);
    }
  }

  lemma OrderGrows(order: seq<string>, k: string)
    requires Distinct(order) && k !in Elems(order)
    ensures Distinct(order + [k]) && Elems(order + [k]) == Elems(order) + {k}
  {
    ElemsConcat(order, [k]);
  }

  lemma {:induction false} BucketStep(h: Host, groupBy: seq<string>, ms: seq<Bindings>, m: Bindings,
                                      buckets: map<string, Bucket>, order: seq<string>)
    requires BucketsRight(h, groupBy, ms, buckets, order)
    ensures var k := KeyText(h, groupBy, m);
            var order' := if k in buckets then order else order + [k];
            BucketsRight(h, groupBy, ms + [m], Filed(buckets, k, KeyOf(groupBy, m), m), order')
  {
    var k := KeyText(h, groupBy, m);
    var buckets' := Filed(buckets, k, KeyOf(groupBy, m), m);
    KeyTextsAfter(h, groupBy, ms, m);
    if k !in buckets { OrderGrows(order, k); }
    forall j | j in buckets' ensures BucketRight(h, groupBy, ms + [m], j, buckets'[j]) {
      FiledRight(h, groupBy, ms, m, buckets, order, j);
    }
  }

  lemma MembersAfter(h: Host, groupBy: seq<string>, ms: seq<Bindings>, m: Bindings, k: string)
    ensures Members(h, groupBy, ms + [m], k)
         == if KeyText(h, groupBy, m) == k then Members(h, groupBy, ms, k) + [m] else Members(h, groupBy, ms, k)
  {
    var all := ms + [m];
    assert all[..|all| - 1] == ms && all[|all| - 1] == m;
  }

  lemma KeyTextsAfter(h: Host, groupBy: seq<string>, ms: seq<Bindings>, m: Bindings)
    ensures KeyTexts(h, groupBy, ms + [m]) == KeyTexts(h, groupBy, ms) + {KeyText(h, groupBy, m)}
  {
    var all := ms + [m];
    assert forall i :: 0 <= i < |ms| ==> all[i] == ms[i];
    assert all[|ms|] == m;
  }

  lemma Longer(ms: seq<Bindings>, n: int)
    requires 0 <= n < |ms|
    ensures ms[..n + 1] == ms[..n] + [ms[n]]
  {
  }

  method Bucketize(h: Host, groupBy: seq<string>, ms: seq<Bindings>)
    returns (buckets: map<string, Bucket>, order: seq<string>)
    ensures BucketsRight(h, groupBy, ms, buckets, order)
  {
    buckets, order := map[], [];
    for n := 0 to |ms|
      invariant BucketsRight(h, groupBy, ms[..n], buckets, order)
    {
      var key := KeyOf(groupBy, ms[n]);
      var k := KeyString(h, key);
      BucketStep(h, groupBy, ms[..n], ms[n], buckets, order);
      Longer(ms, n);
      ghost var before := buckets;
      if k !in buckets {
        buckets := buckets[k := Bucket(key, [])];
        order := order + [k];
      }
      buckets := buckets[k := buckets[k].(members := buckets[k].members + [ms[n]])];
      assert buckets == Filed(before, k, key, ms[n]);
    }
    assert ms[..|ms|] == ms;
  }

  ghost predicate RowRight(h: Host, groupBy: seq<string>, aggs: seq<Agg>, ms: seq<Bindings>, k: string, row: GroupRow) {
    var members := Members(h, groupBy, ms, k);
    members != [] && KeyShows(groupBy, members[0], row.key) && ColumnsRight(aggs, members, row.values)
  }

  /** One row per key text, in strictly increasing order of the texts. */
  ghost predicate RowsRight(h: Host, groupBy: seq<string>, aggs: seq<Agg>, ms: seq<Bindings>, order: seq<string>,
                            rows: seq<GroupRow>) {
    && Sorted(order) && Elems(order) == KeyTexts(h, groupBy, ms) && |rows| == |order|
    && forall i :: 0 <= i < |rows| ==> RowRight(h, groupBy, aggs, ms, order[i], rows[i])
  }

  /** runQueryAggregates: without GroupBy one row over all matches, even of none; else one row per group. */
  method RunAggregates(h: Host, ms: seq<Bindings>, groupBy: seq<string>, aggs: seq<Agg>)
    returns (rows: seq<GroupRow>, ghost order: seq<string>)
    ensures groupBy == [] ==> |rows| == 1 && rows[0].key == [] && ColumnsRight(aggs, ms, rows[0].values)
    ensures groupBy != [] ==> RowsRight(h, groupBy, aggs, ms, order, rows)
  {
    order := [];
    if groupBy == [] {
      var values := ComputeAll(aggs, ms);
      return [GroupRow([], values)], [];
    }
    var buckets, seen := Bucketize(h, groupBy, ms);
    var sorted := SortStrings(seen);
    order := sorted;
    rows := [];
    for n := 0 to |sorted|
      invariant |rows| == n && forall i :: 0 <= i < n ==> RowRight(h, groupBy, aggs, ms, sorted[i], rows[i])
    {
      assert sorted[n] in Elems(sorted);
      var bk := buckets[sorted[n]];
      var values := ComputeAll(aggs, bk.members);
      rows := rows + [GroupRow(bk.key, values)];
    }
  }

  // ---------- conservation ----------

  ghost function Counts(h: Host, groupBy: seq<string>, ms: seq<Bindings>, order: seq<string>): nat {
    if order == [] then 0 else |Members(h, groupBy, ms, order[0])| + Counts(h, groupBy, ms, order[1..])
  }

  ghost function Sums(h: Host, groupBy: seq<string>, ms: seq<Bindings>, order: seq<string>, name: string): real {
    if order == [] then 0.0
    else SumOver(name, Members(h, groupBy, ms, order[0])) + Sums(h, groupBy, ms, order[1..], name)
  }

  /** One more match adds to exactly one group's count and sum. */
  lemma {:induction false} OneMore(h: Host, groupBy: seq<string>, ms: seq<Bindings>, m: Bindings, order: seq<string>,
                                   name: string)
    requires Distinct(order)
    ensures Counts(h, groupBy, ms + [m], order)
         == Counts(h, groupBy, ms, order) + if KeyText(h, groupBy, m) in order then 1 else 0
    ensures Sums(h, groupBy, ms + [m], order, name)
         == Sums(h, groupBy, ms, order, name) + if KeyText(h, groupBy, m) in order then NumberOr0(name, m) else 0.0
    decreases |order|
  {
    if order != [] {
      var all, k := ms + [m], KeyText(h, groupBy, m);
      assert all[..|all| - 1] == ms && all[|all| - 1] == m;
      OneMore(h, groupBy, ms, m, order[1..], name);
      assert order == [order[0]] + order[1..];
      var was := Members(h, groupBy, ms, order[0]);
      assert (was + [m])[..|was|] == was;
    }
  }

  /** Group counts and sums add up to the ungrouped ones. */
  lemma {:induction false} GroupsConserve(h: Host, groupBy: seq<string>, ms: seq<Bindings>, order: seq<string>,
                                          name: string)
    requires Distinct(order) && KeyTexts(h, groupBy, ms) <= Elems(order)
    ensures Counts(h, groupBy, ms, order) == |ms| && Sums(h, groupBy, ms, order, name) == SumOver(name, ms)
    decreases |ms|
  {
    if ms == [] {
      EmptyGroups(h, groupBy, order, name);
    } else {
      var init, last := ms[..|ms| - 1], ms[|ms| - 1];
      SplitLast(ms);
      KeyTextsAfter(h, groupBy, init, last);
      GroupsConserve(h, groupBy, init, order, name);
      OneMore(h, groupBy, init, last, order, name);
      assert KeyText(h, groupBy, last) in Elems(order);
    }
  }

  lemma {:induction false} EmptyGroups(h: Host, groupBy: seq<string>, order: seq<string>, name: string)
    ensures Counts(h, groupBy, [], order) == 0 && Sums(h, groupBy, [], order, name) == 0.0
    decreases |order|
  {
    if order != [] { EmptyGroups(h, groupBy, order[1..], name); }
  }

  /** The matches of a group are matches, and every match is in its own group. */
  lemma {:induction false} MembersPartition(h: Host, groupBy: seq<string>, ms: seq<Bindings>, b: Bindings)
    ensures forall k :: b in Members(h, groupBy, ms, k) <==> b in ms && KeyText(h, groupBy, b) == k
    decreases |ms|
  {
    if ms != [] {
      SplitLast(ms);
      MembersPartition(h, groupBy, ms[..|ms| - 1], b);
    }
  }

  /** The best of the groups' bests is the ungrouped best, for min and for max. */
  lemma {:induction false} BestOfBests(h: Host, groupBy: seq<string>, ms: seq<Bindings>, order: seq<string>,
                                       sign: int, name: string, bests: seq<Cell>, total: Cell)
    requires Elems(order) == KeyTexts(h, groupBy, ms) && |bests| == |order|
    requires forall i :: 0 <= i < |order| ==> IsBest(bests[i], sign, name, Members(h, groupBy, ms, order[i]))
    requires IsBest(total, sign, name, ms)
    ensures total.Nil? <==> forall i :: 0 <= i < |bests| ==> bests[i].Nil?
    ensures total.Real? ==> (exists i :: 0 <= i < |bests| && bests[i] == total)
    ensures total.Real? ==> forall i :: 0 <= i < |bests| && bests[i].Real? ==> NoWorse(sign, total.r, bests[i].r)
  {
    forall i | 0 <= i < |bests| && bests[i].Real? ensures total.Real? && NoWorse(sign, total.r, bests[i].r) {
      GroupBestIsNumber(h, groupBy, ms, order[i], sign, name, bests[i], total);
    }
    if total.Real? {
      var n :| 0 <= n < |ms| && NumberIn(name, ms[n]) == Some(total.r);
      var k := KeyText(h, groupBy, ms[n]);
      assert k in KeyTexts(h, groupBy, ms);
      assert k in order;
      var i :| 0 <= i < |order| && order[i] == k;
      MembersPartition(h, groupBy, ms, ms[n]);
      assert ms[n] in Members(h, groupBy, ms, k);
      assert bests[i].Real? && NoWorse(sign, bests[i].r, total.r);
    }
  }

  lemma {:induction false} GroupBestIsNumber(h: Host, groupBy: seq<string>, ms: seq<Bindings>, k: string, sign: int,
                                             name: string, best: Cell, total: Cell)
    requires best.Real? && IsBest(best, sign, name, Members(h, groupBy, ms, k)) && IsBest(total, sign, name, ms)
    ensures total.Real? && NoWorse(sign, total.r, best.r)
  {
    var members := Members(h, groupBy, ms, k);
    var i :| 0 <= i < |members| && NumberIn(name, members[i]) == Some(best.r);
    MembersPartition(h, groupBy, ms, members[i]);
    assert members[i] in ms;
  }

  // ---------- conservation in the returned rows ----------

  function CellOf(row: GroupRow, j: nat): Cell {
    if j < |row.values| then row.values[j] else Nil
  }

  /** The column's numbers added up over the rows. */
  ghost function ColumnTotal(rows: seq<GroupRow>, j: nat): real {
    if rows == [] then 0.0
    else (if CellOf(rows[0], j).Real? then CellOf(rows[0], j).r else 0.0) + ColumnTotal(rows[1..], j)
  }

  ghost predicate AddsUp(a: Agg) { a.fn == "count" || a.fn == "sum" || a.fn == "total" }

  /** What a column that adds up holds for its members. */
  ghost function Amount(a: Agg, ms: seq<Bindings>): real
    requires AddsUp(a)
  {
    if a.fn == "count" then |ms| as real else if a.over.name == "" then 0.0 else SumOver(a.over.name, ms)
  }

  ghost function Amounts(h: Host, groupBy: seq<string>, ms: seq<Bindings>, order: seq<string>, a: Agg): real
    requires AddsUp(a)
  {
    if order == [] then 0.0 else Amount(a, Members(h, groupBy, ms, order[0])) + Amounts(h, groupBy, ms, order[1..], a)
  }

  lemma {:induction false} ColumnIsAmounts(h: Host, groupBy: seq<string>, aggs: seq<Agg>, ms: seq<Bindings>,
                                           order: seq<string>, rows: seq<GroupRow>, j: nat)
    requires |rows| == |order| && j < |aggs| && AddsUp(aggs[j])
    requires forall i :: 0 <= i < |rows| ==> RowRight(h, groupBy, aggs, ms, order[i], rows[i])
    ensures ColumnTotal(rows, j) == Amounts(h, groupBy, ms, order, aggs[j])
    decreases |rows|
  {
    if rows != [] {
      assert RowRight(h, groupBy, aggs, ms, order[0], rows[0]);
      assert Computes(aggs[j], Members(h, groupBy, ms, order[0]), rows[0].values[j]);
      forall i | 0 <= i < |rows[1..]| ensures RowRight(h, groupBy, aggs, ms, order[1..][i], rows[1..][i]) {
        assert RowRight(h, groupBy, aggs, ms, order[i + 1], rows[i + 1]);
      }
      ColumnIsAmounts(h, groupBy, aggs, ms, order[1..], rows[1..], j);
    }
  }

  lemma {:induction false} AmountsAre(h: Host, groupBy: seq<string>, ms: seq<Bindings>, order: seq<string>, a: Agg)
    requires AddsUp(a)
    ensures Amounts(h, groupBy, ms, order, a)
         == if a.fn == "count" then Counts(h, groupBy, ms, order) as real
            else if a.over.name == "" then 0.0 else Sums(h, groupBy, ms, order, a.over.name)
    decreases |order|
  {
    if order != [] { AmountsAre(h, groupBy, ms, order[1..], a); }
  }

  lemma SortedIsDistinct(order: seq<string>)
    requires Sorted(order)
    ensures Distinct(order)
  {
    forall i, j | 0 <= i < j < |order| ensures order[i] != order[j] {
      Irreflexive(order[i]);
    }
  }

  /** In the returned rows, a count or sum column adds up to the ungrouped answer. */
  lemma {:induction false} RowsConserve(h: Host, groupBy: seq<string>, aggs: seq<Agg>, ms: seq<Bindings>,
                                        order: seq<string>, rows: seq<GroupRow>, whole: seq<Cell>, j: nat)
    requires RowsRight(h, groupBy, aggs, ms, order, rows) && ColumnsRight(aggs, ms, whole)
    requires j < |aggs| && AddsUp(aggs[j])
    ensures whole[j] == Real(ColumnTotal(rows, j))
  {
    ColumnIsAmounts(h, groupBy, aggs, ms, order, rows, j);
    AmountsAre(h, groupBy, ms, order, aggs[j]);
    SortedIsDistinct(order);
    GroupsConserve(h, groupBy, ms, order, aggs[j].over.name);
    assert Computes(aggs[j], ms, whole[j]);
  }

  /** And a min or max column's best is the ungrouped answer. */
  lemma {:induction false} RowsBest(h: Host, groupBy: seq<string>, aggs: seq<Agg>, ms: seq<Bindings>,
                                    order: seq<string>, rows: seq<GroupRow>, whole: seq<Cell>, j: nat)
    requires RowsRight(h, groupBy, aggs, ms, order, rows) && ColumnsRight(aggs, ms, whole)
    requires j < |aggs| && (aggs[j].fn == "min" || aggs[j].fn == "max") && aggs[j].over.name != ""
    ensures var sign := if aggs[j].fn == "min" then 1 else -1;
            && (whole[j].Nil? <==> forall i :: 0 <= i < |rows| ==> CellOf(rows[i], j).Nil?)
            && (whole[j].Real? ==> exists i :: 0 <= i < |rows| && CellOf(rows[i], j) == whole[j])
            && (whole[j].Real? ==> forall i :: 0 <= i < |rows| && CellOf(rows[i], j).Real? ==>
                  NoWorse(sign, whole[j].r, CellOf(rows[i], j).r))
  {
    var sign := if aggs[j].fn == "min" then 1 else -1;
    var bests := seq(|rows|, i requires 0 <= i < |rows| => CellOf(rows[i], j));
    forall i | 0 <= i < |order| ensures IsBest(bests[i], sign, aggs[j].over.name, Members(h, groupBy, ms, order[i])) {
      assert RowRight(h, groupBy, aggs, ms, order[i], rows[i]);
      assert Computes(aggs[j], Members(h, groupBy, ms, order[i]), CellOf(rows[i], j));
    }
    assert Computes(aggs[j], ms, whole[j]);
    BestOfBests(h, groupBy, ms, order, sign, aggs[j].over.name, bests, whole[j]);
    if whole[j].Real? {
      var i :| 0 <= i < |bests| && bests[i] == whole[j];
      assert CellOf(rows[i], j) == whole[j];
    }
  }

  // ---------- the aggregate branch of Query ----------

  /** The rows answer the request over a list of matches. */
  ghost predicate Answers(h: Host, groupBy: seq<string>, aggs: seq<Agg>, ms: seq<Bindings>, rows: seq<GroupRow>) {
    if groupBy == [] then |rows| == 1 && rows[0].key == [] && ColumnsRight(aggs, ms, rows[0].values)
    else exists order :: RowsRight(h, groupBy, aggs, ms, order, rows)
  }

  /** The live documents the index finds for a query: those that carry every anchor's term. */
  ghost function Findable(h: Host, docs: map<string, Doc>, where: seq<Clause>): set<string> {
    set d | d in docs && forall c :: c in where && IsAnchor(c) ==> HasAnchor(h, c, docs[d])
  }

  ghost predicate NarrowedAnswer(h: Host, docs: map<string, Doc>, where: seq<Clause>, groupBy: seq<string>,
                                 aggs: seq<Agg>, rows: seq<GroupRow>, ids: seq<string>) {
    Sorted(ids) && Elems(ids) == Findable(h, docs, where) &&
        Answers(h, groupBy, aggs, MatchesOf(h, docs, ids, where), rows)
  }

  /**
   Query with aggregates: None is the missing-anchor error; no candidate at all still aggregates over no
   match. The rows answer over the found documents, and over the plain scan unless one is hidden.
   */
  method QueryAggregated(store: Store, where: seq<Clause>, groupBy: seq<string>, aggs: seq<Agg>)
    returns (rows: Option<seq<GroupRow>>)
    requires Inv(store.host, store.Contents())
    ensures rows.None? <==> forall c :: c in where ==> !IsAnchor(c)
    ensures rows.Some? ==> exists ids :: NarrowedAnswer(store.host, store.docs, where, groupBy, aggs, rows.value, ids)
    ensures rows.Some? && !Hides(store.host, store.docs, where) ==>
              exists ms :: IsScan(store.host, store.docs, where, ms) &&
                  Answers(store.host, groupBy, aggs, ms, rows.value)
  {
    var anchors := CollectAnchors(where);
    if anchors == [] { return None; }
    assert anchors[0] in anchors;
    var candidates := GatherCandidates(store, anchors);
    FindableIs(store.host, store.docs, where, anchors);
    var matches, _ := EvaluateAll(store.host, store.docs, candidates, where, []);
    var out, order := RunAggregates(store.host, matches, groupBy, aggs);
    ScanExactly(store.host, store.docs, where, anchors, candidates, []);
    assert Answers(store.host, groupBy, aggs, matches, out);
    assert NarrowedAnswer(store.host, store.docs, where, groupBy, aggs, out, candidates);
    rows := Some(out);
  }

  lemma FindableIs(h: Host, docs: map<string, Doc>, where: seq<Clause>, anchors: seq<Clause>)
    requires forall c :: c in anchors <==> c in where && IsAnchor(c)
    ensures Anchored(h, docs, anchors) == Findable(h, docs, where)
  {
    forall d | d in docs
      ensures (forall i :: 0 <= i < |anchors| ==> HasAnchor(h, anchors[i], docs[d])) <==>
              (forall c :: c in where && IsAnchor(c) ==> HasAnchor(h, c, docs[d]))
    {
      forall i | 0 <= i < |anchors| ensures anchors[i] in where && IsAnchor(anchors[i]) {
        assert anchors[i] in anchors;
      }
    }
  }
}
