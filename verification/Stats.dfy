/** Running statistics per attribute in exact arithmetic (bboltstore/stats.go and its hook). */
module Stats {
  import opened Order
  import opened Float64
  import opened Documents
  import opened Postings
  import opened Numeric

  datatype Stat = Stat(count: nat, mean: real, m2: real, min: real, max: real, stale: bool)

  const ZERO: Stat := Stat(0, 0.0, 0.0, 0.0, 0.0, false)

  /** statsWelfordAdd: Welford's online update. */
  function Welford(v: Stat, x: real): Stat {
    var n := v.count + 1;
    var mean := NextMean(v.mean, x, n as real);
    Stat(n, mean, v.m2 + Increment(x, v.mean, mean),
         if n == 1 || x < v.min then x else v.min,
         if n == 1 || x > v.max then x else v.max, v.stale)
  }

  /** mean += delta / n. */
  function NextMean(mean: real, x: real, n: real): real
    requires n != 0.0
  {
    mean + (x - mean) / n
  }

  /** m2 += delta * delta2. */
  function Increment(x: real, before: real, after: real): real {
    (x - before) * (x - after)
  }

  // ---------- the true statistics of a collection of values ----------

  /** A collection of values under distinct names. */
  type Values<K> = map<K, real>

  ghost function Sum<K>(vs: Values<K>): real
    decreases vs.Keys
  {
    if vs == map[] then 0.0 else var k :| k in vs; vs[k] + Sum(vs - {k})
  }

  ghost function Squares<K>(vs: Values<K>, c: real): Values<K> {
    map k | k in vs :: Sq(vs[k] - c)
  }

  function Sq(x: real): real { x * x }

  ghost function Mean<K>(vs: Values<K>): real {
    if vs == map[] then 0.0 else Sum(vs) / |vs| as real
  }

  ghost predicate Brackets<K>(s: Stat, vs: Values<K>) {
    && (vs == map[] ==> s.min == 0.0 && s.max == 0.0)
    && (vs != map[] ==> (exists k :: k in vs && vs[k] == s.min) && (exists k :: k in vs && vs[k] == s.max))
    && forall k :: k in vs ==> s.min <= vs[k] <= s.max
  }

  /** Count, mean, sum of squared deviations from the mean, minimum and maximum of the values. */
  ghost predicate Describes<K>(s: Stat, vs: Values<K>) {
    && s.count == |vs|
    && s.mean == Mean(vs)
    && s.m2 == Sum(Squares(vs, Mean(vs)))
    && Brackets(s, vs)
  }

  /** Whatever key the sum starts with. */
  lemma {:induction false} SumPick<K>(vs: Values<K>, k: K)
    requires k in vs
    ensures Sum(vs) == vs[k] + Sum(vs - {k})
    decreases vs.Keys
  {
    var j :| j in vs && Sum(vs) == vs[j] + Sum(vs - {j});
    if j != k {
      SumPick(vs - {j}, k);
      SumPick(vs - {k}, j);
      assert vs - {j} - {k} == vs - {k} - {j};
    }
  }

  lemma {:induction false} SquaresRest<K>(vs: Values<K>, k: K, c: real)
    requires k in vs
    ensures Sum(Squares(vs, c)) == Sq(vs[k] - c) + Sum(Squares(vs - {k}, c))
  {
    SumPick(Squares(vs, c), k);
    assert Squares(vs, c) - {k} == Squares(vs - {k}, c);
  }

  /** dev = q - 2 c s + n c^2: squared deviations from c in terms of the sum and the sum of squares. */
  predicate Expanded(dev: real, q: real, s: real, n: real, c: real) {
    dev == q - 2.0 * c * s + n * c * c
  }

  lemma {:induction false} ExpandedStep(dev: real, q: real, s: real, n: real, c: real, x: real)
    requires Expanded(dev, q, s, n, c)
    ensures Expanded(Sq(x - c) + dev, Sq(x - 0.0) + q, x + s, n + 1.0, c)
  {
    assert Sq(x - c) == x * x - 2.0 * c * x + c * c;
  }

  lemma {:induction false} DeviationsExpand(vs: Values<string>, c: real)
    ensures Expanded(Sum(Squares(vs, c)), Sum(Squares(vs, 0.0)), Sum(vs), |vs| as real, c)
    decreases |vs|
  {
    if vs == map[] {
      assert Squares(vs, c) == map[] && Squares(vs, 0.0) == map[];
    } else {
      var k :| k in vs;
      var rest := vs - {k};
      CardStep(vs, k);
      DeviationsExpand(rest, c);
      SumPick(vs, k);
      SquaresRest(vs, k, c);
      SquaresRest(vs, k, 0.0);
      ExpandedStep(Sum(Squares(rest, c)), Sum(Squares(rest, 0.0)), Sum(rest), |rest| as real, c, vs[k]);
    }
  }

  lemma {:induction false} CardStep<K>(vs: Values<K>, k: K)
    requires k in vs
    ensures |vs| == |vs - {k}| + 1
  {
    assert vs.Keys == (vs - {k}).Keys + {k};
    assert |vs.Keys| == |(vs - {k}).Keys| + 1;
  }

  // ---------- real arithmetic of one step ----------

  lemma {:induction false} DivTimes(s: real, n: real)
    requires n != 0.0
    ensures s / n * n == s
  {
  }

  lemma {:induction false} Cancel(a: real, b: real, n: real)
    requires n > 0.0 && a * n == b * n
    ensures a == b
  {
    assert (a - b) * n == 0.0;
  }

  /** sum = m * n. */
  predicate MeanOf(m: real, n: real, sum: real) {
    m * n == sum
  }

  lemma {:induction false} MeanStep(m: real, m': real, n: real, n': real, sum: real, sum': real, x: real)
    requires n >= 0.0 && n' == n + 1.0 && sum' == sum + x && m' == NextMean(m, x, n')
    requires MeanOf(m, n, sum)
    ensures MeanOf(m', n', sum')
  {
    DivTimes(x - m, n');
    assert m' * n' == m * n' + (x - m) / n' * n';
  }

  /** m2 about the mean m of n values with sum of squares q. */
  predicate AboutMean(m2: real, q: real, n: real, m: real) {
    m2 == q - n * m * m
  }

  /** The increment of M2 is exactly what moving the centre and adding a value costs. */
  lemma {:induction false} M2Step(m2: real, m2': real, m: real, m': real, n: real, n': real, sum: real, sum': real,
                                  x: real, q: real, q': real)
    requires n' == n + 1.0 && sum' == sum + x && q' == Sq(x - 0.0) + q
    requires MeanOf(m, n, sum) && MeanOf(m', n', sum')
    requires AboutMean(m2, q, n, m) && AboutMean(m2', q', n', m')
    ensures m2' == m2 + Increment(x, m, m')
  {
    assert n' * m' * m' == m' * (m * n + x);
    assert m * (m' * (n + 1.0) - m * n - x) == 0.0;
  }

  lemma {:induction false} Centred(dev: real, q: real, s: real, n: real, m: real)
    requires Expanded(dev, q, s, n, m) && MeanOf(m, n, s)
    ensures AboutMean(dev, q, n, m)
  {
    assert 2.0 * m * s == 2.0 * (n * m * m);
  }

  lemma {:induction false} MeanTimesCount(vs: Values<string>)
    ensures MeanOf(Mean(vs), |vs| as real, Sum(vs))
  {
    if vs != map[] {
      var s, n := Sum(vs), |vs| as real;
      DivTimes(s, n);
    }
  }

  lemma {:induction false} M2Closed(vs: Values<string>)
    ensures AboutMean(Sum(Squares(vs, Mean(vs))), Sum(Squares(vs, 0.0)), |vs| as real, Mean(vs))
  {
    DeviationsExpand(vs, Mean(vs));
    MeanTimesCount(vs);
    Centred(Sum(Squares(vs, Mean(vs))), Sum(Squares(vs, 0.0)), Sum(vs), |vs| as real, Mean(vs));
  }

  lemma {:induction false} BracketsStep(s: Stat, vs: Values<string>, k: string, x: real)
    requires s.count == |vs| && Brackets(s, vs) && k !in vs
    ensures Brackets(Welford(s, x), vs[k := x])
  {
    var after := vs[k := x];
    assert k in after && after[k] == x;
    if vs != map[] {
      var lo :| lo in vs && vs[lo] == s.min;
      var hi :| hi in vs && vs[hi] == s.max;
      assert lo in after && hi in after;
    }
  }

  lemma {:induction false} Grown(vs: Values<string>, k: string, x: real)
    requires k !in vs
    ensures |vs[k := x]| as real == |vs| as real + 1.0 && |vs[k := x]| == |vs| + 1
    ensures Sum(vs[k := x]) == Sum(vs) + x
    ensures Sum(Squares(vs[k := x], 0.0)) == Sq(x - 0.0) + Sum(Squares(vs, 0.0))
  {
    var after := vs[k := x];
    assert after - {k} == vs;
    CardStep(after, k);
    SumPick(after, k);
    SquaresRest(after, k, 0.0);
  }

  lemma {:induction false} SameMean(m: real, m': real, n: real, sum: real)
    requires n > 0.0 && MeanOf(m, n, sum) && MeanOf(m', n, sum)
    ensures m == m'
  {
    Cancel(m, m', n);
  }

  /** The updated mean is the mean of the values with one more. */
  lemma {:induction false} MeanAfter(vs: Values<string>, k: string, x: real, m': real)
    requires k !in vs && m' == NextMean(Mean(vs), x, |vs| as real + 1.0)
    ensures m' == Mean(vs[k := x])
  {
    var after := vs[k := x];
    Grown(vs, k, x);
    MeanTimesCount(vs);
    MeanTimesCount(after);
    MeanStep(Mean(vs), m', |vs| as real, |after| as real, Sum(vs), Sum(after), x);
    SameMean(m', Mean(after), |after| as real, Sum(after));
  }

  /** The updated M2 is the sum of squared deviations of the values with one more. */
  lemma {:induction false} M2After(vs: Values<string>, k: string, x: real)
    requires k !in vs
    ensures var after := vs[k := x];
            Sum(Squares(after, Mean(after))) == Sum(Squares(vs, Mean(vs))) + Increment(x, Mean(vs), Mean(after))
  {
    var after := vs[k := x];
    Grown(vs, k, x);
    MeanTimesCount(vs);
    MeanTimesCount(after);
    M2Closed(vs);
    M2Closed(after);
    M2Step(Sum(Squares(vs, Mean(vs))), Sum(Squares(after, Mean(after))),
           Mean(vs), Mean(after), |vs| as real, |after| as real,
           Sum(vs), Sum(after), x, Sum(Squares(vs, 0.0)), Sum(Squares(after, 0.0)));
  }

  /** One Welford step describes the values with one more, so the order of arrival does not matter. */
  lemma {:induction false} WelfordStep(s: Stat, vs: Values<string>, k: string, x: real)
    requires Describes(s, vs) && k !in vs
    ensures Describes(Welford(s, x), vs[k := x])
  {
    Grown(vs, k, x);
    MeanAfter(vs, k, x, Welford(s, x).mean);
    M2After(vs, k, x);
    BracketsStep(s, vs, k, x);
  }

  // ---------- the bucket of aggregates ----------

  type Aggregates = map<string, Stat>

  /** statsLoad: a missing aggregate is the zero value. */
  function StatAt(st: Aggregates, p: string): Stat {
    if p in st then st[p] else ZERO
  }

  function MarkedStale(v: Stat): Stat { v.(stale := true) }

  /** statsAddFresh: a stale aggregate is left for the next read. */
  function Fresh(v: Stat, f: Float): Stat {
    if v.stale then v else Welford(v, RealValue(f))
  }

  /**
   updateStatsIndex: every path the old document had goes stale; every other path of the new document
   takes one incremental step, with whichever of its values came last.
   */
  ghost predicate StatsMoved(st: Aggregates, st': Aggregates, was: Nums, now: Nums) {
    && st'.Keys == st.Keys + Paths(was) + Paths(now)
    && forall p :: PathMoved(st, st', was, now, p)
  }

  ghost predicate PathMoved(st: Aggregates, st': Aggregates, was: Nums, now: Nums, p: string) {
    if p in Paths(was) then StatAt(st', p) == MarkedStale(StatAt(st, p))
    else if p in Paths(now) then exists f :: (p, f) in now && StatAt(st', p) == Fresh(StatAt(st, p), f)
    else StatAt(st', p) == StatAt(st, p)
  }

  /** The values behind a numeric bucket, one per key. */
  ghost function KeyValues(keys: set<string>): Values<string> {
    map k | k in keys :: KeyReal(k)
  }

  function KeyReal(k: string): real {
    if |k| == 12 && FromBigEndian(k[..8]) < TWO_64 then RealValue(KeyValue(k)) else 0.0
  }

  lemma NumKeyReal(f: Float, id: Id)
    ensures KeyReal(NumKey(f, id)) == RealValue(f)
  {
    NumKeyRoundTrip(f, id);
  }

  /** Every aggregate that is not stale describes the numeric bucket of its path. */
  ghost predicate StatsExact(st: Aggregates, num: map<string, set<string>>) {
    forall p :: PathExact(st, num, p)
  }

  ghost predicate PathExact(st: Aggregates, num: map<string, set<string>>, p: string) {
    !StatAt(st, p).stale ==> Describes(StatAt(st, p), KeyValues(At(num, p)))
  }

  ghost predicate SingleValue(nums: Nums, p: string) {
    forall f, g :: (p, f) in nums && (p, g) in nums ==> f == g
  }

  /** Paths that take the incremental step with an aggregate that is in use. */
  ghost predicate Incremental(st: Aggregates, was: Nums, now: Nums, p: string) {
    p in Paths(now) && p !in Paths(was) && !StatAt(st, p).stale
  }

  lemma {:induction false} OneValue(v: Stat, keys: set<string>, f: Float, id: Id)
    requires Describes(v, KeyValues(keys)) && NumKey(f, id) !in keys
    ensures Describes(Welford(v, RealValue(f)), KeyValues(keys + {NumKey(f, id)}))
  {
    NumKeyReal(f, id);
    KeyValuesWith(keys, NumKey(f, id));
    WelfordStep(v, KeyValues(keys), NumKey(f, id), RealValue(f));
  }

  lemma KeyValuesWith(keys: set<string>, k: string)
    ensures KeyValues(keys + {k}) == KeyValues(keys)[k := KeyReal(k)]
  {
  }

  lemma CountOf(v: Stat, keys: set<string>)
    requires Describes(v, KeyValues(keys))
    ensures v.count == |keys|
  {
    assert KeyValues(keys).Keys == keys;
    assert |KeyValues(keys)| == |KeyValues(keys).Keys|;
  }

  /** One increment cannot account for two new keys. */
  lemma {:induction false} ManyValues(v: Stat, keys: set<string>, keys': set<string>, x: real)
    requires Describes(v, KeyValues(keys)) && |keys'| >= |keys| + 2
    ensures !Describes(Welford(v, x), KeyValues(keys'))
  {
    CountOf(v, keys);
    assert KeyValues(keys').Keys == keys' && |KeyValues(keys')| == |KeyValues(keys').Keys|;
  }

  lemma {:induction false} IncrementExact(v: Stat, keys: set<string>, now: Nums, p: string, id: Id, f: Float)
    requires Describes(v, KeyValues(keys)) && PathKeys(now, p, id) !! keys && (p, f) in now
    requires forall q :: q in now ==> Finite(q.1)
    ensures Describes(Welford(v, RealValue(f)), KeyValues(keys + PathKeys(now, p, id))) <==> SingleValue(now, p)
  {
    assert Finite((p, f).1) && NumKey(f, id) in PathKeys(now, p, id);
    if SingleValue(now, p) {
      assert PathKeys(now, p, id) == {NumKey(f, id)};
      OneValue(v, keys, f, id);
    } else {
      var g, h :| (p, g) in now && (p, h) in now && g != h;
      assert Finite((p, g).1) && Finite((p, h).1);
      TwoKeys(keys, keys + PathKeys(now, p, id), g, h, id);
      ManyValues(v, keys, keys + PathKeys(now, p, id), RealValue(f));
    }
  }

  lemma PathKeysNoneAt(nums: Nums, p: string, id: Id)
    requires p !in Paths(nums)
    ensures PathKeys(nums, p, id) == {}
  {
  }

  lemma TwoKeys(keys: set<string>, keys': set<string>, g: Float, h: Float, id: Id)
    requires g != h && keys <= keys' && {NumKey(g, id), NumKey(h, id)} <= keys' - keys
    ensures |keys'| >= |keys| + 2
  {
    NumKeyRoundTrip(g, id);
    NumKeyRoundTrip(h, id);
    assert keys' == keys + (keys' - keys);
    SubsetSize({NumKey(g, id), NumKey(h, id)}, keys' - keys);
  }

  lemma {:induction false} PathMoveExact(st: Aggregates, st': Aggregates, num: map<string, set<string>>,
                                         num': map<string, set<string>>, id: Id, was: Nums, now: Nums, p: string)
    requires PathExact(st, num, p) && PathMoved(st, st', was, now, p)
    requires At(num', p) == At(num, p) - PathKeys(was, p, id) + PathKeys(now, p, id)
    requires p !in Paths(was) ==> PathKeys(now, p, id) !! At(num, p)
    requires forall q :: q in now ==> Finite(q.1)
    ensures PathExact(st', num', p) <==> (Incremental(st, was, now, p) ==> SingleValue(now, p))
  {
    if p !in Paths(was) {
      PathKeysNoneAt(was, p, id);
      if p in Paths(now) {
        var f :| (p, f) in now && StatAt(st', p) == Fresh(StatAt(st, p), f);
        assert At(num', p) == At(num, p) + PathKeys(now, p, id);
        if !StatAt(st, p).stale {
          IncrementExact(StatAt(st, p), At(num, p), now, p, id, f);
        }
      } else {
        PathKeysNoneAt(now, p, id);
        assert At(num', p) == At(num, p);
      }
    }
  }

  /**
   Exactly when a committed write keeps the aggregates right: every path that takes the incremental
   step carries one value in the new document.
   */
  lemma {:induction false} StatsMoveExact(st: Aggregates, st': Aggregates, num: map<string, set<string>>,
                                          num': map<string, set<string>>, id: Id, was: Nums, now: Nums)
    requires StatsExact(st, num) && StatsMoved(st, st', was, now) && NumsMoved(num, num', id, was, now)
    requires forall p :: p !in Paths(was) ==> PathKeys(now, p, id) !! At(num, p)
    requires forall q :: q in now ==> Finite(q.1)
    ensures StatsExact(st', num') <==> forall p :: Incremental(st, was, now, p) ==> SingleValue(now, p)
  {
    forall p ensures PathExact(st', num', p) <==> (Incremental(st, was, now, p) ==> SingleValue(now, p)) {
      assert PathExact(st, num, p) && PathMoved(st, st', was, now, p);
      PathMoveExact(st, st', num, num', id, was, now, p);
    }
  }

  class StatsIndex {
    var bucket: Aggregates

    constructor ()
      ensures bucket == map[]
    {
      bucket := map[];
    }

    method MarkStale(p: string)
      modifies this
      ensures bucket == old(bucket)[p := MarkedStale(StatAt(old(bucket), p))]
    {
      var v := if p in bucket then bucket[p] else ZERO.(stale := true);
      bucket := bucket[p := v.(stale := true)];
    }

    method AddFresh(p: string, f: Float)
      modifies this
      ensures bucket == if Finite(f) then old(bucket)[p := Fresh(StatAt(old(bucket), p), f)] else old(bucket)
    {
      if !Finite(f) { return; }
      var v := StatAt(bucket, p);
      if !v.stale {
        v := Welford(v, RealValue(f));
      }
      bucket := bucket[p := v];
    }

    /** The by-path maps of the hook: the last value at a path wins. */
    static method ByPath(nums: seq<(string, Float)>) returns (m: map<string, Float>)
      requires forall q :: q in nums ==> Finite(q.1)
      ensures m.Keys == Paths(Elems(nums)) && forall p :: p in m ==> (p, m[p]) in Elems(nums)
    {
      m := map[];
      for n := 0 to |nums|
        invariant m.Keys == Paths(Elems(nums[..n])) && forall p :: p in m ==> (p, m[p]) in Elems(nums[..n])
      {
        ElemsAppend(nums, n);
        m := m[nums[n].0 := nums[n].1];
      }
      assert nums[..|nums|] == nums;
    }

    method MarkAll(paths: set<string>)
      modifies this
      ensures bucket.Keys == old(bucket).Keys + paths
      ensures forall p :: StatAt(bucket, p) ==
                if p in paths then MarkedStale(StatAt(old(bucket), p)) else StatAt(old(bucket), p)
    {
      var todo := paths;
      while todo != {}
        invariant todo <= paths && bucket.Keys == old(bucket).Keys + (paths - todo)
        invariant forall p :: StatAt(bucket, p) ==
                    if p in paths - todo then MarkedStale(StatAt(old(bucket), p)) else StatAt(old(bucket), p)
      {
        var p :| p in todo;
        MarkStale(p);
        todo := todo - {p};
      }
    }

    method AddAll(values: map<string, Float>, paths: set<string>)
      requires paths <= values.Keys && forall p :: p in paths ==> Finite(values[p])
      modifies this
      ensures bucket.Keys == old(bucket).Keys + paths
      ensures forall p :: StatAt(bucket, p) ==
                if p in paths then Fresh(StatAt(old(bucket), p), values[p]) else StatAt(old(bucket), p)
    {
      var todo := paths;
      while todo != {}
        invariant todo <= paths && bucket.Keys == old(bucket).Keys + (paths - todo)
        invariant forall p :: StatAt(bucket, p) ==
                    if p in paths - todo then Fresh(StatAt(old(bucket), p), values[p]) else StatAt(old(bucket), p)
      {
        var p :| p in todo;
        AddFresh(p, values[p]);
        todo := todo - {p};
      }
    }

    /** updateStatsIndex. */
    method Apply(was: seq<(string, Float)>, now: seq<(string, Float)>)
      requires forall q :: q in was || q in now ==> Finite(q.1)
      modifies this
      ensures StatsMoved(old(bucket), bucket, Elems(was), Elems(now))
    {
      var oldByPath := ByPath(was);
      var newByPath := ByPath(now);
      assert forall p :: p in newByPath ==> Finite((p, newByPath[p]).1);
      MarkAll(oldByPath.Keys);
      AddAll(newByPath, newByPath.Keys - oldByPath.Keys);
    }

    static method Scan(keys: set<string>) returns (v: Stat)
      requires WellFormed(keys)
      ensures Describes(v, KeyValues(keys)) && !v.stale
    {
      v := ZERO;
      var cursor := Cursor(keys);
      NothingDescribed();
      assert cursor[..0] == [];
      for n := 0 to |cursor|
        invariant Describes(v, KeyValues(Elems(cursor[..n]))) && !v.stale
      {
        RecomputeStep(v, cursor, n);
        v := Welford(v, RealValue(KeyValue(cursor[n])));
      }
      assert cursor[..|cursor|] == cursor;
    }

    /** statsRecompute over a numeric bucket, in key order; None is a missing bucket. */
    method Recompute(p: string, keys: Option<set<string>>) returns (v: Stat)
      requires keys.Some? ==> WellFormed(keys.value)
      modifies this
      ensures keys.None? ==> v == ZERO && bucket == old(bucket)
      ensures keys.Some? ==> Describes(v, KeyValues(keys.value)) && !v.stale && bucket == old(bucket)[p := v]
    {
      if keys.None? { return ZERO; }
      v := Scan(keys.value);
      bucket := bucket[p := v];
    }

    /** statsRead: recompute when stale, else answer from the bucket. */
    method Read(p: string, keys: Option<set<string>>) returns (v: Stat)
      requires keys.Some? ==> WellFormed(keys.value)
      modifies this
      ensures !StatAt(old(bucket), p).stale ==> v == StatAt(old(bucket), p) && bucket == old(bucket)
      ensures StatAt(old(bucket), p).stale && keys.None? ==> v == ZERO && bucket == old(bucket)
      ensures StatAt(old(bucket), p).stale && keys.Some? ==>
                Describes(v, KeyValues(keys.value)) && !v.stale && bucket == old(bucket)[p := v]
    {
      v := StatAt(bucket, p);
      if v.stale {
        v := Recompute(p, keys);
      }
    }
  }

  lemma NothingDescribed()
    ensures Describes(ZERO, KeyValues(Elems<string>([])))
  {
    assert KeyValues(Elems<string>([])) == map[] && Squares<string>(map[], 0.0) == map[];
  }

  lemma {:induction false} RecomputeStep(v: Stat, keys: seq<string>, n: int)
    requires Sorted(keys) && 0 <= n < |keys| && WellFormed(Elems(keys))
    requires Describes(v, KeyValues(Elems(keys[..n])))
    ensures |keys[n]| == 12 && FromBigEndian(keys[n][..8]) < TWO_64
    ensures Describes(Welford(v, RealValue(KeyValue(keys[n]))), KeyValues(Elems(keys[..n + 1])))
  {
    var f, id := Parts(keys, n);
    NumKeyRoundTrip(f, id);
    ElemsAppend(keys, n);
    NewKey(keys, n);
    OneValue(v, Elems(keys[..n]), f, id);
  }

  lemma NewKey(keys: seq<string>, n: int)
    requires Sorted(keys) && 0 <= n < |keys|
    ensures keys[n] !in Elems(keys[..n])
  {
    Irreflexive(keys[n]);
  }

  // ---------- renaming ----------

  /** us is vs under other names. */
  ghost predicate Renamed<K, L>(vs: Values<K>, us: Values<L>, r: map<K, L>) {
    && r.Keys == vs.Keys && r.Values == us.Keys
    && (forall j, k :: j in r && k in r && r[j] == r[k] ==> j == k)
    && (forall k :: k in vs ==> r[k] in us && us[r[k]] == vs[k])
  }

  lemma {:induction false} RenamedWithout<K, L>(vs: Values<K>, us: Values<L>, r: map<K, L>, k: K)
    requires Renamed(vs, us, r) && k in vs
    ensures Renamed(vs - {k}, us - {r[k]}, r - {k})
  {
    forall l | l in us && l != r[k] ensures l in (r - {k}).Values {
      var j :| j in r && r[j] == l;
      assert j in r - {k} && (r - {k})[j] == l;
    }
  }

  lemma {:induction false} RenamedSum<K, L>(vs: Values<K>, us: Values<L>, r: map<K, L>)
    requires Renamed(vs, us, r)
    ensures |vs| == |us| && Sum(vs) == Sum(us)
    decreases |vs|
  {
    if vs == map[] {
      assert us.Keys == {};
    } else {
      var k :| k in vs;
      RenamedWithout(vs, us, r, k);
      CardStep(vs, k);
      CardStep(us, r[k]);
      RenamedSum(vs - {k}, us - {r[k]}, r - {k});
      SumPick(vs, k);
      SumPick(us, r[k]);
    }
  }

  lemma RenamedSquares<K, L>(vs: Values<K>, us: Values<L>, r: map<K, L>, c: real)
    requires Renamed(vs, us, r)
    ensures Renamed(Squares(vs, c), Squares(us, c), r)
  {
  }

  lemma {:induction false} RenamedBrackets<K, L>(s: Stat, vs: Values<K>, us: Values<L>, r: map<K, L>)
    requires Renamed(vs, us, r) && |vs| == |us|
    ensures Brackets(s, vs) <==> Brackets(s, us)
  {
    forall l | l in us ensures exists k :: k in vs && r[k] == l && vs[k] == us[l] {
      assert l in r.Values;
    }
    assert vs == map[] <==> us == map[];
  }

  /** Statistics do not depend on the names of the values. */
  lemma {:induction false} RenamedDescribes<K, L>(s: Stat, vs: Values<K>, us: Values<L>, r: map<K, L>)
    requires Renamed(vs, us, r)
    ensures Describes(s, vs) <==> Describes(s, us)
  {
    RenamedSum(vs, us, r);
    RenamedSquares(vs, us, r, Mean(vs));
    assert Mean(vs) == Mean(us);
    RenamedSum(Squares(vs, Mean(vs)), Squares(us, Mean(vs)), r);
    RenamedBrackets(s, vs, us, r);
  }
}
