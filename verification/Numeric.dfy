/** Numeric range index: per attribute, byte-sortable (value, id) keys (bboltstore/numidx.go and its hook). */
module Numeric {
  import opened Order
  import opened Float64
  import opened Documents
  import opened Postings

  type Nums = set<(string, Float)>

  ghost function PathKeys(nums: Nums, attr: string, id: Id): set<string> {
    set p | p in nums && p.0 == attr && Finite(p.1) :: NumKey(p.1, id)
  }

  ghost function Paths(nums: Nums): set<string> {
    set p | p in nums && Finite(p.1) :: p.0
  }

  /** num' is num without a document's old keys and with its new ones; emptied buckets stay. */
  ghost predicate NumsMoved(num: map<string, set<string>>, num': map<string, set<string>>, id: Id, was: Nums,
                            now: Nums) {
    && num'.Keys == num.Keys + Paths(now)
    && forall a :: At(num', a) == At(num, a) - PathKeys(was, a, id) + PathKeys(now, a, id)
  }

  ghost predicate WellFormed(keys: set<string>) {
    forall k :: k in keys ==> exists f: Float, id: Id :: Finite(f) && k == NumKey(f, id)
  }

  /** What the cursor loop accepts: byte order against the bounds, then float equality for open ends. */
  predicate InScan(v: Float, min: Float, max: Float, minEx: bool, maxEx: bool) {
    && Sortable(min) <= Sortable(v) <= Sortable(max)
    && !(minEx && Value(v) == Value(min))
    && !(maxEx && Value(v) == Value(max))
  }

  /** What the caller asks for. */
  predicate InRange(v: Float, min: Float, max: Float, minEx: bool, maxEx: bool) {
    && (if minEx then Value(min) < Value(v) else Value(min) <= Value(v))
    && (if maxEx then Value(v) < Value(max) else Value(v) <= Value(max))
  }

  /** A zero of one sign against a closed bound that is the zero of the other sign, on the wrong side. */
  predicate ZeroMissed(v: Float, min: Float, max: Float) {
    (v == NEG_ZERO && min == POS_ZERO) || (v == POS_ZERO && max == NEG_ZERO)
  }

  /** The scan accepts a value exactly when it is in range and is not a zero the bounds split off. */
  lemma {:induction false} ScanIsRange(v: Float, min: Float, max: Float, minEx: bool, maxEx: bool)
    ensures InScan(v, min, max, minEx, maxEx) <==> InRange(v, min, max, minEx, maxEx) && !ZeroMissed(v, min, max)
  {
    SortableOrder(v, min);
    SortableOrder(max, v);
    assert Magnitude(POS_ZERO) == 0 && Magnitude(NEG_ZERO) == 0;
  }

  ghost function ScanIds(keys: set<string>, min: Float, max: Float, minEx: bool, maxEx: bool): set<Id> {
    set f: Float, id: Id | NumKey(f, id) in keys && InScan(f, min, max, minEx, maxEx) :: id
  }

  lemma ScanStep(keys: set<string>, f: Float, id: Id, min: Float, max: Float, minEx: bool, maxEx: bool)
    ensures ScanIds(keys + {NumKey(f, id)}, min, max, minEx, maxEx)
         == ScanIds(keys, min, max, minEx, maxEx) + if InScan(f, min, max, minEx, maxEx) then {id} else {}
  {
    forall g: Float, j: Id | NumKey(g, j) == NumKey(f, id) ensures g == f && j == id {
      NumKeyInjective(g, j, f, id);
    }
  }

  /** Keys before the seek position or past the upper bound are never accepted. */
  lemma OutsideBounds(f: Float, id: Id, min: Float, max: Float, minEx: bool, maxEx: bool)
    requires Less(NumKey(f, id), NumKey(min, 0)) || Less(NumKey(max, TWO_32 - 1), NumKey(f, id))
    ensures !InScan(f, min, max, minEx, maxEx)
  {
    NumKeyOrder(f, id, min, 0);
    NumKeyOrder(max, TWO_32 - 1, f, id);
  }

  lemma Parts(keys: seq<string>, n: int) returns (f: Float, id: Id)
    requires 0 <= n < |keys| && WellFormed(Elems(keys))
    ensures Finite(f) && keys[n] == NumKey(f, id)
  {
    assert keys[n] in Elems(keys);
    f, id :| Finite(f) && keys[n] == NumKey(f, id);
  }

  lemma RestRejected(keys: seq<string>, n: int, min: Float, max: Float, minEx: bool, maxEx: bool)
    requires 0 <= n <= |keys| && Sorted(keys)
    requires n < |keys| ==> Less(NumKey(max, TWO_32 - 1), keys[n])
    ensures ScanIds(Elems(keys), min, max, minEx, maxEx) == ScanIds(Elems(keys[..n]), min, max, minEx, maxEx)
  {
    forall i, f: Float, id: Id | n <= i < |keys| && keys[i] == NumKey(f, id)
      ensures !InScan(f, min, max, minEx, maxEx)
    {
      if i > n { Transitive(NumKey(max, TWO_32 - 1), keys[n], keys[i]); }
      OutsideBounds(f, id, min, max, minEx, maxEx);
    }
  }

  lemma PathKeysNone(id: Id)
    ensures Paths({}) == {} && forall a :: PathKeys({}, a, id) == {}
  {
  }

  lemma PathKeysStep(nums: Nums, p: (string, Float), a: string, id: Id)
    ensures PathKeys(nums + {p}, a, id)
         == PathKeys(nums, a, id) + if p.0 == a && Finite(p.1) then {NumKey(p.1, id)} else {}
    ensures Paths(nums + {p}) == Paths(nums) + if Finite(p.1) then {p.0} else {}
  {
  }

  ghost function Inserted(num: map<string, set<string>>, p: (string, Float), id: Id): map<string, set<string>> {
    if Finite(p.1) then num[p.0 := At(num, p.0) + {NumKey(p.1, id)}] else num
  }

  lemma InsertStep(num: map<string, set<string>>, cur: map<string, set<string>>, id: Id, now: Nums, p: (string, Float))
    requires NumsMoved(num, cur, id, {}, now)
    ensures NumsMoved(num, Inserted(cur, p, id), id, {}, now + {p})
  {
    var next := Inserted(cur, p, id);
    PathKeysNone(id);
    forall a ensures At(next, a) == At(num, a) - PathKeys({}, a, id) + PathKeys(now + {p}, a, id) {
      PathKeysStep(now, p, a, id);
      assert At(cur, a) == At(num, a) - PathKeys({}, a, id) + PathKeys(now, a, id);
    }
    PathKeysStep(now, p, p.0, id);
  }

  class NumericIndex {
    var buckets: map<string, set<string>>

    constructor ()
      ensures buckets == map[]
    {
      buckets := map[];
    }

    method Add(attr: string, v: Float, id: Id)
      modifies this
      ensures buckets == Inserted(old(buckets), (attr, v), id)
    {
      if Finite(v) {
        buckets := buckets[attr := At(buckets, attr) + {NumKey(v, id)}];
      }
    }

    method Remove(attr: string, v: Float, id: Id)
      modifies this
      ensures buckets == if !Finite(v) || attr !in old(buckets) then old(buckets)
                         else old(buckets)[attr := old(buckets)[attr] - {NumKey(v, id)}]
    {
      if Finite(v) && attr in buckets {
        buckets := buckets[attr := buckets[attr] - {NumKey(v, id)}];
      }
    }

    method RemoveAll(id: Id, was: seq<(string, Float)>)
      modifies this
      ensures NumsMoved(old(buckets), buckets, id, Elems(was), {})
    {
      PathKeysNone(id);
      for n := 0 to |was|
        invariant NumsMoved(old(buckets), buckets, id, Elems(was[..n]), {})
      {
        ElemsAppend(was, n);
        forall a { PathKeysStep(Elems(was[..n]), was[n], a, id); }
        Remove(was[n].0, was[n].1, id);
      }
      assert was[..|was|] == was;
    }

    method AddAll(id: Id, now: seq<(string, Float)>)
      modifies this
      ensures NumsMoved(old(buckets), buckets, id, {}, Elems(now))
    {
      PathKeysNone(id);
      for n := 0 to |now|
        invariant NumsMoved(old(buckets), buckets, id, {}, Elems(now[..n]))
      {
        ElemsAppend(now, n);
        InsertStep(old(buckets), buckets, id, Elems(now[..n]), now[n]);
        Add(now[n].0, now[n].1, id);
      }
      assert now[..|now|] == now;
    }

    /** updateNumericIndex: remove every old key, then insert every new one. */
    method Apply(id: Id, was: seq<(string, Float)>, now: seq<(string, Float)>)
      modifies this
      ensures NumsMoved(old(buckets), buckets, id, Elems(was), Elems(now))
    {
      PathKeysNone(id);
      RemoveAll(id, was);
      AddAll(id, now);
    }

    /** numIndexRange: None is the error for a bound that is not finite. */
    method Range(attr: string, min: Float, max: Float, minEx: bool, maxEx: bool) returns (r: Option<set<Id>>)
      requires WellFormed(At(buckets, attr))
      ensures r.None? <==> !Finite(min) || !Finite(max)
      ensures r.Some? ==> r.value == ScanIds(At(buckets, attr), min, max, minEx, maxEx)
    {
      if !Finite(min) || !Finite(max) { return None; }
      SortableOrder(max, min);
      if Value(min) > Value(max) { return Some({}); }
      var keys := Cursor(At(buckets, attr));
      var lo, hi := NumKey(min, 0), NumKey(max, TWO_32 - 1);
      var n := 0;
      while n < |keys| && Less(keys[n], lo)
        invariant 0 <= n <= |keys|
        invariant ScanIds(Elems(keys[..n]), min, max, minEx, maxEx) == {}
      {
        ghost var f, id := Parts(keys, n);
        OutsideBounds(f, id, min, max, minEx, maxEx);
        ScanStep(Elems(keys[..n]), f, id, min, max, minEx, maxEx);
        ElemsAppend(keys, n);
        n := n + 1;
      }
      ghost var start := n;
      var acc: set<Id> := {};
      while n < |keys| && !Less(hi, keys[n])
        invariant start <= n <= |keys|
        invariant acc == ScanIds(Elems(keys[..n]), min, max, minEx, maxEx)
      {
        ghost var f, id := Parts(keys, n);
        ScanStep(Elems(keys[..n]), f, id, min, max, minEx, maxEx);
        ElemsAppend(keys, n);
        NumKeyRoundTrip(f, id);
        NotBefore(keys, lo, start, n);
        NumKeyOrder(f, id, min, 0);
        NumKeyOrder(max, TWO_32 - 1, f, id);
        var entry := KeyValue(keys[n]);
        if !(minEx && Value(entry) == Value(min)) && !(maxEx && Value(entry) == Value(max)) {
          acc := acc + {KeyId(keys[n])};
        }
        n := n + 1;
      }
      RestRejected(keys, n, min, max, minEx, maxEx);
      r := Some(acc);
    }
  }

  // ---------- agreement with the live documents ----------

  ghost function NumHolders(view: map<string, Nums>, ids: map<string, Id>, a: string): set<string>
    requires view.Keys <= ids.Keys
  {
    set d, p | d in view && p in view[d] && p.0 == a && Finite(p.1) :: NumKey(p.1, ids[d])
  }

  ghost predicate NumAgrees(num: map<string, set<string>>, view: map<string, Nums>, ids: map<string, Id>) {
    && view.Keys <= ids.Keys
    && forall a :: At(num, a) == NumHolders(view, ids, a)
  }

  ghost function NumsAt(view: map<string, Nums>, d: string): Nums {
    if d in view then view[d] else {}
  }

  lemma NumHoldersAfter(view: map<string, Nums>, ids: map<string, Id>, d: string, now: Nums, a: string)
    requires view.Keys <= ids.Keys && Injective(ids) && d in ids
    ensures NumHolders(view[d := now], ids, a)
         == NumHolders(view, ids, a) - PathKeys(NumsAt(view, d), a, ids[d]) + PathKeys(now, a, ids[d])
  {
    var view' := view[d := now];
    var was := PathKeys(NumsAt(view, d), a, ids[d]);
    forall c, p | c in view && c != d && p in view[c] && p.0 == a && Finite(p.1)
      ensures NumKey(p.1, ids[c]) in NumHolders(view', ids, a) && NumKey(p.1, ids[c]) !in was
    {
      assert c in view' && p in view'[c];
      forall q: Float ensures NumKey(q, ids[d]) != NumKey(p.1, ids[c]) {
        NumKeyRoundTrip(q, ids[d]);
        NumKeyRoundTrip(p.1, ids[c]);
      }
    }
    forall p | p in now && p.0 == a && Finite(p.1) ensures NumKey(p.1, ids[d]) in NumHolders(view', ids, a) {
      assert d in view' && p in view'[d];
    }
  }

  /** Remove-then-add moves the document's keys, so the buckets keep agreeing with the live documents. */
  lemma {:induction false} NumReplace(num: map<string, set<string>>, num': map<string, set<string>>,
                                      view: map<string, Nums>, ids: map<string, Id>, d: string, now: Nums)
    requires NumAgrees(num, view, ids) && Injective(ids) && d in ids
    requires NumsMoved(num, num', ids[d], NumsAt(view, d), now)
    ensures NumAgrees(num', view[d := now], ids)
  {
    forall a ensures At(num', a) == NumHolders(view[d := now], ids, a) {
      NumHoldersAfter(view, ids, d, now, a);
      assert At(num, a) == NumHolders(view, ids, a);
    }
  }

  lemma NumForget(num: map<string, set<string>>, view: map<string, Nums>, ids: map<string, Id>, d: string)
    requires d in view && view[d] == {} && NumAgrees(num, view, ids)
    ensures NumAgrees(num, view - {d}, ids)
  {
    forall a ensures NumHolders(view - {d}, ids, a) == NumHolders(view, ids, a) {
    }
  }

  lemma NumExtend(num: map<string, set<string>>, view: map<string, Nums>, ids: map<string, Id>, ids': map<string, Id>)
    requires NumAgrees(num, view, ids)
    requires ids.Keys <= ids'.Keys && forall d :: d in ids ==> ids'[d] == ids[d]
    ensures NumAgrees(num, view, ids')
  {
    forall a ensures NumHolders(view, ids', a) == NumHolders(view, ids, a) {
    }
  }

  lemma BucketsWellFormed(num: map<string, set<string>>, view: map<string, Nums>, ids: map<string, Id>, a: string)
    requires NumAgrees(num, view, ids)
    ensures WellFormed(At(num, a))
  {
    assert At(num, a) == NumHolders(view, ids, a);
  }

  ghost predicate ScansValue(nums: Nums, a: string, min: Float, max: Float, minEx: bool, maxEx: bool) {
    exists v: Float :: (a, v) in nums && Finite(v) && InScan(v, min, max, minEx, maxEx)
  }

  ghost function Scanned(view: map<string, Nums>, a: string, min: Float, max: Float, minEx: bool,
                         maxEx: bool): set<string> {
    set d | d in view && ScansValue(view[d], a, min, max, minEx, maxEx)
  }

  /** The scan of an agreeing bucket finds exactly the documents with an accepted value. */
  lemma {:induction false} ScanFindsHolders(num: map<string, set<string>>, view: map<string, Nums>,
                                            ids: map<string, Id>, a: string, min: Float, max: Float, minEx: bool,
                                            maxEx: bool)
    requires NumAgrees(num, view, ids)
    ensures ScanIds(At(num, a), min, max, minEx, maxEx) == Image(ids, Scanned(view, a, min, max, minEx, maxEx))
  {
    assert At(num, a) == NumHolders(view, ids, a);
    forall f: Float, id: Id | NumKey(f, id) in At(num, a) && InScan(f, min, max, minEx, maxEx)
      ensures exists d :: d in view && ScansValue(view[d], a, min, max, minEx, maxEx) && ids[d] == id
    {
      var d: string, p: (string, Float) :| d in view && p in view[d] && p.0 == a && Finite(p.1) &&
          NumKey(f, id) == NumKey(p.1, ids[d]);
      NumKeyInjective(f, id, p.1, ids[d]);
      assert (a, p.1) in view[d];
    }
    forall d | d in view && ScansValue(view[d], a, min, max, minEx, maxEx)
      ensures ids[d] in ScanIds(At(num, a), min, max, minEx, maxEx)
    {
      var v: Float :| (a, v) in view[d] && Finite(v) && InScan(v, min, max, minEx, maxEx);
      assert NumKey((a, v).1, ids[d]) in NumHolders(view, ids, a);
    }
  }
}
