/** Whole runs of the store, and what every answer means in every state a run can reach. */
module Runs {
  import opened Order
  import opened Float64
  import opened Documents
  import opened IdMaps
  import opened Postings
  import Inverted
  import opened Numeric
  import opened Groups
  import opened Engine

  datatype Op = Put(d: string, doc: Doc) | Delete(d: string) | ReadStats(p: string)

  ghost predicate Committed(h: Host, s: State, op: Op, t: State) {
    match op
    case Put(d, doc) => PutTx(h, s, d, doc, t)
    case Delete(d) => DeleteTx(h, s, d, t)
    case ReadStats(p) => StatsTx(s, p, t)
  }

  /** Any transaction may also be rolled back, leaving no trace. */
  ghost predicate Step(h: Host, s: State, op: Op, t: State) {
    t == s || Committed(h, s, op, t)
  }

  ghost predicate IsRun(h: Host, ops: seq<Op>, trace: seq<State>) {
    && |trace| == |ops| + 1 && trace[0] == INIT
    && forall i :: 0 <= i < |ops| ==> StepAt(h, ops, trace, i)
  }

  ghost predicate StepAt(h: Host, ops: seq<Op>, trace: seq<State>, i: int)
    requires 0 <= i < |ops| && |trace| == |ops| + 1
  {
    Step(h, trace[i], ops[i], trace[i + 1])
  }

  lemma StepInv(h: Host, s: State, op: Op, t: State)
    requires Inv(h, s) && Step(h, s, op, t)
    ensures Inv(h, t)
  {
    if t != s {
      match op
      case Put(d, doc) => PutInv(h, s, d, doc, t);
      case Delete(d) => DeleteInv(h, s, d, t);
      case ReadStats(p) =>
    }
  }

  /** In every state of every run, every index is the brute-force reading of the live documents. */
  lemma {:induction false} RunInv(h: Host, ops: seq<Op>, trace: seq<State>, n: nat)
    requires IsRun(h, ops, trace) && n <= |ops|
    ensures Inv(h, trace[n])
  {
    if n == 0 {
      InitInv(h);
    } else {
      RunInv(h, ops, trace, n - 1);
      assert StepAt(h, ops, trace, n - 1);
      StepInv(h, trace[n - 1], ops[n - 1], trace[n]);
    }
  }

  /** What a step does to the documents. */
  lemma StepDocs(h: Host, s: State, op: Op, t: State)
    requires Step(h, s, op, t)
    ensures t.docs == s.docs || (op.Put? && t.docs == s.docs[op.d := op.doc]) ||
            (op.Delete? && t.docs == s.docs - {op.d})
  {
  }

  lemma StepIdsStable(h: Host, s: State, op: Op, t: State, d: string)
    requires Valid(s.ids) && Step(h, s, op, t) && d in s.ids.fwd
    ensures d in t.ids.fwd && t.ids.fwd[d] == s.ids.fwd[d]
  {
    if t != s && op.Put? { AssignKeeps(s.ids, op.d); }
  }

  lemma {:induction false} NextIdsStable(h: Host, ops: seq<Op>, trace: seq<State>, n: nat, d: string)
    requires IsRun(h, ops, trace) && n < |ops| && d in trace[n].ids.fwd
    ensures d in trace[n + 1].ids.fwd && trace[n + 1].ids.fwd[d] == trace[n].ids.fwd[d]
  {
    RunInv(h, ops, trace, n);
    assert StepAt(h, ops, trace, n);
    StepIdsStable(h, trace[n], ops[n], trace[n + 1], d);
  }

  /** An id once assigned never changes. */
  lemma {:induction false} RunIdsStable(h: Host, ops: seq<Op>, trace: seq<State>, i: nat, j: nat, d: string)
    requires IsRun(h, ops, trace) && i <= j <= |ops| && d in trace[i].ids.fwd
    ensures d in trace[j].ids.fwd && trace[j].ids.fwd[d] == trace[i].ids.fwd[d]
    decreases j
  {
    if i < j {
      RunIdsStable(h, ops, trace, i, j - 1, d);
      NextIdsStable(h, ops, trace, j - 1, d);
    }
  }

  /** So the id keeps leading back to the same document, and is never given to another one. */
  lemma {:induction false} RunIdsNeverReused(h: Host, ops: seq<Op>, trace: seq<State>, i: nat, j: nat, d: string)
    requires IsRun(h, ops, trace) && i <= j <= |ops| && d in trace[i].ids.fwd
    ensures var id, later := trace[i].ids.fwd[d], trace[j].ids;
            id in later.rev && later.rev[id] == d && forall e :: e in later.fwd && later.fwd[e] == id ==> e == d
  {
    RunIdsStable(h, ops, trace, i, j, d);
    RunInv(h, ops, trace, j);
  }

  // ---------- batches ----------

  /** A committed batch is a run of single puts from its first state to its last. */
  ghost predicate PutChain(h: Host, items: seq<(string, Doc)>, trace: seq<State>) {
    && |trace| == |items| + 1
    && forall i :: 0 <= i < |items| ==> PutAt(h, items, trace, i)
  }

  ghost predicate PutAt(h: Host, items: seq<(string, Doc)>, trace: seq<State>, i: int)
    requires 0 <= i < |items| && |trace| == |items| + 1
  {
    PutTx(h, trace[i], items[i].0, items[i].1, trace[i + 1])
  }

  lemma {:induction false} ChainAppend(h: Host, items: seq<(string, Doc)>, trace: seq<State>, item: (string, Doc),
                                       t: State)
    requires PutChain(h, items, trace) && PutTx(h, trace[|items|], item.0, item.1, t)
    ensures PutChain(h, items + [item], trace + [t])
  {
    var all, longer := items + [item], trace + [t];
    forall i | 0 <= i < |all| ensures PutAt(h, all, longer, i) {
      if i < |items| {
        assert PutAt(h, items, trace, i);
        assert longer[i] == trace[i] && longer[i + 1] == trace[i + 1] && all[i] == items[i];
      }
    }
  }

  lemma {:induction false} BatchLast(h: Host, s: State, items: seq<(string, Doc)>, t: State) returns (m: State)
    requires items != [] && BatchTx(h, s, items, t)
    ensures BatchTx(h, s, items[..|items| - 1], m) && PutTx(h, m, items[|items| - 1].0, items[|items| - 1].1, t)
  {
    m :| BatchTx(h, s, items[..|items| - 1], m) && PutTx(h, m, items[|items| - 1].0, items[|items| - 1].1, t);
  }

  lemma {:induction false} BatchIsPuts(h: Host, s: State, items: seq<(string, Doc)>, t: State)
    returns (trace: seq<State>)
    requires BatchTx(h, s, items, t)
    ensures PutChain(h, items, trace) && trace[0] == s && trace[|items|] == t
    decreases |items|
  {
    if items == [] {
      trace := [s];
    } else {
      var n := |items| - 1;
      var m := BatchLast(h, s, items, t);
      var init := BatchIsPuts(h, s, items[..n], m);
      trace := init + [t];
      SplitLast(items);
      ChainAppend(h, items[..n], init, items[n], t);
    }
  }

  ghost function WithItems(docs: map<string, Doc>, items: seq<(string, Doc)>): map<string, Doc>
    decreases |items|
  {
    if items == [] then docs
    else var last := items[|items| - 1]; WithItems(docs, items[..|items| - 1])[last.0 := last.1]
  }

  lemma {:induction false} BatchInv(h: Host, s: State, items: seq<(string, Doc)>, t: State)
    requires Inv(h, s) && BatchTx(h, s, items, t)
    ensures Inv(h, t) && t.docs == WithItems(s.docs, items)
    decreases |items|
  {
    if items != [] {
      var n := |items| - 1;
      var m := BatchLast(h, s, items, t);
      BatchInv(h, s, items[..n], m);
      PutInv(h, m, items[n].0, items[n].1, t);
    }
  }

  ghost predicate Named(items: seq<(string, Doc)>, d: string) {
    exists i :: 0 <= i < |items| && items[i].0 == d
  }

  ghost predicate OnceEach(order: seq<(string, Doc)>) {
    forall i, j :: 0 <= i < j < |order| ==> order[i].0 != order[j].0
  }

  /** Entries of the batch, each at most once. */
  ghost predicate FromBatch(order: seq<(string, Doc)>, batch: map<string, Doc>) {
    && OnceEach(order)
    && forall i :: 0 <= i < |order| ==> order[i].0 in batch && batch[order[i].0] == order[i].1
  }

  /** `order` visits each entry of the batch exactly once. */
  ghost predicate Visits(order: seq<(string, Doc)>, batch: map<string, Doc>) {
    FromBatch(order, batch) && forall d :: d in batch ==> Named(order, d)
  }

  lemma {:induction false} WithItemsAt(docs: map<string, Doc>, items: seq<(string, Doc)>, batch: map<string, Doc>)
    requires forall i :: 0 <= i < |items| ==> items[i].0 in batch && batch[items[i].0] == items[i].1
    ensures forall d :: d in WithItems(docs, items) <==> d in docs || Named(items, d)
    ensures forall d :: d in WithItems(docs, items) ==>
              WithItems(docs, items)[d] == if Named(items, d) then batch[d] else docs[d]
    decreases |items|
  {
    if items != [] {
      var n := |items| - 1;
      WithItemsAt(docs, items[..n], batch);
      assert items == items[..n] + [items[n]];
      forall d ensures Named(items, d) <==> d == items[n].0 || Named(items[..n], d) {
        NamedLast(items[..n], items[n], d);
      }
    }
  }

  lemma NamedLast(order: seq<(string, Doc)>, item: (string, Doc), d: string)
    ensures Named(order + [item], d) <==> d == item.0 || Named(order, d)
  {
    var all := order + [item];
    assert all[|order|] == item;
    if Named(order, d) {
      var i :| 0 <= i < |order| && order[i].0 == d;
      assert all[i].0 == d;
    }
  }

  lemma WithVisited(docs: map<string, Doc>, order: seq<(string, Doc)>, batch: map<string, Doc>)
    requires Visits(order, batch)
    ensures WithItems(docs, order) == docs + batch
  {
    WithItemsAt(docs, order, batch);
  }

  // ---------- answers ----------

  /** The documents behind a bitmap, as materialised through the reverse id map. */
  ghost function DocsOf(s: State, bm: set<Id>): set<string> {
    set e | e in bm && e in s.ids.rev :: s.ids.rev[e]
  }

  /** Every id in an index has a reverse entry, so materialising never reports an orphan. */
  lemma {:induction false} Materialises(s: State, ds: set<string>, bm: set<Id>)
    requires Valid(s.ids) && ds <= s.ids.fwd.Keys && bm == Image(s.ids.fwd, ds)
    ensures bm <= s.ids.rev.Keys && DocsOf(s, bm) == ds
  {
    forall d | d in ds ensures d in DocsOf(s, bm) {
      assert s.ids.fwd[d] in bm;
    }
  }

  ghost function Containing(h: Host, docs: map<string, Doc>, t: string): set<string> {
    set d | d in docs && t in Terms(h, docs[d])
  }

  ghost function ContainingPrefix(h: Host, docs: map<string, Doc>, p: string): set<string> {
    set d | d in docs && exists t :: t in Terms(h, docs[d]) && p <= t
  }

  /** Lookup(t) is exactly the live documents whose extracted terms contain t; no id is an orphan. */
  lemma {:induction false} LookupExact(h: Host, s: State, t: string)
    requires Inv(h, s)
    ensures At(s.inv, t) <= s.ids.rev.Keys && DocsOf(s, At(s.inv, t)) == Containing(h, s.docs, t)
  {
    var view := TermView(h, s.docs);
    assert At(s.inv, t) == Holders(view, s.ids.fwd, t);
    assert Holders(view, s.ids.fwd, t) == Image(s.ids.fwd, Containing(h, s.docs, t));
    Materialises(s, Containing(h, s.docs, t), At(s.inv, t));
  }

  /** LookupPrefix(p) is exactly the live documents with some term that starts with p. */
  lemma {:induction false} LookupPrefixExact(h: Host, s: State, p: string)
    requires Inv(h, s)
    ensures Inverted.WithPrefix(s.inv, p) <= s.ids.rev.Keys
    ensures DocsOf(s, Inverted.WithPrefix(s.inv, p)) == ContainingPrefix(h, s.docs, p)
  {
    var view, ds := TermView(h, s.docs), ContainingPrefix(h, s.docs, p);
    Inverted.PrefixHolders(s.inv, view, s.ids.fwd, p);
    forall d, k | d in view && k in view[d] && p <= k ensures d in ds {
    }
    forall d | d in ds ensures s.ids.fwd[d] in Inverted.WithPrefix(s.inv, p) {
      var k :| k in Terms(h, s.docs[d]) && p <= k;
      assert d in view && k in view[d];
    }
    Materialises(s, ds, Inverted.WithPrefix(s.inv, p));
  }

  /** The same sets, read off the documents' paths. */
  lemma {:induction false} ContainingRead(h: Host, docs: map<string, Doc>, t: string)
    ensures forall d :: d in Containing(h, docs, t) <==> d in docs && Carries(h, docs[d], t)
  {
    forall d | d in docs ensures t in Terms(h, docs[d]) <==> Carries(h, docs[d], t) {
      TermsSpelled(h, docs[d], t);
    }
  }

  lemma {:induction false} ContainingPrefixRead(h: Host, docs: map<string, Doc>, p: string)
    ensures forall d :: d in ContainingPrefix(h, docs, p) <==> d in docs && exists t :: Carries(h, docs[d], t) && p <= t
  {
    forall d, t | d in docs ensures t in Terms(h, docs[d]) <==> Carries(h, docs[d], t) {
      TermsSpelled(h, docs[d], t);
    }
  }

  /** Both lookups are the same whatever order a batch was visited in. */
  lemma {:induction false} BatchOrderIrrelevant(h: Host, s: State, batch: map<string, Doc>, a: seq<(string, Doc)>,
                                                t: State, b: seq<(string, Doc)>, u: State, term: string)
    requires Inv(h, s) && Visits(a, batch) && Visits(b, batch)
    requires BatchTx(h, s, a, t) && BatchTx(h, s, b, u)
    ensures t.docs == u.docs == s.docs + batch
    ensures DocsOf(t, At(t.inv, term)) == DocsOf(u, At(u.inv, term))
    ensures DocsOf(t, Inverted.WithPrefix(t.inv, term)) == DocsOf(u, Inverted.WithPrefix(u.inv, term))
  {
    BatchInv(h, s, a, t);
    BatchInv(h, s, b, u);
    WithVisited(s.docs, a, batch);
    WithVisited(s.docs, b, batch);
    LookupExact(h, t, term);
    LookupExact(h, u, term);
    LookupPrefixExact(h, t, term);
    LookupPrefixExact(h, u, term);
  }

  ghost predicate HasInRange(doc: Doc, a: string, min: Float, max: Float, minEx: bool, maxEx: bool) {
    exists v: Float :: (a, v) in NumsOf(doc) && InRange(v, min, max, minEx, maxEx)
  }

  /** Has a value in the range that no zero bound of the other sign splits off. */
  ghost predicate HasFound(doc: Doc, a: string, min: Float, max: Float, minEx: bool, maxEx: bool) {
    exists v: Float :: (a, v) in NumsOf(doc) && InRange(v, min, max, minEx, maxEx) && !ZeroMissed(v, min, max)
  }

  ghost function InRangeDocs(docs: map<string, Doc>, a: string, min: Float, max: Float, minEx: bool,
                             maxEx: bool): set<string> {
    set d | d in docs && HasInRange(docs[d], a, min, max, minEx, maxEx)
  }

  ghost function FoundDocs(docs: map<string, Doc>, a: string, min: Float, max: Float, minEx: bool,
                           maxEx: bool): set<string> {
    set d | d in docs && HasFound(docs[d], a, min, max, minEx, maxEx)
  }

  /**
   LookupNumericRange for finite bounds is exactly the live documents with a value in the range, zeros
   that the sign of a zero bound splits off aside.
   */
  lemma {:induction false} RangeExact(h: Host, s: State, a: string, min: Float, max: Float, minEx: bool, maxEx: bool)
    requires Inv(h, s)
    ensures ScanIds(At(s.num, a), min, max, minEx, maxEx) <= s.ids.rev.Keys
    ensures DocsOf(s, ScanIds(At(s.num, a), min, max, minEx, maxEx)) == FoundDocs(s.docs, a, min, max, minEx, maxEx)
  {
    ScanFindsHolders(s.num, NumView(s.docs), s.ids.fwd, a, min, max, minEx, maxEx);
    ScannedDocs(s.docs, a, min, max, minEx, maxEx);
    Materialises(s, FoundDocs(s.docs, a, min, max, minEx, maxEx), ScanIds(At(s.num, a), min, max, minEx, maxEx));
  }

  lemma ScannedDocs(docs: map<string, Doc>, a: string, min: Float, max: Float, minEx: bool, maxEx: bool)
    ensures Scanned(NumView(docs), a, min, max, minEx, maxEx) == FoundDocs(docs, a, min, max, minEx, maxEx)
  {
    forall d | d in docs
      ensures HasFound(docs[d], a, min, max, minEx, maxEx) <==> d in Scanned(NumView(docs), a, min, max, minEx, maxEx)
    {
      ScannedInRange(docs[d], a, min, max, minEx, maxEx);
    }
  }

  lemma {:induction false} ScannedInRange(doc: Doc, a: string, min: Float, max: Float, minEx: bool, maxEx: bool)
    ensures ScansValue(NumsOf(doc), a, min, max, minEx, maxEx) <==> HasFound(doc, a, min, max, minEx, maxEx)
  {
    DocNumsFinite(doc);
    forall v: Float | (a, v) in NumsOf(doc)
      ensures Finite(v)
      ensures InScan(v, min, max, minEx, maxEx) <==> InRange(v, min, max, minEx, maxEx) && !ZeroMissed(v, min, max)
    {
      assert Finite((a, v).1);
      ScanIsRange(v, min, max, minEx, maxEx);
    }
  }

  /** Every value the document has in the range is a zero of the sign the bounds split off. */
  ghost predicate OnlySplitOff(doc: Doc, a: string, min: Float, max: Float, minEx: bool, maxEx: bool) {
    && HasInRange(doc, a, min, max, minEx, maxEx)
    && forall v: Float :: (a, v) in NumsOf(doc) && InRange(v, min, max, minEx, maxEx) ==> ZeroMissed(v, min, max)
  }

  /** The answer is the whole range if and only if no live document is in it by a split-off zero alone. */
  lemma {:induction false} RangeWhole(docs: map<string, Doc>, a: string, min: Float, max: Float, minEx: bool,
                                      maxEx: bool)
    ensures FoundDocs(docs, a, min, max, minEx, maxEx) == InRangeDocs(docs, a, min, max, minEx, maxEx) <==>
              forall d :: d in docs ==> !OnlySplitOff(docs[d], a, min, max, minEx, maxEx)
  {
    var found, all := FoundDocs(docs, a, min, max, minEx, maxEx), InRangeDocs(docs, a, min, max, minEx, maxEx);
    assert found <= all;
    forall d | d in all ensures d !in found <==> OnlySplitOff(docs[d], a, min, max, minEx, maxEx) {
    }
  }

  /** Some number leaf under the name is in the range, and is no zero that a bound splits off. */
  ghost predicate NumberFound(doc: Doc, a: string, min: Float, max: Float, minEx: bool, maxEx: bool) {
    exists v: Float :: HasNumber(doc, a, v) && InRange(v, min, max, minEx, maxEx) && !ZeroMissed(v, min, max)
  }

  /** The found documents, read off their paths. */
  lemma {:induction false} FoundRead(docs: map<string, Doc>, a: string, min: Float, max: Float, minEx: bool,
                                     maxEx: bool)
    ensures forall d :: d in FoundDocs(docs, a, min, max, minEx, maxEx) <==>
              d in docs && NumberFound(docs[d], a, min, max, minEx, maxEx)
  {
    forall d, v: Float | d in docs ensures (a, v) in NumsOf(docs[d]) <==> HasNumber(docs[d], a, v) {
      NumsRead(docs[d], a, v);
    }
  }

  /** The live documents of an item with an attribute value. */
  ghost function InGroupDocs(h: Host, docs: map<string, Doc>, item: string, attr: string, value: string): set<string> {
    set d | d in docs && IsInGroup(h, docs[d], item, attr, value)
  }

  /** The live documents filed under a group key. */
  ghost function UnderKey(h: Host, docs: map<string, Doc>, k: string): set<string> {
    set d | d in docs && k in KeysOfDoc(h, docs[d])
  }

  /** A group's count and bitmap are always those of the live documents filed under its key. */
  lemma {:induction false} GroupIsUnderKey(h: Host, s: State, item: string, attr: string, value: string)
    requires Inv(h, s)
    ensures var g, ds := GroupFor(s.groups, item, attr, value), UnderKey(h, s.docs, GroupKey(item, attr, value));
            g.members <= s.ids.rev.Keys && DocsOf(s, g.members) == ds && g.count == |ds|
  {
    var g, k := GroupFor(s.groups, item, attr, value), GroupKey(item, attr, value);
    var view, ds := GroupView(h, s.docs), UnderKey(h, s.docs, k);
    assert At(Members(s.groups), k) == Holders(view, s.ids.fwd, k);
    assert g.members == At(Members(s.groups), k);
    assert Holders(view, s.ids.fwd, k) == Image(s.ids.fwd, ds);
    Materialises(s, ds, g.members);
    ImageSize(s.ids.fwd, ds);
  }

  /** Some live document reaches the group's key through other names. */
  ghost predicate Stranger(h: Host, docs: map<string, Doc>, item: string, attr: string, value: string) {
    exists d :: d in docs && GroupKey(item, attr, value) in KeysOfDoc(h, docs[d]) &&
        !IsInGroup(h, docs[d], item, attr, value)
  }

  /** GroupCount equals brute force, count and members alike, if and only if there is no stranger in the group. */
  lemma {:induction false} GroupCountExact(h: Host, s: State, item: string, attr: string, value: string)
    requires Inv(h, s)
    ensures var g, ds := GroupFor(s.groups, item, attr, value), InGroupDocs(h, s.docs, item, attr, value);
            && (DocsOf(s, g.members) == ds <==> !Stranger(h, s.docs, item, attr, value))
            && (g.count == |ds| <==> !Stranger(h, s.docs, item, attr, value))
  {
    var under, ds := UnderKey(h, s.docs, GroupKey(item, attr, value)), InGroupDocs(h, s.docs, item, attr, value);
    GroupIsUnderKey(h, s, item, attr, value);
    forall d | d in ds ensures d in under {
      InOwnGroup(h, s.docs[d], item, attr, value);
    }
    SubsetSize(ds, under);
    if Stranger(h, s.docs, item, attr, value) {
      var d :| d in s.docs && GroupKey(item, attr, value) in KeysOfDoc(h, s.docs[d]) &&
          !IsInGroup(h, s.docs[d], item, attr, value);
      assert d in under && d !in ds;
    } else {
      assert under <= ds;
    }
  }

  /** Names without the separator admit no stranger. */
  lemma {:induction false} PlainNamesNoStranger(h: Host, docs: map<string, Doc>, item: string, attr: string,
                                                value: string)
    requires NoBar(item) && NoBar(attr) && forall d :: d in docs ==> PlainNames(h, docs[d])
    ensures !Stranger(h, docs, item, attr, value)
  {
    forall d | d in docs
      ensures GroupKey(item, attr, value) in KeysOfDoc(h, docs[d]) <==> IsInGroup(h, docs[d], item, attr, value)
    {
      InGroup(h, docs[d], item, attr, value);
    }
  }

  lemma ImageSize(ids: map<string, Id>, ds: set<string>)
    requires Injective(ids) && ds <= ids.Keys
    ensures |set d | d in ds :: ids[d]| == |ds|
    decreases ds
  {
    if ds != {} {
      var d :| d in ds;
      var rest := ds - {d};
      ImageSize(ids, rest);
      assert (set c | c in ds :: ids[c]) == (set c | c in rest :: ids[c]) + {ids[d]};
    }
  }
}
