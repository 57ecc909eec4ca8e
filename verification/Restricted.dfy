/**
 Laws that need a side condition on the run, each with the exact condition for one committed write, and
 the law over every run whose steps meet it.
 */
module Restricted {
  import opened Order
  import opened Float64
  import opened Documents
  import opened IdMaps
  import opened Postings
  import opened Numeric
  import opened Groups
  import opened Closures
  import opened Stats
  import opened Absences
  import opened Engine
  import opened Runs

  // ---------- ancestors and descendants ----------

  /** The stored chains are the walks along the current parent fields. */
  ghost predicate ChainsExact(s: State) {
    ChainsAreWalks(s.table.asc, ParentView(s.docs))
  }

  /** Every stored chain extends its parent's. */
  ghost predicate ChainsLinked(s: State) {
    WalksExact(s.table.asc, ParentView(s.docs))
  }

  lemma {:induction false} ExactIsLinked(h: Host, s: State)
    requires Inv(h, s)
    ensures ChainsExact(s) <==> ChainsLinked(s)
  {
    WalksIff(s.table.asc, ParentView(s.docs));
  }

  /** The write leaves d's parent field alone, or d has no recorded descendants. */
  ghost predicate KeepsParent(s: State, d: string, doc: Doc) {
    ParentOf(DocAt(s.docs, d)) == ParentOf(doc) || d !in s.table.desc
  }

  lemma {:induction false} TableKeepsParent(table: Table, docs: map<string, Doc>, ids: map<string, Id>, d: string,
                                            id: Id, now: Option<string>)
    requires TableOk(table, ParentView(docs), ids) && WalksExact(table.asc, ParentView(docs))
    requires Closures.Update(table, d, id, ParentOf(DocAt(docs, d)), now).Some?
    ensures WalksExact(Closures.Update(table, d, id, ParentOf(DocAt(docs, d)), now).value.asc,
                       WithParent(ParentView(docs), d, now))
       <==> ParentOf(DocAt(docs, d)) == now || d !in table.desc
  {
    assert ParentAt(ParentView(docs), d) == ParentOf(DocAt(docs, d));
    UpdateKeepsWalks(table, ParentView(docs), d, id, now);
    OnChainIffDescendants(table, ParentView(docs), ids, d);
  }

  /** A committed Put keeps the chains exact if and only if it meets KeepsParent. */
  lemma {:induction false} PutChainsExact(h: Host, s: State, d: string, doc: Doc, t: State)
    requires Inv(h, s) && ChainsExact(s) && PutTx(h, s, d, doc, t)
    ensures ChainsExact(t) <==> KeepsParent(s, d, doc)
  {
    PutInv(h, s, d, doc, t);
    ExactIsLinked(h, s);
    ExactIsLinked(h, t);
    PutLinks(h, s, d, doc, t);
  }

  lemma {:induction false} PutLinks(h: Host, s: State, d: string, doc: Doc, t: State)
    requires Inv(h, s) && ChainsLinked(s) && PutTx(h, s, d, doc, t)
    ensures ChainsLinked(t) <==> KeepsParent(s, d, doc)
  {
    ParentViewAfterPut(s.docs, d, doc);
    TableKeepsParent(s.table, s.docs, s.ids.fwd, d, t.ids.fwd[d], ParentOf(doc));
  }

  /** So does a committed Delete. */
  lemma {:induction false} DeleteChainsExact(h: Host, s: State, d: string, t: State)
    requires Inv(h, s) && ChainsExact(s) && DeleteTx(h, s, d, t)
    ensures ChainsExact(t) <==> KeepsParent(s, d, Blank)
  {
    DeleteInv(h, s, d, t);
    ExactIsLinked(h, s);
    ExactIsLinked(h, t);
    DeleteLinks(h, s, d, t);
  }

  lemma {:induction false} DeleteLinks(h: Host, s: State, d: string, t: State)
    requires Inv(h, s) && ChainsLinked(s) && DeleteTx(h, s, d, t)
    ensures ChainsLinked(t) <==> KeepsParent(s, d, Blank)
  {
    if DocAt(s.docs, d).Blank? {
      FieldViewsWithout(h, s.docs, d);
    } else {
      FieldViewsAfterDelete(h, s.docs, d);
      TableKeepsParent(s.table, s.docs, s.ids.fwd, d, s.ids.fwd[d], None);
    }
  }

  /** A Put of d is refused exactly when no id is left, or the walk from d would not end within 256 steps. */
  lemma {:induction false} PutRefusedExactly(h: Host, s: State, d: string, doc: Doc)
    requires Inv(h, s) && ChainsExact(s)
    ensures PutRefused(h, s, d, doc) <==>
              Exhausted(s.ids, d) || !HasShortWalk(ParentView(s.docs[d := doc]), d)
  {
    if !Exhausted(s.ids, d) {
      ExactIsLinked(h, s);
      ViewsNow(h, s.docs, d);
      FieldViewsAfterPut(h, s.docs, d, doc);
      RefusedExactly(s.table, ParentView(s.docs), d, Assigned(s.ids, d).fwd[d], ParentOf(doc));
    }
  }

  ghost predicate ParentsKept(s: State, op: Op, t: State) {
    t == s ||
    match op
    case Put(d, doc) => KeepsParent(s, d, doc)
    case Delete(d) => KeepsParent(s, d, Blank)
    case ReadStats(_) => true
  }

  lemma {:induction false} RunChainsExact(h: Host, ops: seq<Op>, trace: seq<State>, n: nat)
    requires IsRun(h, ops, trace) && n <= |ops|
    requires forall i :: 0 <= i < |ops| ==> ParentsKept(trace[i], ops[i], trace[i + 1])
    ensures ChainsExact(trace[n])
  {
    if n == 0 {
      NoChains(trace[0]);
    } else {
      RunChainsExact(h, ops, trace, n - 1);
      assert ParentsKept(trace[n - 1], ops[n - 1], trace[n]);
      NextChainsExact(h, ops, trace, n);
    }
  }

  lemma NoChains(s: State)
    requires s == INIT
    ensures ChainsExact(s)
  {
  }

  lemma {:induction false} NextChainsExact(h: Host, ops: seq<Op>, trace: seq<State>, n: nat)
    requires IsRun(h, ops, trace) && 0 < n <= |ops| && ChainsExact(trace[n - 1])
    requires ParentsKept(trace[n - 1], ops[n - 1], trace[n])
    ensures ChainsExact(trace[n])
  {
    RunInv(h, ops, trace, n - 1);
    assert StepAt(h, ops, trace, n - 1);
    StepChainsExact(h, trace[n - 1], ops[n - 1], trace[n]);
  }

  lemma {:induction false} StepChainsExact(h: Host, s: State, op: Op, t: State)
    requires Inv(h, s) && ChainsExact(s) && Step(h, s, op, t) && ParentsKept(s, op, t)
    ensures ChainsExact(t)
  {
    if t != s {
      match op
      case Put(d, doc) => PutChainsExact(h, s, d, doc, t);
      case Delete(d) => DeleteChainsExact(h, s, d, t);
      case ReadStats(_) =>
    }
  }

  ghost function OnChain(asc: Chains, r: string): set<string> {
    set d | d in asc && r in asc[d]
  }

  lemma DescendantIds(table: Table, parents: Parents, ids: map<string, Id>, r: string)
    requires TableOk(table, parents, ids)
    ensures OnChain(table.asc, r) <= ids.Keys && At(table.desc, r) == Image(ids, OnChain(table.asc, r))
  {
    assert At(table.desc, r) == Holders(ChainView(table.asc), ids, r);
  }

  /**
   Over every such run: Ancestors(d) is the walk from d along the live parent fields, no document reaches
   itself, and Descendants(r) is the documents whose walk reaches r.
   */
  lemma {:induction false} AncestorsAndDescendants(h: Host, s: State, d: string, r: string)
    requires Inv(h, s) && ChainsExact(s)
    ensures IsWalk(ParentView(s.docs), d, ChainAt(s.table.asc, d))
    ensures d !in ChainAt(s.table.asc, d)
    ensures At(s.table.desc, r) <= s.ids.rev.Keys
    ensures d in DocsOf(s, At(s.table.desc, r)) <==> r in ChainAt(s.table.asc, d)
  {
    assert IsWalk(ParentView(s.docs), d, ChainAt(s.table.asc, d));
    assert d in s.table.asc ==> ChainOk(s.table.asc[d], d);
    DescendantIds(s.table, ParentView(s.docs), s.ids.fwd, r);
    Materialises(s, OnChain(s.table.asc, r), At(s.table.desc, r));
  }

  // ---------- running statistics ----------

  /** The live documents' values at a path: each document with each of its values. */
  ghost function Holdings(docs: map<string, Doc>, p: string): set<(string, Float)> {
    set d, q: (string, Float) | d in docs && q in NumsOf(docs[d]) && q.0 == p :: (d, q.1)
  }

  ghost function LiveValues(docs: map<string, Doc>, p: string): Values<(string, Float)> {
    map v | v in Holdings(docs, p) :: RealValue(v.1)
  }

  /** Every usable aggregate is the true statistics of the live documents' values. */
  ghost predicate AggregatesExact(s: State) {
    forall p :: LiveExact(s, p)
  }

  ghost predicate LiveExact(s: State, p: string) {
    !StatAt(s.stats, p).stale ==> Describes(StatAt(s.stats, p), LiveValues(s.docs, p))
  }

  /** The numeric bucket is the live values under other names. */
  lemma {:induction false} BucketIsLive(h: Host, s: State, p: string, v: Stat)
    requires Inv(h, s)
    ensures Describes(v, KeyValues(At(s.num, p))) <==> Describes(v, LiveValues(s.docs, p))
  {
    ValidInjective(s.ids);
    KeysRename(s.num, s.docs, s.ids.fwd, p);
    RenamedDescribes(v, LiveValues(s.docs, p), KeyValues(At(s.num, p)), KeyNames(s.docs, s.ids.fwd, p));
  }

  ghost function KeyNames(docs: map<string, Doc>, ids: map<string, Id>, p: string): map<(string, Float), string>
    requires docs.Keys <= ids.Keys
  {
    map v | v in Holdings(docs, p) :: NumKey(v.1, ids[v.0])
  }

  lemma {:induction false} KeysRename(num: map<string, set<string>>, docs: map<string, Doc>, ids: map<string, Id>,
                                      p: string)
    requires docs.Keys <= ids.Keys && Injective(ids) && NumAgrees(num, NumView(docs), ids)
    ensures Renamed(LiveValues(docs, p), KeyValues(At(num, p)), KeyNames(docs, ids, p))
  {
    KeysCovered(num, docs, ids, p);
    KeysApart(docs, ids, p);
    KeysCarry(docs, ids, p);
    assert KeyValues(At(num, p)).Keys == At(num, p);
  }

  lemma {:induction false} KeysApart(docs: map<string, Doc>, ids: map<string, Id>, p: string)
    requires docs.Keys <= ids.Keys && Injective(ids)
    ensures var r := KeyNames(docs, ids, p); forall u, v :: u in r && v in r && r[u] == r[v] ==> u == v
  {
    var r := KeyNames(docs, ids, p);
    forall u, v | u in r && v in r && r[u] == r[v] ensures u == v {
      NumKeyInjective(u.1, ids[u.0], v.1, ids[v.0]);
      assert ids[u.0] == ids[v.0];
    }
  }

  lemma {:induction false} KeysCarry(docs: map<string, Doc>, ids: map<string, Id>, p: string)
    requires docs.Keys <= ids.Keys
    ensures forall v :: v in KeyNames(docs, ids, p) ==> KeyReal(KeyNames(docs, ids, p)[v]) == RealValue(v.1)
  {
    forall v | v in KeyNames(docs, ids, p) ensures KeyReal(KeyNames(docs, ids, p)[v]) == RealValue(v.1) {
      NumKeyReal(v.1, ids[v.0]);
    }
  }

  lemma {:induction false} KeysCovered(num: map<string, set<string>>, docs: map<string, Doc>, ids: map<string, Id>,
                                       p: string)
    requires docs.Keys <= ids.Keys && NumAgrees(num, NumView(docs), ids)
    ensures KeyNames(docs, ids, p).Values == At(num, p)
  {
    var r, view := KeyNames(docs, ids, p), NumView(docs);
    assert At(num, p) == NumHolders(view, ids, p);
    forall v | v in r ensures r[v] in NumHolders(view, ids, p) {
      var d, q: (string, Float) :| d in docs && q in NumsOf(docs[d]) && q.0 == p && v == (d, q.1);
      DocNumsFinite(docs[d]);
      assert d in view && q in view[d];
    }
    forall k | k in NumHolders(view, ids, p) ensures k in r.Values {
      var d, q: (string, Float) :| d in view && q in view[d] && q.0 == p && Finite(q.1) && k == NumKey(q.1, ids[d]);
      assert (d, q.1) in r && r[(d, q.1)] == k;
    }
  }

  lemma {:induction false} AggregatesOnDocs(h: Host, s: State)
    requires Inv(h, s)
    ensures AggregatesExact(s) <==> StatsExact(s.stats, s.num)
  {
    forall p ensures LiveExact(s, p) <==> PathExact(s.stats, s.num, p) {
      BucketIsLive(h, s, p, StatAt(s.stats, p));
    }
  }

  /** A document's keys at a path it had no value for are new to the bucket. */
  lemma {:induction false} KeysAreNew(h: Host, s: State, d: string, id: Id, now: Nums, p: string)
    requires Inv(h, s) && (d in s.ids.fwd ==> s.ids.fwd[d] == id) && (d !in s.ids.fwd ==> id !in s.ids.rev)
    requires p !in Paths(NumsOf(DocAt(s.docs, d)))
    ensures PathKeys(now, p, id) !! At(s.num, p)
  {
    var view := NumView(s.docs);
    assert At(s.num, p) == NumHolders(view, s.ids.fwd, p);
    forall c, r: (string, Float) | c in view && r in view[c] && r.0 == p && Finite(r.1) ensures s.ids.fwd[c] != id {
      assert p in Paths(view[c]) && view[c] == NumsOf(s.docs[c]);
    }
    forall q: (string, Float), c, r: (string, Float) | c in view && r in view[c] && r.0 == p && Finite(r.1)
      ensures NumKey(q.1, id) != NumKey(r.1, s.ids.fwd[c])
    {
      NumKeyRoundTrip(q.1, id);
      NumKeyRoundTrip(r.1, s.ids.fwd[c]);
    }
  }

  /**
   A committed Put keeps every usable aggregate the true statistics if and only if each path that takes
   the incremental step carries a single value in the new document.
   */
  lemma {:induction false} PutAggregatesExact(h: Host, s: State, d: string, doc: Doc, t: State)
    requires Inv(h, s) && AggregatesExact(s) && PutTx(h, s, d, doc, t)
    ensures AggregatesExact(t) <==>
              forall p :: Incremental(s.stats, NumsOf(DocAt(s.docs, d)), NumsOf(doc), p) ==> SingleValue(NumsOf(doc), p)
  {
    PutInv(h, s, d, doc, t);
    AggregatesOnDocs(h, s);
    AggregatesOnDocs(h, t);
    PutBuckets(h, s, d, doc, t);
  }

  lemma {:induction false} PutBuckets(h: Host, s: State, d: string, doc: Doc, t: State)
    requires Inv(h, s) && StatsExact(s.stats, s.num) && PutTx(h, s, d, doc, t)
    ensures StatsExact(t.stats, t.num) <==>
              forall p :: Incremental(s.stats, NumsOf(DocAt(s.docs, d)), NumsOf(doc), p) ==> SingleValue(NumsOf(doc), p)
  {
    var was, now, id := NumsOf(DocAt(s.docs, d)), NumsOf(doc), t.ids.fwd[d];
    AssignKeeps(s.ids, d);
    DocNumsFinite(doc);
    forall p | p !in Paths(was) ensures PathKeys(now, p, id) !! At(s.num, p) {
      KeysAreNew(h, s, d, id, now, p);
    }
    StatsMoveExact(s.stats, t.stats, s.num, t.num, id, was, now);
  }

  lemma {:induction false} DeleteAggregatesExact(h: Host, s: State, d: string, t: State)
    requires Inv(h, s) && AggregatesExact(s) && DeleteTx(h, s, d, t)
    ensures AggregatesExact(t)
  {
    DeleteInv(h, s, d, t);
    AggregatesOnDocs(h, s);
    AggregatesOnDocs(h, t);
    DeleteBuckets(h, s, d, t);
  }

  lemma {:induction false} DeleteBuckets(h: Host, s: State, d: string, t: State)
    requires s.docs.Keys <= s.ids.fwd.Keys && StatsExact(s.stats, s.num) && DeleteTx(h, s, d, t)
    ensures StatsExact(t.stats, t.num)
  {
    var was := NumsOf(DocAt(s.docs, d));
    if !DocAt(s.docs, d).Blank? {
      assert NumsOf(Blank) == {} && Paths({}) == {};
      PathKeysNone(s.ids.fwd[d]);
      StatsMoveExact(s.stats, t.stats, s.num, t.num, s.ids.fwd[d], was, {});
    }
  }

  /** Reading recomputes a stale aggregate to the true one and leaves the others alone. */
  lemma {:induction false} ReadAggregatesExact(h: Host, s: State, p: string, t: State)
    requires Inv(h, s) && AggregatesExact(s) && StatsTx(s, p, t)
    ensures AggregatesExact(t)
  {
    forall q ensures LiveExact(t, q) {
      assert LiveExact(s, q);
      if StatAt(t.stats, q) == StatAt(s.stats, q) {
        SameStatSameTruth(s, t, q);
      } else {
        RecomputedIsTrue(h, s, p, t);
      }
    }
  }

  lemma {:induction false} RecomputedIsTrue(h: Host, s: State, p: string, t: State)
    requires Inv(h, s) && StatsTx(s, p, t) && StatAt(t.stats, p) != StatAt(s.stats, p)
    ensures LiveExact(t, p)
  {
    BucketIsLive(h, s, p, StatAt(t.stats, p));
  }

  lemma SameStatSameTruth(s: State, t: State, p: string)
    requires LiveExact(s, p) && t.docs == s.docs && StatAt(t.stats, p) == StatAt(s.stats, p)
    ensures LiveExact(t, p)
  {
  }

  /** One value per document: the values by document, for documents with at most one at the path. */
  ghost function ByDocument(docs: map<string, Doc>, p: string): Values<string> {
    map d | d in docs && p in Paths(NumsOf(docs[d])) :: RealValue(ValueOf(docs[d], p))
  }

  ghost function ValueOf(doc: Doc, p: string): Float
    requires p in Paths(NumsOf(doc))
  {
    var f :| (p, f) in NumsOf(doc); f
  }

  lemma {:induction false} OneValueEach(docs: map<string, Doc>, p: string, v: Stat)
    requires forall d :: d in docs ==> SingleValued(docs[d])
    ensures Describes(v, LiveValues(docs, p)) <==> Describes(v, ByDocument(docs, p))
  {
    var r := map d | d in docs && p in Paths(NumsOf(docs[d])) :: (d, ValueOf(docs[d], p));
    forall d, q: (string, Float) | d in docs && q in NumsOf(docs[d]) && q.0 == p ensures d in r && r[d] == (d, q.1) {
      DocNumsFinite(docs[d]);
      assert SingleValue(NumsOf(docs[d]), p) && (p, q.1) in NumsOf(docs[d]);
    }
    forall u | u in Holdings(docs, p) ensures u in r.Values {
      assert u.0 in r && r[u.0] == u;
    }
    assert Renamed(ByDocument(docs, p), LiveValues(docs, p), r);
    RenamedDescribes(v, ByDocument(docs, p), LiveValues(docs, p), r);
  }

  ghost predicate SingleValued(doc: Doc) {
    forall p :: SingleValue(NumsOf(doc), p)
  }

  lemma NothingAggregated(h: Host, s: State)
    requires s == INIT
    ensures AggregatesExact(s)
  {
    InitInv(h);
    AggregatesOnDocs(h, s);
    forall p ensures PathExact(s.stats, s.num, p) {
      NothingDescribed();
      assert At(s.num, p) == Elems<string>([]);
    }
  }

  ghost predicate AllPutsSingleValued(ops: seq<Op>) {
    forall i :: 0 <= i < |ops| && ops[i].Put? ==> SingleValued(ops[i].doc)
  }

  /** Over every run whose documents carry at most one value per numeric path, the aggregates are true. */
  lemma {:induction false} RunAggregatesExact(h: Host, ops: seq<Op>, trace: seq<State>, n: nat)
    requires IsRun(h, ops, trace) && n <= |ops|
    requires AllPutsSingleValued(ops)
    ensures AggregatesExact(trace[n])
  {
    if n == 0 {
      NothingAggregated(h, trace[0]);
    } else {
      RunAggregatesExact(h, ops, trace, n - 1);
      NextAggregatesExact(h, ops, trace, n);
    }
  }

  lemma {:induction false} NextAggregatesExact(h: Host, ops: seq<Op>, trace: seq<State>, n: nat)
    requires IsRun(h, ops, trace) && 0 < n <= |ops| && AllPutsSingleValued(ops) && AggregatesExact(trace[n - 1])
    ensures AggregatesExact(trace[n])
  {
    RunInv(h, ops, trace, n - 1);
    assert StepAt(h, ops, trace, n - 1);
    StepAggregatesExact(h, trace[n - 1], ops[n - 1], trace[n]);
  }

  lemma {:induction false} StepAggregatesExact(h: Host, s: State, op: Op, t: State)
    requires Inv(h, s) && AggregatesExact(s) && Step(h, s, op, t) && (op.Put? ==> SingleValued(op.doc))
    ensures AggregatesExact(t)
  {
    if t != s {
      match op
      case Put(d, doc) => PutAggregatesExact(h, s, d, doc, t);
      case Delete(d) => DeleteAggregatesExact(h, s, d, t);
      case ReadStats(p) => ReadAggregatesExact(h, s, p, t);
    }
  }

  ghost predicate AllSingleValued(docs: map<string, Doc>) {
    forall d :: d in docs ==> SingleValued(docs[d])
  }

  lemma {:induction false} RunSingleValued(h: Host, ops: seq<Op>, trace: seq<State>, n: nat)
    requires IsRun(h, ops, trace) && n <= |ops|
    requires AllPutsSingleValued(ops)
    ensures AllSingleValued(trace[n].docs)
  {
    if n > 0 {
      RunSingleValued(h, ops, trace, n - 1);
      assert StepAt(h, ops, trace, n - 1);
      StepDocs(h, trace[n - 1], ops[n - 1], trace[n]);
    }
  }

  /** Then each usable aggregate describes one value per live document that has the path. */
  lemma {:induction false} RunStatsTrue(h: Host, ops: seq<Op>, trace: seq<State>, n: nat, p: string)
    requires IsRun(h, ops, trace) && n <= |ops|
    requires AllPutsSingleValued(ops)
    ensures var s := trace[n]; !StatAt(s.stats, p).stale ==> Describes(StatAt(s.stats, p), ByDocument(s.docs, p))
  {
    RunAggregatesExact(h, ops, trace, n);
    RunSingleValued(h, ops, trace, n);
    assert LiveExact(trace[n], p);
    OneValueEach(trace[n].docs, p, StatAt(trace[n].stats, p));
  }

  // ---------- last occurrences ----------

  ghost predicate CellsTrue(h: Host, s: State) {
    CellsExact(s.cells, EventView(h, s.docs))
  }

  /** A committed Put keeps every last-occurrence cell true if and only if it was Safe. */
  lemma {:induction false} PutCellsExact(h: Host, s: State, d: string, doc: Doc, t: State)
    requires Inv(h, s) && CellsTrue(h, s) && PutTx(h, s, d, doc, t)
    ensures CellsTrue(h, t) <==> Safe(s.cells, EventView(h, s.docs), d, EventOf(h, doc), doc.Blank?)
  {
    PutInv(h, s, d, doc, t);
    ViewsNow(h, s.docs, d);
    EventViewAfterPut(h, s.docs, d, doc);
    UpdateExact(s.cells, t.logs, EventView(h, s.docs), d, EventOf(h, doc), doc.Blank?);
  }

  lemma {:induction false} DeleteCellsExact(h: Host, s: State, d: string, t: State)
    requires Inv(h, s) && CellsTrue(h, s) && DeleteTx(h, s, d, t)
    ensures CellsTrue(h, t) <==> Safe(s.cells, EventView(h, s.docs), d, None, true)
  {
    DeleteInv(h, s, d, t);
    ViewsNow(h, s.docs, d);
    if DocAt(s.docs, d).Blank? {
      FieldViewsWithout(h, s.docs, d);
    } else {
      FieldViewsAfterDelete(h, s.docs, d);
      UpdateExact(s.cells, t.logs, EventView(h, s.docs), d, None, true);
    }
  }

  /** The latest time at which a live document says the type happened to the item, none if none does. */
  ghost predicate LatestHappening(h: Host, docs: map<string, Doc>, item: string, kind: string, at: Option<int>) {
    match at
    case None => forall d, t :: d in docs ==> !Happens(h, docs[d], item, kind, t)
    case Some(last) =>
      && (exists d :: d in docs && Happens(h, docs[d], item, kind, last))
      && (forall d, t :: d in docs && Happens(h, docs[d], item, kind, t) ==> t <= last)
  }

  lemma {:induction false} OwnRead(h: Host, docs: map<string, Doc>, item: string, kind: string, d: string, t: int)
    ensures d in Own(EventView(h, docs), item, kind) && EventView(h, docs)[d].at == t <==>
              d in docs && Happens(h, docs[d], item, kind, t)
  {
    if d in docs { EventRead(h, docs[d], item, kind, t); }
  }

  /** The latest live event, read off the documents' fields. */
  lemma {:induction false} LatestRead(h: Host, docs: map<string, Doc>, item: string, kind: string, at: Option<int>)
    ensures IsLatest(EventView(h, docs), item, kind, at) <==> LatestHappening(h, docs, item, kind, at)
  {
    var view := EventView(h, docs);
    var own := Own(view, item, kind);
    forall d, t ensures d in own && view[d].at == t <==> d in docs && Happens(h, docs[d], item, kind, t) {
      OwnRead(h, docs, item, kind, d, t);
    }
    match at
    case None =>
      if d :| d in own { assert Happens(h, docs[d], item, kind, view[d].at); }
    case Some(last) =>
      forall d | d in own ensures d in docs && Happens(h, docs[d], item, kind, view[d].at) {
      }
  }

  /** Every cell shows the right time, whoever it names as owner. */
  ghost predicate TimesTrue(h: Host, s: State) {
    TimesExact(s.cells, EventView(h, s.docs))
  }

  /**
   From true cells, a committed Put leaves the right times if and only if it is safe or its document leaves in a tie.
   */
  lemma {:induction false} PutTimesExact(h: Host, s: State, d: string, doc: Doc, t: State)
    requires Inv(h, s) && CellsTrue(h, s) && PutTx(h, s, d, doc, t)
    ensures var view := EventView(h, s.docs);
            TimesTrue(h, t) <==> || Safe(s.cells, view, d, EventOf(h, doc), doc.Blank?)
                                 || (Owns(s.cells, view, d) && Tied(view, d, EventOf(h, doc), doc.Blank?))
  {
    PutInv(h, s, d, doc, t);
    ViewsNow(h, s.docs, d);
    EventViewAfterPut(h, s.docs, d, doc);
    UpdateTimes(s.cells, t.logs, EventView(h, s.docs), d, EventOf(h, doc), doc.Blank?);
  }

  /** A committed Delete leaves the right times exactly when it leaves true cells. */
  lemma {:induction false} DeleteTimesExact(h: Host, s: State, d: string, t: State)
    requires Inv(h, s) && CellsTrue(h, s) && DeleteTx(h, s, d, t)
    ensures TimesTrue(h, t) <==> Safe(s.cells, EventView(h, s.docs), d, None, true)
  {
    DeleteInv(h, s, d, t);
    ViewsNow(h, s.docs, d);
    if DocAt(s.docs, d).Blank? {
      FieldViewsWithout(h, s.docs, d);
      TrueCellsTrueTimes(h, t);
    } else {
      FieldViewsAfterDelete(h, s.docs, d);
      UpdateTimes(s.cells, t.logs, EventView(h, s.docs), d, None, true);
    }
  }

  lemma TrueCellsTrueTimes(h: Host, s: State)
    requires CellsTrue(h, s)
    ensures TimesTrue(h, s)
  {
    forall key ensures TimeOk(s.cells, EventView(h, s.docs), key) {
      CellIsTime(s.cells, EventView(h, s.docs), key);
    }
  }

  /** Separator-free item and positive time, if the document is an event at all. */
  ghost predicate PlainEvent(h: Host, doc: Doc) {
    EventOf(h, doc).Some? ==> NoBar(EventOf(h, doc).value.item) && EventOf(h, doc).value.at > 0
  }

  ghost predicate EventsKept(h: Host, s: State, op: Op, t: State) {
    t == s ||
        (op.Put? ==> PlainEvent(h, op.doc) && Gentle(EventView(h, s.docs), op.d, EventOf(h, op.doc), op.doc.Blank?))
  }

  lemma {:induction false} StepCellsExact(h: Host, s: State, op: Op, t: State)
    requires Inv(h, s) && CellsTrue(h, s) && Plain(EventView(h, s.docs))
    requires Committed(h, s, op, t) && t != s && EventsKept(h, s, op, t)
    ensures CellsTrue(h, t) && Plain(EventView(h, t.docs))
  {
    match op
    case Put(d, doc) =>
      GentleIsSafe(s.cells, EventView(h, s.docs), d, EventOf(h, doc), doc.Blank?);
      PutCellsExact(h, s, d, doc, t);
      EventViewAfterPut(h, s.docs, d, doc);
    case Delete(d) =>
      DeleteCellsKept(h, s, d, t);
    case ReadStats(_) =>
  }

  /** Deleting never spoils a cell. */
  lemma {:induction false} DeleteCellsKept(h: Host, s: State, d: string, t: State)
    requires Inv(h, s) && CellsTrue(h, s) && Plain(EventView(h, s.docs)) && DeleteTx(h, s, d, t)
    ensures CellsTrue(h, t) && Plain(EventView(h, t.docs))
  {
    if DocAt(s.docs, d).Blank? {
      FieldViewsWithout(h, s.docs, d);
    } else {
      GentleIsSafe(s.cells, EventView(h, s.docs), d, None, true);
      DeleteCellsExact(h, s, d, t);
      FieldViewsAfterDelete(h, s.docs, d);
    }
  }

  /**
   Over every run with positive timestamps, separator-free items, and overwrites of an event document that
   keep its item and type and never lower its time, LastSeen is the latest live event, absent iff none.
   */
  lemma {:induction false} RunCellsExact(h: Host, ops: seq<Op>, trace: seq<State>, n: nat)
    requires IsRun(h, ops, trace) && n <= |ops|
    requires forall i :: 0 <= i < |ops| ==> EventsKept(h, trace[i], ops[i], trace[i + 1])
    ensures CellsTrue(h, trace[n]) && Plain(EventView(h, trace[n].docs))
  {
    if n == 0 {
      EmptyCells(h, trace[0]);
    } else {
      RunCellsExact(h, ops, trace, n - 1);
      assert EventsKept(h, trace[n - 1], ops[n - 1], trace[n]);
      NextCellsExact(h, ops, trace, n);
    }
  }

  lemma EmptyCells(h: Host, s: State)
    requires s == INIT
    ensures CellsTrue(h, s) && Plain(EventView(h, s.docs))
  {
    forall key ensures CellOk(s.cells, EventView(h, s.docs), key) {
    }
  }

  lemma {:induction false} NextCellsExact(h: Host, ops: seq<Op>, trace: seq<State>, n: nat)
    requires IsRun(h, ops, trace) && 0 < n <= |ops| && EventsKept(h, trace[n - 1], ops[n - 1], trace[n])
    requires CellsTrue(h, trace[n - 1]) && Plain(EventView(h, trace[n - 1].docs))
    ensures CellsTrue(h, trace[n]) && Plain(EventView(h, trace[n].docs))
  {
    RunInv(h, ops, trace, n - 1);
    assert StepAt(h, ops, trace, n - 1);
    if trace[n] != trace[n - 1] {
      StepCellsExact(h, trace[n - 1], ops[n - 1], trace[n]);
    }
  }

  // ---------- first and last seen of a group ----------

  ghost function TimeView(h: Host, docs: map<string, Doc>): map<string, int> {
    map d | d in docs :: TimeOf(h, docs[d])
  }

  lemma TimeViewAfterPut(h: Host, docs: map<string, Doc>, d: string, doc: Doc)
    ensures TimeView(h, docs[d := doc]) == TimeView(h, docs)[d := TimeOf(h, doc)]
  {
  }

  ghost predicate GroupBracketed(h: Host, s: State, k: string) {
    Bracketed(s.groups, GroupView(h, s.docs), TimeView(h, s.docs), k)
  }

  lemma {:induction false} DocsBracketed(h: Host, g: Bucket, g': Bucket, docs: map<string, Doc>, ids: map<string, Id>,
                                         d: string, doc: Doc, k: string)
    requires GroupsAgree(g, GroupView(h, docs), ids) && Injective(ids) && d in ids
    requires Bracketed(g, GroupView(h, docs), TimeView(h, docs), k)
    requires GroupsMoved(g, g', ids[d], KeysOfDoc(h, DocAt(docs, d)), KeysOfDoc(h, doc), TimeOf(h, doc))
    requires k in KeysOfDoc(h, doc) ==> TimeOf(h, doc) > 0
    ensures Bracketed(g', GroupView(h, docs[d := doc]), TimeView(h, docs[d := doc]), k)
  {
    assert KeysOf(GroupView(h, docs), d) == KeysOfDoc(h, DocAt(docs, d));
    ViewsAfterPut(h, docs, d, doc);
    TimeViewAfterPut(h, docs, d, doc);
    MoveKeepsBracket(g, g', GroupView(h, docs), TimeView(h, docs), ids, d, KeysOfDoc(h, doc), TimeOf(h, doc), k);
  }

  lemma {:induction false} PutBracketed(h: Host, s: State, d: string, doc: Doc, t: State, k: string)
    requires Inv(h, s) && GroupBracketed(h, s, k) && PutTx(h, s, d, doc, t)
    requires k in KeysOfDoc(h, doc) ==> TimeOf(h, doc) > 0
    ensures GroupBracketed(h, t, k)
  {
    AssignInv(h, s, d);
    ValidInjective(t.ids);
    DocsBracketed(h, s.groups, t.groups, s.docs, t.ids.fwd, d, doc, k);
  }

  ghost predicate GroupHeld(h: Host, s: State, k: string) {
    AllHeld(s.groups, GroupView(h, s.docs), TimeView(h, s.docs), k)
  }

  /** A committed Put keeps a group's live members bracketed if and only if it drops none of the others. */
  lemma {:induction false} PutHoldsExactly(h: Host, s: State, d: string, doc: Doc, t: State, k: string)
    requires Inv(h, s) && GroupHeld(h, s, k) && PutTx(h, s, d, doc, t)
    ensures GroupHeld(h, t, k) <==>
              forall c :: c in s.docs && c != d && k in KeysOfDoc(h, s.docs[c]) ==>
                !Drops(GroupAt(s.groups, k), k in KeysOfDoc(h, doc), TimeOf(h, doc), TimeOf(h, s.docs[c]))
  {
    AssignInv(h, s, d);
    ValidInjective(t.ids);
    DocsHeldExactly(h, s.groups, t.groups, s.docs, t.ids.fwd, d, doc, k);
  }

  lemma {:induction false} DocsHeldExactly(h: Host, g: Bucket, g': Bucket, docs: map<string, Doc>,
                                           ids: map<string, Id>, d: string, doc: Doc, k: string)
    requires GroupsAgree(g, GroupView(h, docs), ids) && Injective(ids) && d in ids
    requires AllHeld(g, GroupView(h, docs), TimeView(h, docs), k)
    requires GroupsMoved(g, g', ids[d], KeysOfDoc(h, DocAt(docs, d)), KeysOfDoc(h, doc), TimeOf(h, doc))
    ensures AllHeld(g', GroupView(h, docs[d := doc]), TimeView(h, docs[d := doc]), k) <==>
              forall c :: c in docs && c != d && k in KeysOfDoc(h, docs[c]) ==>
                !Drops(GroupAt(g, k), k in KeysOfDoc(h, doc), TimeOf(h, doc), TimeOf(h, docs[c]))
  {
    assert KeysOf(GroupView(h, docs), d) == KeysOfDoc(h, DocAt(docs, d));
    ViewsAfterPut(h, docs, d, doc);
    TimeViewAfterPut(h, docs, d, doc);
    MoveHoldsExactly(g, g', GroupView(h, docs), TimeView(h, docs), ids, d, KeysOfDoc(h, doc), TimeOf(h, doc), k);
    forall c | c in docs && c != d && k in KeysOfDoc(h, docs[c])
      ensures c in GroupView(h, docs) && k in GroupView(h, docs)[c] && TimeView(h, docs)[c] == TimeOf(h, docs[c])
    {
    }
  }

  /** A committed Delete always does. */
  lemma {:induction false} DeleteHolds(h: Host, s: State, d: string, t: State, k: string)
    requires Inv(h, s) && GroupHeld(h, s, k) && DeleteTx(h, s, d, t)
    ensures GroupHeld(h, t, k)
  {
    if !DocAt(s.docs, d).Blank? {
      ValidInjective(s.ids);
      DocsHeldExactly(h, s.groups, t.groups, s.docs, s.ids.fwd, d, Blank, k);
      FewerHeld(h, t.groups, s.docs[d := Blank], t.docs, k);
    } else {
      FewerHeld(h, s.groups, s.docs, t.docs, k);
    }
  }

  lemma FewerHeld(h: Host, g: Bucket, docs: map<string, Doc>, docs': map<string, Doc>, k: string)
    requires forall c :: c in docs' ==> c in docs && docs'[c] == docs[c]
    requires AllHeld(g, GroupView(h, docs), TimeView(h, docs), k)
    ensures AllHeld(g, GroupView(h, docs'), TimeView(h, docs'), k)
  {
    forall c | c in GroupView(h, docs') && k in GroupView(h, docs')[c]
      ensures Holds(GroupAt(g, k), TimeView(h, docs')[c])
    {
      assert c in GroupView(h, docs) && k in GroupView(h, docs)[c];
    }
  }

  lemma {:induction false} DeleteBracketed(h: Host, s: State, d: string, t: State, k: string)
    requires Inv(h, s) && GroupBracketed(h, s, k) && DeleteTx(h, s, d, t)
    ensures GroupBracketed(h, t, k)
  {
    if !DocAt(s.docs, d).Blank? {
      ValidInjective(s.ids);
      DocsBracketed(h, s.groups, t.groups, s.docs, s.ids.fwd, d, Blank, k);
      FewerHeld(h, t.groups, s.docs[d := Blank], t.docs, k);
    } else {
      FewerHeld(h, s.groups, s.docs, t.docs, k);
    }
  }

  ghost predicate PositiveAdds(h: Host, op: Op, k: string) {
    op.Put? && k in KeysOfDoc(h, op.doc) ==> TimeOf(h, op.doc) > 0
  }

  lemma {:induction false} StepBracketed(h: Host, s: State, op: Op, t: State, k: string)
    requires Inv(h, s) && GroupBracketed(h, s, k) && Step(h, s, op, t) && PositiveAdds(h, op, k)
    ensures GroupBracketed(h, t, k)
  {
    if t != s {
      match op
      case Put(d, doc) => PutBracketed(h, s, d, doc, t, k);
      case Delete(d) => DeleteBracketed(h, s, d, t, k);
      case ReadStats(_) =>
    }
  }

  /** First and last bracket a group's live members on every run that adds only positive times under its key. */
  lemma {:induction false} RunBracketed(h: Host, ops: seq<Op>, trace: seq<State>, n: nat, k: string)
    requires IsRun(h, ops, trace) && n <= |ops|
    requires forall i :: 0 <= i < |ops| ==> PositiveAdds(h, ops[i], k)
    ensures GroupBracketed(h, trace[n], k)
  {
    if n > 0 {
      RunInv(h, ops, trace, n - 1);
      RunBracketed(h, ops, trace, n - 1, k);
      assert StepAt(h, ops, trace, n - 1) && PositiveAdds(h, ops[n - 1], k);
      StepBracketed(h, trace[n - 1], ops[n - 1], trace[n], k);
    }
  }
}
