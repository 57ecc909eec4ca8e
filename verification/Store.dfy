/**
 The store object: transactions over the index objects, with rollback (bboltstore/store.go, indexhooks.go, lookup.go).
 */
module Stores {
  import opened Order
  import opened Float64
  import opened Documents
  import opened IdMaps
  import opened Postings
  import opened Inverted
  import opened Numeric
  import opened Temporal
  import Sequences
  import Clusters
  import opened Groups
  import opened Closures
  import opened Stats
  import opened Absences
  import opened Engine
  import opened Runs
  import opened Restricted

  /** The store of one entity. */
  class Store {
    const host: Host
    var docs: map<string, Doc>
    var events: seq<Mutation>   // what the emitter has delivered, in order
    const ids: IdMap
    const inverted: InvertedIndex
    const numeric: NumericIndex
    const temporal: TemporalIndex
    const groups: GroupIndex
    const closure: ClosureTable
    const stats: StatsIndex
    const absence: AbsenceIndex

    ghost function Contents(): State
      reads this, ids, inverted, numeric, temporal, groups, closure, stats, absence
    {
      State(docs, ids.Contents(), inverted.bucket, numeric.buckets, temporal.logs, groups.bucket,
            closure.Contents(), stats.bucket, absence.cells, events)
    }

    constructor (host: Host)
      ensures this.host == host && Contents() == INIT
      ensures fresh({ids, inverted, numeric, temporal, groups, closure, stats, absence})
    {
      this.host, docs, events := host, map[], [];
      ids := new IdMap();
      inverted := new InvertedIndex();
      numeric := new NumericIndex();
      temporal := new TemporalIndex();
      groups := new GroupIndex();
      closure := new ClosureTable();
      stats := new StatsIndex();
      absence := new AbsenceIndex();
    }

    /** What a read-write transaction would undo. */
    method Begin() returns (saved: State)
      ensures saved == Contents()
    {
      saved := State(docs, Ids(ids.fwd, ids.rev, ids.next),
                     inverted.bucket, numeric.buckets, temporal.logs, groups.bucket,
                     Table(closure.asc, closure.desc), stats.bucket, absence.cells, events);
    }

    method Rollback(saved: State)
      modifies this, ids, inverted, numeric, temporal, groups, closure, stats, absence
      ensures Contents() == saved
    {
      docs, events := saved.docs, saved.events;
      ids.fwd, ids.rev, ids.next := saved.ids.fwd, saved.ids.rev, saved.ids.next;
      inverted.bucket, numeric.buckets, temporal.logs := saved.inv, saved.num, saved.logs;
      groups.bucket, closure.asc, closure.desc := saved.groups, saved.table.asc, saved.table.desc;
      stats.bucket, absence.cells := saved.stats, saved.cells;
    }

    /** The index hooks of indexDocOnPut and indexDocOnDelete; only the closure hook can fail. */
    method Reindex(d: string, id: Id, was: Doc, now: Doc) returns (ok: bool)
      modifies inverted, numeric, temporal, groups, closure, stats, absence
      ensures ok <==> Closures.Update(old(Contents()).table, d, id, ParentOf(was), ParentOf(now)).Some?
      ensures ok ==> Reindexed(host, old(Contents()), Contents(), d, id, was, now)
    {
      var oldTerms, oldNums := Extract(host, was);
      var newTerms, newNums := Extract(host, now);
      inverted.ApplyDelta(id, oldTerms, newTerms);
      numeric.Apply(id, oldNums, newNums);
      temporal.Apply(d, EventOf(host, was), EventOf(host, now));
      groups.Apply(host, id, was, now);
      ok := closure.Apply(d, id, ParentOf(was), ParentOf(now));
      if !ok { return; }
      ExtractedFinite(was, oldNums);
      ExtractedFinite(now, newNums);
      stats.Apply(oldNums, newNums);
      absence.Apply(temporal, d, EventOf(host, was), EventOf(host, now), now.Blank?);
    }

    /** putInTxEvents: None is any error, after which the transaction must be rolled back. */
    method PutInTx(d: string, doc: Doc) returns (ev: Option<Mutation>)
      modifies this`docs, ids, inverted, numeric, temporal, groups, closure, stats, absence
      ensures ev.None? <==> PutRefused(host, old(Contents()), d, doc)
      ensures ev.Some? ==> PutTx(host, old(Contents()), d, doc, Contents().(events := old(events) + [ev.value]))
      ensures ev.Some? ==>
                ev.value == Mutation(if DocAt(old(docs), d).Blank? then Assert else Change, d, DocAt(old(docs), d), doc)
    {
      var was := DocAt(docs, d);
      docs := docs[d := doc];
      var id := ids.Assign(d);
      if id.None? { return None; }
      var ok := Reindex(d, id.value, was, doc);
      if !ok { return None; }
      ev := Some(Mutation(if was.Blank? then Assert else Change, d, was, doc));
    }

    /** Put: a cancelled context or an empty id is refused before anything is written. */
    method Put(d: string, doc: Doc, cancelled: bool) returns (ok: bool)
      modifies this, ids, inverted, numeric, temporal, groups, closure, stats, absence
      ensures ok <==> d != "" && !cancelled && !PutRefused(host, old(Contents()), d, doc)
      ensures ok ==> PutTx(host, old(Contents()), d, doc, Contents())
      ensures !ok ==> Contents() == old(Contents())
    {
      if d == "" || cancelled { return false; }
      var saved := Begin();
      var ev := PutInTx(d, doc);
      if ev.None? {
        Rollback(saved);
        return false;
      }
      events := events + [ev.value];
      ok := true;
    }
  
    /** Delete: a missing or zero-length document is removed without touching an index or emitting. */
    method Delete(d: string, cancelled: bool) returns (ok: bool)
      modifies this, ids, inverted, numeric, temporal, groups, closure, stats, absence
      ensures ok <==> d != "" && !cancelled
      ensures ok ==> DeleteTx(host, old(Contents()), d, Contents())
      ensures !ok ==> Contents() == old(Contents())
    {
      if d == "" || cancelled { return false; }
      var was := DocAt(docs, d);
      docs := docs - {d};
      if was.Blank? { return true; }
      if d in ids.fwd {
        var done := Reindex(d, ids.fwd[d], was, Blank);
      }
      events := events + [Mutation(Retract, d, was, Blank)];
      ok := true;
    }

    /** The state a commit would leave, with the collected events delivered. */
    ghost function WithPending(pending: seq<Mutation>): State
      reads this, ids, inverted, numeric, temporal, groups, closure, stats, absence
    {
      Contents().(events := events + pending)
    }

    /** One document of a batch. */
    method PutPending(d: string, doc: Doc, pending: seq<Mutation>, ghost s: State, ghost order: seq<(string, Doc)>)
      returns (r: Option<seq<Mutation>>)
      requires BatchTx(host, s, order, WithPending(pending))
      modifies this`docs, ids, inverted, numeric, temporal, groups, closure, stats, absence
      ensures r.Some? ==> BatchTx(host, s, order + [(d, doc)], WithPending(r.value))
      ensures r.None? ==> PutRefused(host, old(WithPending(pending)), d, doc)
    {
      ghost var before := WithPending(pending);
      var ev := PutInTx(d, doc);
      if ev.None? { return None; }
      r := Some(pending + [ev.value]);
      assert events + (pending + [ev.value]) == events + pending + [ev.value];
      BatchAppend(host, s, order, before, d, doc, WithPending(r.value));
    }

    /**
     The loop of a batch: a map is visited in no particular order; the context is cancelled after `budget` documents.
     */
    method PutAll(batch: map<string, Doc>, budget: nat)
      returns (r: Option<seq<Mutation>>, ghost order: seq<(string, Doc)>)
      modifies this`docs, ids, inverted, numeric, temporal, groups, closure, stats, absence
      ensures r.Some? ==>
                |batch| <= budget && Visits(order, batch) && BatchTx(host, old(Contents()), order, WithPending(r.value))
      ensures r.None? ==> budget < |batch| || Blocked(host, old(Contents()), batch)
    {
      order := [];
      var pending: seq<Mutation> := [];
      assert events + pending == events;
      var todo, n := batch.Keys, 0;
      while todo != {}
        invariant todo <= batch.Keys && VisitedBut(order, batch, todo) && n + |todo| == |batch| && n <= budget
        invariant BatchTx(host, old(Contents()), order, WithPending(pending))
        decreases todo
      {
        var d :| d in todo;
        if n == budget { return None, []; }
        ghost var before := WithPending(pending);
        var next := PutPending(d, batch[d], pending, old(Contents()), order);
        if next.None? {
          assert BlockedAt(host, old(Contents()), batch, order, before, d);
          return None, [];
        }
        VisitOne(order, batch, todo, d);
        order, pending := order + [(d, batch[d])], next.value;
        todo, n := todo - {d}, n + 1;
      }
      r := Some(pending);
    }

    /** BatchPut: every document is written, in some visiting order and in one transaction, or none is. */
    method BatchPut(batch: map<string, Doc>, cancelled: bool, budget: nat)
      returns (ok: bool, ghost order: seq<(string, Doc)>)
      modifies this, ids, inverted, numeric, temporal, groups, closure, stats, absence
      ensures ok ==> "" !in batch && !cancelled && |batch| <= budget
      ensures ok ==> Visits(order, batch) && BatchTx(host, old(Contents()), order, Contents())
      ensures !ok ==> "" in batch || cancelled || budget < |batch| || Blocked(host, old(Contents()), batch)
      ensures !ok ==> Contents() == old(Contents())
    {
      if "" in batch || cancelled { return false, []; }
      var saved := Begin();
      var pending;
      pending, order := PutAll(batch, budget);
      ok := pending.Some?;
      if ok {
        events := events + pending.value;
      } else {
        Rollback(saved);
      }
    }

    // ---------- reads ----------

    method Lookup(term: string) returns (r: Option<seq<string>>)
      requires Inv(host, Contents())
      ensures r.Some? && Elems(r.value) == Containing(host, docs, term) && Distinct(r.value)
      ensures forall d :: d in r.value <==> d in docs && Carries(host, docs[d], term)
    {
      ContainingRead(host, docs, term);
      LookupExact(host, Contents(), term);
      var bm := inverted.Lookup(term);
      r := ids.Materialize(bm);
      MaterialisedIs(Contents(), bm);
    }

    method LookupPrefix(p: string) returns (r: Option<seq<string>>)
      requires Inv(host, Contents())
      ensures r.Some? && Elems(r.value) == ContainingPrefix(host, docs, p) && Distinct(r.value)
      ensures forall d :: d in r.value <==> d in docs && exists t :: Carries(host, docs[d], t) && p <= t
    {
      ContainingPrefixRead(host, docs, p);
      LookupPrefixExact(host, Contents(), p);
      var bm := inverted.LookupPrefix(p);
      r := ids.Materialize(bm);
      MaterialisedIs(Contents(), bm);
    }

    /** None is the error for a bound that is not finite. */
    method LookupNumericRange(a: string, min: Float, max: Float, minEx: bool, maxEx: bool)
      returns (r: Option<seq<string>>)
      requires Inv(host, Contents())
      ensures r.None? <==> !Finite(min) || !Finite(max)
      ensures r.Some? ==> Elems(r.value) == FoundDocs(docs, a, min, max, minEx, maxEx) && Distinct(r.value)
      ensures r.Some? ==> forall d :: d in r.value <==> d in docs && NumberFound(docs[d], a, min, max, minEx, maxEx)
    {
      BucketsWellFormed(numeric.buckets, NumView(docs), ids.fwd, a);
      RangeExact(host, Contents(), a, min, max, minEx, maxEx);
      FoundRead(docs, a, min, max, minEx, maxEx);
      var bm := numeric.Range(a, min, max, minEx, maxEx);
      if bm.None? { return None; }
      r := ids.Materialize(bm.value);
      MaterialisedIs(Contents(), bm.value);
    }

    /** SequenceJoin over the stored logs, which the invariant keeps sorted and exact. */
    method SequenceJoin(items: seq<string>, steps: seq<string>, window: int) returns (out: seq<Sequences.Joined>)
      requires Inv(host, Contents())
      ensures forall k :: 0 <= k < |out| ==> Sequences.BestOf(temporal.logs, out[k], steps, window)
      ensures exists asked :: Sequences.JoinAnswers(temporal.logs, items, steps, window, out, asked)
    {
      forall item ensures SortedByTime(Log(temporal.logs, item)) {
        assert LogAgrees(temporal.logs, EventView(host, docs), item);
      }
      out := Sequences.SequenceJoin(temporal.logs, items, steps, window);
    }

    /** ClusterQuery: filter by record type, normalise the size, scan. */
    method ClusterQuery(item: string, kinds: set<string>, window: int, minSize: int)
      returns (out: seq<Clusters.Cluster>)
      requires Inv(host, Contents())
      ensures var full, size := Log(temporal.logs, item), if minSize < 1 then 1 else minSize;
              var log := if kinds == {} then full else OfKinds(full, kinds);
              exists runs :: Clusters.Clustering(log, window, size, out, runs)
    {
      var entries := temporal.Read(item, kinds);
      var full := Log(temporal.logs, item);
      assert LogAgrees(temporal.logs, EventView(host, docs), item);
      OfKindsSorted(full, kinds, if full == [] then 0 else full[0].at);
      out := Clusters.ClusterScan(entries, window, if minSize < 1 then 1 else minSize);
    }

    /** LastSeen: while the cell shows the right time, the latest live event unless a namesake outshines it. */
    method LastSeen(item: string, kind: string) returns (at: Option<int>)
      ensures at == Absences.LastSeen(absence.cells, item, kind)
      ensures TimeOk(absence.cells, EventView(host, docs), CellKey(item, kind)) ==>
                (LatestHappening(host, docs, item, kind, at) <==> !Outshone(EventView(host, docs), item, kind))
    {
      if TimeOk(absence.cells, EventView(host, docs), CellKey(item, kind)) {
        LastSeenExact(absence.cells, EventView(host, docs), item, kind);
      }
      at := absence.Lookup(item, kind);
      LatestRead(host, docs, item, kind, at);
    }

    /** GroupCount: an empty group is the zero answer; None is the orphan error. */
    method GroupCount(item: string, attr: string, value: string)
      returns (count: int, first: int, last: int, found: Option<seq<string>>)
      requires Inv(host, Contents())
      ensures found.Some? && Distinct(found.value) && count == |found.value|
      ensures Elems(found.value) == UnderKey(host, docs, GroupKey(item, attr, value))
      ensures Elems(found.value) == InGroupDocs(host, docs, item, attr, value) <==>
                !Stranger(host, docs, item, attr, value)
      ensures forall ts :: Spans(GroupAt(groups.bucket, GroupKey(item, attr, value)), ts) ==>
                if ts == {} then count == 0 && first == 0 && last == 0 else IsLeast(first, ts) && IsGreatest(last, ts)
      ensures GroupHeld(host, Contents(), GroupKey(item, attr, value)) ==>
                forall d :: d in found.value ==> d in docs && first <= TimeOf(host, docs[d]) <= last
    {
      GroupIsUnderKey(host, Contents(), item, attr, value);
      GroupCountExact(host, Contents(), item, attr, value);
      var g := groups.Read(item, attr, value);
      count, first, last := g.count, g.first, g.last;
      CountedGroup(groups.bucket, GroupView(host, docs), ids.fwd, GroupKey(item, attr, value));
      if count == 0 { return 0, 0, 0, Some([]); }
      found := ids.Materialize(g.members);
      MaterialisedIs(Contents(), g.members);
      DistinctSize(found.value);
      forall d | d in found.value && GroupHeld(host, Contents(), GroupKey(item, attr, value))
        ensures d in docs && first <= TimeOf(host, docs[d]) <= last
      {
        assert d in Elems(found.value);
        HeldAt(host, Contents(), item, attr, value, d);
      }
    }

    method Ancestors(d: string) returns (chain: seq<string>)
      ensures chain == ChainAt(closure.asc, d)
      ensures Inv(host, Contents()) ==> d !in chain
      ensures ChainsExact(Contents()) ==> IsWalk(ParentView(docs), d, chain)
    {
      assert Inv(host, Contents()) && d in closure.asc ==> ChainOk(closure.asc[d], d);
      chain := ChainAt(closure.asc, d);
    }

    /**
     Descendants: the documents whose stored chain names the root; those whose walk reaches it, while the chains are
     exact.
     */
    method Descendants(root: string) returns (found: Option<seq<string>>)
      requires Inv(host, Contents())
      ensures found.Some? && Distinct(found.value) && Elems(found.value) == OnChain(closure.asc, root)
      ensures ChainsExact(Contents()) ==>
                forall d, c :: IsWalk(ParentView(docs), d, c) ==> (d in found.value <==> root in c)
    {
      DescendantIds(closure.Contents(), ParentView(docs), ids.fwd, root);
      Materialises(Contents(), OnChain(closure.asc, root), At(closure.desc, root));
      var bm := At(closure.desc, root);
      found := ids.Materialize(bm);
      MaterialisedIs(Contents(), bm);
      forall d, c | ChainsExact(Contents()) && IsWalk(ParentView(docs), d, c) ensures d in found.value <==> root in c {
        WalkUnique(ParentView(docs), d, c, ChainAt(closure.asc, d));
        assert d in found.value <==> d in Elems(found.value);
      }
    }

    /** Stats: the true statistics of the live values, exactly unless a usable aggregate had gone wrong. */
    method RunningStats(p: string) returns (v: Stat)
      requires Inv(host, Contents())
      modifies stats
      ensures StatsTx(old(Contents()), p, Contents())
      ensures Describes(v, LiveValues(docs, p)) <==> LiveExact(old(Contents()), p)
      ensures AllSingleValued(docs) ==> (Describes(v, ByDocument(docs, p)) <==> LiveExact(old(Contents()), p))
    {
      BucketsWellFormed(numeric.buckets, NumView(docs), ids.fwd, p);
      NothingDescribed();
      assert p !in numeric.buckets ==> At(numeric.buckets, p) == Elems<string>([]);
      ghost var s := Contents();
      v := stats.Read(p, if p in numeric.buckets then Some(numeric.buckets[p]) else None);
      BucketIsLive(host, s, p, v);
      if AllSingleValued(docs) { OneValueEach(docs, p, v); }
    }
  }

  lemma {:induction false} HeldAt(h: Host, s: State, item: string, attr: string, value: string, d: string)
    requires GroupHeld(h, s, GroupKey(item, attr, value)) && d in UnderKey(h, s.docs, GroupKey(item, attr, value))
    ensures var g := GroupFor(s.groups, item, attr, value); g.first <= TimeOf(h, s.docs[d]) <= g.last
  {
    assert d in GroupView(h, s.docs) && GroupKey(item, attr, value) in GroupView(h, s.docs)[d];
  }

  /** After part of the batch, in some order, the put of another of its documents is refused. */
  ghost predicate Blocked(h: Host, s: State, batch: map<string, Doc>) {
    exists order, m, d :: BlockedAt(h, s, batch, order, m, d)
  }

  ghost predicate BlockedAt(h: Host, s: State, batch: map<string, Doc>, order: seq<(string, Doc)>, m: State,
                            d: string) {
    d in batch && FromBatch(order, batch) && !Named(order, d) && BatchTx(h, s, order, m) &&
        PutRefused(h, m, d, batch[d])
  }

  ghost predicate VisitedBut(order: seq<(string, Doc)>, batch: map<string, Doc>, todo: set<string>) {
    && FromBatch(order, batch)
    && (forall d :: d in todo ==> !Named(order, d))
    && (forall d :: d in batch && d !in todo ==> Named(order, d))
  }

  lemma VisitOne(order: seq<(string, Doc)>, batch: map<string, Doc>, todo: set<string>, d: string)
    requires VisitedBut(order, batch, todo) && d in todo && todo <= batch.Keys
    ensures VisitedBut(order + [(d, batch[d])], batch, todo - {d})
  {
    forall c ensures Named(order + [(d, batch[d])], c) <==> c == d || Named(order, c) {
      NamedLast(order, (d, batch[d]), c);
    }
    OnceMore(order, (d, batch[d]));
  }

  lemma OnceMore(order: seq<(string, Doc)>, item: (string, Doc))
    requires OnceEach(order) && !Named(order, item.0)
    ensures OnceEach(order + [item])
  {
  }

  lemma ExtractedFinite(doc: Doc, nums: seq<(string, Float)>)
    requires Elems(nums) == NumsOf(doc)
    ensures forall q :: q in nums ==> Finite(q.1)
  {
    DocNumsFinite(doc);
    assert forall q :: q in nums ==> q in Elems(nums);
  }

  lemma MaterialisedIs(s: State, bm: set<Id>)
    requires bm <= s.ids.rev.Keys
    ensures (set e | e in bm :: if e in s.ids.rev then s.ids.rev[e] else "") == DocsOf(s, bm)
  {
  }

  lemma {:induction false} BatchAppend(h: Host, s: State, items: seq<(string, Doc)>, m: State, d: string, doc: Doc,
                                       t: State)
    requires BatchTx(h, s, items, m) && PutTx(h, m, d, doc, t)
    ensures BatchTx(h, s, items + [(d, doc)], t)
  {
    var all := items + [(d, doc)];
    assert all[..|all| - 1] == items && all[|all| - 1] == (d, doc);
  }
}
