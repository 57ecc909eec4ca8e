/** Batches and the closure index: when the order in which a batch is visited matters to the chains. */
module Batches {
  import opened Float64
  import opened Documents
  import opened Closures
  import opened Engine
  import opened Runs
  import opened Restricted

  /** The chain one Put stores: the new parent and the chain it has at that moment; nobody else's changes. */
  lemma {:induction false} PutStores(h: Host, s: State, x: string, doc: Doc, t: State)
    requires Inv(h, s) && PutTx(h, s, x, doc, t)
    ensures forall y :: y != x ==> ChainAt(t.table.asc, y) == ChainAt(s.table.asc, y)
    ensures ChainAt(t.table.asc, x) == NewChain(s.table.asc, ParentOf(doc))
  {
    TableStores(s.table, ParentView(s.docs), s.docs, x, t.ids.fwd[x], ParentOf(doc));
  }

  lemma {:induction false} TableStores(table: Table, parents: Parents, docs: map<string, Doc>, x: string, id: Id,
                                       now: Option<string>)
    requires ChainsOk(table.asc, parents) && parents == ParentView(docs)
    requires Closures.Update(table, x, id, ParentOf(DocAt(docs, x)), now).Some?
    ensures var asc := Closures.Update(table, x, id, ParentOf(DocAt(docs, x)), now).value.asc;
            && (forall y :: y != x ==> ChainAt(asc, y) == ChainAt(table.asc, y))
            && ChainAt(asc, x) == NewChain(table.asc, now)
  {
    assert x in parents <==> ParentOf(DocAt(docs, x)).Some?;
    ChainsAfter(table, x, id, ParentOf(DocAt(docs, x)), now);
  }

  function NewChain(asc: Chains, parent: Option<string>): seq<string> {
    match parent
    case None => []
    case Some(p) => [p] + ChainAt(asc, p)
  }

  /** The batch changes d's parent field. */
  ghost predicate Moves(s: State, batch: map<string, Doc>, d: string) {
    d in batch && ParentOf(DocAt(s.docs, d)) != ParentOf(batch[d])
  }

  /** With the batch in place, no document it moves has a child. */
  ghost predicate MovesLeaves(s: State, batch: map<string, Doc>) {
    forall d, e :: Moves(s, batch, d) && e in s.docs + batch ==> ParentOf((s.docs + batch)[e]) != Some(d)
  }

  /** Part of the batch done: a document not yet visited, or not moved, has the chain it had before. */
  ghost predicate Midway(s: State, batch: map<string, Doc>, items: seq<(string, Doc)>, m: State) {
    forall x :: ChainAt(m.table.asc, x) ==
      if Named(items, x) && Moves(s, batch, x) then NewChain(s.table.asc, ParentOf(batch[x]))
      else ChainAt(s.table.asc, x)
  }

  lemma {:induction false} MidwayStep(h: Host, s: State, batch: map<string, Doc>, items: seq<(string, Doc)>, m: State,
                                      item: (string, Doc), t: State)
    requires Inv(h, s) && ChainsExact(s) && MovesLeaves(s, batch) && Inv(h, m) && Midway(s, batch, items, m)
    requires item.0 in batch && batch[item.0] == item.1 && PutTx(h, m, item.0, item.1, t)
    ensures Midway(s, batch, items + [item], t)
  {
    PutStores(h, m, item.0, item.1, t);
    ParentKeepsChain(h, s, batch, items, m, item.0);
    forall x ensures ChainAt(t.table.asc, x) ==
      if Named(items + [item], x) && Moves(s, batch, x) then NewChain(s.table.asc, ParentOf(batch[x]))
      else ChainAt(s.table.asc, x)
    {
      NamedLast(items, item, x);
    }
  }

  /** A parent named by the batch is not moved, so the chain built on it is the one built before the batch. */
  lemma {:induction false} ParentKeepsChain(h: Host, s: State, batch: map<string, Doc>, items: seq<(string, Doc)>,
                                            m: State, x: string)
    requires Inv(h, s) && ChainsExact(s) && MovesLeaves(s, batch) && Midway(s, batch, items, m) && x in batch
    ensures NewChain(m.table.asc, ParentOf(batch[x])) == NewChain(s.table.asc, ParentOf(batch[x]))
    ensures !Moves(s, batch, x) ==> NewChain(s.table.asc, ParentOf(batch[x])) == ChainAt(s.table.asc, x)
  {
    if ParentOf(batch[x]).Some? {
      var p := ParentOf(batch[x]).value;
      assert x in s.docs + batch && (s.docs + batch)[x] == batch[x];
      assert !Moves(s, batch, p);
      assert ChainAt(m.table.asc, p) == ChainAt(s.table.asc, p);
    }
    if !Moves(s, batch, x) { OldChain(h, s, x); }
  }

  /** An exact chain is the one a Put of the same parent would store. */
  lemma {:induction false} OldChain(h: Host, s: State, x: string)
    requires Inv(h, s) && ChainsExact(s)
    ensures ChainAt(s.table.asc, x) == NewChain(s.table.asc, ParentOf(DocAt(s.docs, x)))
  {
    ExactIsLinked(h, s);
    assert ParentAt(ParentView(s.docs), x) == ParentOf(DocAt(s.docs, x));
  }

  lemma FewerFromBatch(items: seq<(string, Doc)>, batch: map<string, Doc>)
    requires items != [] && FromBatch(items, batch)
    ensures var n := |items| - 1;
            && FromBatch(items[..n], batch) && items[..n] + [items[n]] == items
            && items[n].0 in batch && batch[items[n].0] == items[n].1
  {
  }

  lemma {:induction false} BatchKeeps(h: Host, s: State, items: seq<(string, Doc)>, t: State)
    requires Inv(h, s) && BatchTx(h, s, items, t)
    ensures Inv(h, t)
  {
    BatchInv(h, s, items, t);
  }

  lemma {:induction false} BatchMidway(h: Host, s: State, batch: map<string, Doc>, items: seq<(string, Doc)>, t: State)
    requires Inv(h, s) && ChainsExact(s) && MovesLeaves(s, batch) && FromBatch(items, batch) && BatchTx(h, s, items, t)
    ensures Midway(s, batch, items, t)
    decreases |items|
  {
    if items != [] {
      var n := |items| - 1;
      var m := BatchLast(h, s, items, t);
      FewerFromBatch(items, batch);
      BatchMidway(h, s, batch, items[..n], m);
      BatchKeeps(h, s, items[..n], m);
      MidwayStep(h, s, batch, items[..n], m, items[n], t);
    }
  }

  /** A walk from a document that does not move is a walk after the batch too. */
  lemma {:induction false} WalkStays(s: State, batch: map<string, Doc>, x: string, c: seq<string>)
    requires MovesLeaves(s, batch) && !Moves(s, batch, x) && IsWalk(ParentView(s.docs), x, c)
    ensures IsWalk(ParentView(s.docs + batch), x, c)
    decreases |c|
  {
    var docs := s.docs + batch;
    assert ParentAt(ParentView(docs), x) == ParentAt(ParentView(s.docs), x) by {
      assert ParentOf(DocAt(docs, x)) == ParentOf(DocAt(s.docs, x));
    }
    if x in ParentView(s.docs) {
      var p := ParentView(s.docs)[x];
      assert x in docs && ParentOf(docs[x]) == Some(p);
      WalkStays(s, batch, p, c[1..]);
    }
  }

  lemma {:induction false} FinalChain(h: Host, s: State, batch: map<string, Doc>, order: seq<(string, Doc)>, t: State,
                                      x: string)
    requires Inv(h, s) && ChainsExact(s) && MovesLeaves(s, batch) && Visits(order, batch) && Midway(s, batch, order, t)
    ensures IsWalk(ParentView(s.docs + batch), x, ChainAt(t.table.asc, x))
  {
    var docs, c := s.docs + batch, ChainAt(t.table.asc, x);
    if Moves(s, batch, x) {
      assert x in docs && docs[x] == batch[x] && c == NewChain(s.table.asc, ParentOf(batch[x]));
      if ParentOf(batch[x]).Some? {
        var p := ParentOf(batch[x]).value;
        assert IsWalk(ParentView(s.docs), p, ChainAt(s.table.asc, p));
        WalkStays(s, batch, p, ChainAt(s.table.asc, p));
        assert c[1..] == ChainAt(s.table.asc, p);
      }
    } else {
      assert IsWalk(ParentView(s.docs), x, ChainAt(s.table.asc, x));
      WalkStays(s, batch, x, c);
    }
  }

  /**
   If no document the batch moves ends up with a child, every visiting order that commits leaves the chains
   exact, hence the same ancestors.
   */
  lemma {:induction false} BatchChainsExact(h: Host, s: State, batch: map<string, Doc>, order: seq<(string, Doc)>,
                                            t: State)
    requires Inv(h, s) && ChainsExact(s) && MovesLeaves(s, batch) && Visits(order, batch) && BatchTx(h, s, order, t)
    ensures ChainsExact(t)
  {
    BatchMidway(h, s, batch, order, t);
    BatchInv(h, s, order, t);
    WithVisited(s.docs, order, batch);
    forall x ensures IsWalk(ParentView(t.docs), x, ChainAt(t.table.asc, x)) {
      FinalChain(h, s, batch, order, t, x);
    }
  }

  lemma {:induction false} BatchAncestorsAgree(h: Host, s: State, batch: map<string, Doc>, a: seq<(string, Doc)>,
                                               t: State, b: seq<(string, Doc)>, u: State, d: string)
    requires Inv(h, s) && ChainsExact(s) && MovesLeaves(s, batch)
    requires Visits(a, batch) && BatchTx(h, s, a, t) && Visits(b, batch) && BatchTx(h, s, b, u)
    ensures ChainAt(t.table.asc, d) == ChainAt(u.table.asc, d)
  {
    BatchChainsExact(h, s, batch, a, t);
    BatchChainsExact(h, s, batch, b, u);
    BatchOrderIrrelevant(h, s, batch, a, t, b, u, "");
    WalkUnique(ParentView(t.docs), d, ChainAt(t.table.asc, d), ChainAt(u.table.asc, d));
  }

  // ---------- and otherwise ----------

  /** d is visited, and e after it. */
  ghost predicate After(order: seq<(string, Doc)>, d: string, e: string) {
    exists i, j :: 0 <= i < j < |order| && order[i].0 == d && order[j].0 == e
  }

  /** As long as d has not been visited its chain, and one built on it, are the old ones. */
  ghost predicate Waiting(s: State, items: seq<(string, Doc)>, d: string, e: string, m: State) {
    && (!Named(items, d) ==> ChainAt(m.table.asc, d) == ChainAt(s.table.asc, d))
    && (!After(items, d, e) ==> ChainAt(m.table.asc, e) == [d] + ChainAt(s.table.asc, d)
                                || (!Named(items, e) && ChainAt(m.table.asc, e) == ChainAt(s.table.asc, e)))
  }

  lemma AfterLast(items: seq<(string, Doc)>, item: (string, Doc), d: string, e: string)
    ensures After(items + [item], d, e) <==> After(items, d, e) || (item.0 == e && Named(items, d))
  {
    var all := items + [item];
    if After(items, d, e) {
      var i, j :| 0 <= i < j < |items| && items[i].0 == d && items[j].0 == e;
      assert all[i].0 == d && all[j].0 == e;
    }
    if item.0 == e && Named(items, d) {
      var i :| 0 <= i < |items| && items[i].0 == d;
      assert all[i].0 == d && all[|items|].0 == e;
    }
  }

  lemma {:induction false} BatchWaiting(h: Host, s: State, batch: map<string, Doc>, items: seq<(string, Doc)>,
                                        t: State, d: string, e: string)
    requires Inv(h, s) && FromBatch(items, batch) && BatchTx(h, s, items, t) && d != e
    requires e in batch ==> ParentOf(batch[e]) == Some(d)
    ensures Waiting(s, items, d, e, t)
    decreases |items|
  {
    if items != [] {
      var n := |items| - 1;
      var m := BatchLast(h, s, items, t);
      FewerFromBatch(items, batch);
      BatchWaiting(h, s, batch, items[..n], m, d, e);
      BatchKeeps(h, s, items[..n], m);
      WaitingStep(h, s, items[..n], m, items[n], t, d, e);
    }
  }

  lemma {:induction false} WaitingStep(h: Host, s: State, items: seq<(string, Doc)>, m: State, item: (string, Doc),
                                       t: State, d: string, e: string)
    requires Inv(h, m) && Waiting(s, items, d, e, m) && PutTx(h, m, item.0, item.1, t) && d != e
    requires item.0 == e ==> ParentOf(item.1) == Some(d)
    ensures Waiting(s, items + [item], d, e, t)
  {
    PutStores(h, m, item.0, item.1, t);
    NamedLast(items, item, d);
    NamedLast(items, item, e);
    AfterLast(items, item, d, e);
  }

  /**
   If a document e ends up below one the batch moves, an order that commits without visiting e after it
   leaves e's chain stale.
   */
  lemma {:induction false} BatchChainsStale(h: Host, s: State, batch: map<string, Doc>, order: seq<(string, Doc)>,
                                            t: State, d: string, e: string)
    requires Inv(h, s) && ChainsExact(s) && Visits(order, batch) && BatchTx(h, s, order, t)
    requires Moves(s, batch, d) && d != e && e in s.docs + batch && ParentOf((s.docs + batch)[e]) == Some(d)
    requires !After(order, d, e)
    ensures ChainAt(t.table.asc, e) == [d] + ChainAt(s.table.asc, d) && !ChainsExact(t)
  {
    BatchWaiting(h, s, batch, order, t, d, e);
    BatchInv(h, s, order, t);
    WithVisited(s.docs, order, batch);
    if e !in batch { OldChain(h, s, e); }
    OldChain(h, s, d);
    assert DocAt(t.docs, d) == batch[d] && DocAt(t.docs, e) == (s.docs + batch)[e];
    if ChainsExact(t) {
      OldChain(h, t, e);
      OldChain(h, t, d);
      SameTail(d, ChainAt(s.table.asc, d), ChainAt(t.table.asc, d));
      assert NewChain(s.table.asc, ParentOf(DocAt(s.docs, d))) == NewChain(t.table.asc, ParentOf(batch[d]));
      DifferentParents(s.table.asc, t.table.asc, ParentOf(DocAt(s.docs, d)), ParentOf(batch[d]));
    }
  }

  lemma DifferentParents(a: Chains, b: Chains, p: Option<string>, q: Option<string>)
    requires p != q
    ensures NewChain(a, p) != NewChain(b, q)
  {
    if p.Some? { assert NewChain(a, p)[0] == p.value; }
    if q.Some? { assert NewChain(b, q)[0] == q.value; }
  }

  lemma SameTail(d: string, a: seq<string>, b: seq<string>)
    requires [d] + a == [d] + b
    ensures a == b
  {
    assert ([d] + a)[1..] == a && ([d] + b)[1..] == b;
  }
}
