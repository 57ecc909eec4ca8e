/**
 The store of one entity as a state machine: the live documents, the id map, the seven indexes and the
 emitted events. A step is one committed transaction, or a rolled-back one that changes nothing.
 */
module Engine {
  import opened Float64
  import opened Documents
  import opened IdMaps
  import opened Postings
  import Inverted
  import opened Numeric
  import opened Temporal
  import opened Groups
  import opened Closures
  import opened Stats
  import opened Absences

  datatype Kind = Assert | Change | Retract

  /** A MutationEvent; an absent document is Blank. */
  datatype Mutation = Mutation(kind: Kind, doc: string, was: Doc, now: Doc)

  datatype State = State(
    docs: map<string, Doc>,
    ids: Ids,
    inv: map<string, set<Id>>,
    num: map<string, set<string>>,
    logs: Logs,
    groups: Bucket,
    table: Table,
    stats: Aggregates,
    cells: Cells,
    events: seq<Mutation>)

  const INIT: State := State(map[], EMPTY, map[], map[], map[], map[], Table(map[], map[]), map[], map[], [])

  /** The decoded prior document: nil, hence Blank, when there is none. */
  function DocAt(docs: map<string, Doc>, d: string): Doc {
    if d in docs then docs[d] else Blank
  }

  // ---------- transactions ----------

  /** Every index hook, from the old contents of d to the new ones under internal id `id`. */
  ghost predicate Reindexed(h: Host, s: State, t: State, d: string, id: Id, was: Doc, now: Doc) {
    && t.inv == Inverted.Update(s.inv, id, Terms(h, was), Terms(h, now))
    && NumsMoved(s.num, t.num, id, NumsOf(was), NumsOf(now))
    && TempMoved(s.logs, t.logs, d, EventOf(h, was), EventOf(h, now))
    && GroupsMoved(s.groups, t.groups, id, KeysOfDoc(h, was), KeysOfDoc(h, now), TimeOf(h, now))
    && Closures.Update(s.table, d, id, ParentOf(was), ParentOf(now)) == Some(t.table)
    && StatsMoved(s.stats, t.stats, NumsOf(was), NumsOf(now))
    && t.cells == Updated(s.cells, t.logs, d, EventOf(h, was), EventOf(h, now), now.Blank?)
  }

  ghost predicate PutTx(h: Host, s: State, d: string, doc: Doc, t: State) {
    var was := DocAt(s.docs, d);
    && !Exhausted(s.ids, d)
    && t.docs == s.docs[d := doc]
    && t.ids == Assigned(s.ids, d)
    && Reindexed(h, s, t, d, t.ids.fwd[d], was, doc)
    && t.events == s.events + [Mutation(if was.Blank? then Assert else Change, d, was, doc)]
  }

  /** What makes a Put fail on its own account: no id left, or the closure index refuses. */
  ghost predicate PutRefused(h: Host, s: State, d: string, doc: Doc) {
    Exhausted(s.ids, d) ||
    Closures.Update(s.table, d, Assigned(s.ids, d).fwd[d], ParentOf(DocAt(s.docs, d)), ParentOf(doc)).None?
  }

  /** A zero-length document decodes to nil, so deleting one touches no index and emits nothing. */
  ghost predicate DeleteTx(h: Host, s: State, d: string, t: State) {
    var was := DocAt(s.docs, d);
    && t.docs == s.docs - {d}
    && t.ids == s.ids
    && (if was.Blank? then t == s.(docs := t.docs)
        else
          && t.events == s.events + [Mutation(Retract, d, was, Blank)]
          && (if d in s.ids.fwd then Reindexed(h, s, t, d, s.ids.fwd[d], was, Blank)
              else t == s.(docs := t.docs, events := t.events)))
  }

  /** Reading an aggregate stores the recomputed one. */
  ghost predicate StatsTx(s: State, p: string, t: State) {
    && t == s.(stats := t.stats)
    && if StatAt(s.stats, p).stale && p in s.num then
         p in t.stats && t.stats == s.stats[p := t.stats[p]] && !t.stats[p].stale &&
             Describes(t.stats[p], KeyValues(s.num[p]))
       else t.stats == s.stats
  }

  ghost predicate BatchTx(h: Host, s: State, items: seq<(string, Doc)>, t: State)
    decreases |items|
  {
    if items == [] then t == s
    else
      var last := items[|items| - 1];
      exists m :: BatchTx(h, s, items[..|items| - 1], m) && PutTx(h, m, last.0, last.1, t)
  }

  // ---------- the unconditional invariant: every index is a brute-force reading of the live documents ----------

  ghost function TermView(h: Host, docs: map<string, Doc>): map<string, set<string>> {
    map d | d in docs :: Terms(h, docs[d])
  }

  ghost function NumView(docs: map<string, Doc>): map<string, Nums> {
    map d | d in docs :: NumsOf(docs[d])
  }

  ghost function EventView(h: Host, docs: map<string, Doc>): Events {
    map d | d in docs && EventOf(h, docs[d]).Some? :: EventOf(h, docs[d]).value
  }

  ghost function GroupView(h: Host, docs: map<string, Doc>): map<string, set<string>> {
    map d | d in docs :: KeysOfDoc(h, docs[d])
  }

  ghost function ParentView(docs: map<string, Doc>): Parents {
    map d | d in docs && ParentOf(docs[d]).Some? :: ParentOf(docs[d]).value
  }

  ghost predicate Inv(h: Host, s: State) {
    && Valid(s.ids) && s.docs.Keys <= s.ids.fwd.Keys
    && Agrees(s.inv, TermView(h, s.docs), s.ids.fwd)
    && NumAgrees(s.num, NumView(s.docs), s.ids.fwd)
    && TempAgrees(s.logs, EventView(h, s.docs))
    && GroupsAgree(s.groups, GroupView(h, s.docs), s.ids.fwd)
    && TableOk(s.table, ParentView(s.docs), s.ids.fwd)
  }

  lemma ValidInjective(m: Ids)
    requires Valid(m)
    ensures Injective(m.fwd)
  {
  }

  lemma InitInv(h: Host)
    ensures Inv(h, INIT)
  {
    assert ChainView(map[]) == map[] && Members(map[]) == map[];
    forall item ensures LogAgrees(INIT.logs, EventView(h, INIT.docs), item) {
      assert EntriesOf(EventView(h, INIT.docs), item) == {};
    }
  }

  /** A new id disturbs no index. */
  lemma AssignInv(h: Host, s: State, d: string)
    requires Inv(h, s) && !Exhausted(s.ids, d)
    ensures Inv(h, s.(ids := Assigned(s.ids, d))) && d in Assigned(s.ids, d).fwd
  {
    AssignKeeps(s.ids, d);
    var ids' := Assigned(s.ids, d).fwd;
    Extend(s.inv, TermView(h, s.docs), s.ids.fwd, ids');
    NumExtend(s.num, NumView(s.docs), s.ids.fwd, ids');
    Extend(Members(s.groups), GroupView(h, s.docs), s.ids.fwd, ids');
    Extend(s.table.desc, ChainView(s.table.asc), s.ids.fwd, ids');
  }

  lemma ViewsAfterPut(h: Host, docs: map<string, Doc>, d: string, doc: Doc)
    ensures TermView(h, docs[d := doc]) == TermView(h, docs)[d := Terms(h, doc)]
    ensures NumView(docs[d := doc]) == NumView(docs)[d := NumsOf(doc)]
    ensures GroupView(h, docs[d := doc]) == GroupView(h, docs)[d := KeysOfDoc(h, doc)]
  {
  }

  lemma FieldViewsAfterPut(h: Host, docs: map<string, Doc>, d: string, doc: Doc)
    ensures EventView(h, docs[d := doc]) == WithEvent(EventView(h, docs), d, EventOf(h, doc))
    ensures ParentView(docs[d := doc]) == WithParent(ParentView(docs), d, ParentOf(doc))
  {
    EventViewAfterPut(h, docs, d, doc);
    ParentViewAfterPut(docs, d, doc);
  }

  lemma EventViewAfterPut(h: Host, docs: map<string, Doc>, d: string, doc: Doc)
    ensures EventView(h, docs[d := doc]) == WithEvent(EventView(h, docs), d, EventOf(h, doc))
  {
  }

  lemma ParentViewAfterPut(docs: map<string, Doc>, d: string, doc: Doc)
    ensures ParentView(docs[d := doc]) == WithParent(ParentView(docs), d, ParentOf(doc))
  {
  }

  lemma ViewsWithout(h: Host, docs: map<string, Doc>, d: string)
    requires d in docs && docs[d].Blank?
    ensures TermView(h, docs)[d] == {} && TermView(h, docs - {d}) == TermView(h, docs) - {d}
    ensures NumView(docs)[d] == {} && NumView(docs - {d}) == NumView(docs) - {d}
    ensures GroupView(h, docs)[d] == {} && GroupView(h, docs - {d}) == GroupView(h, docs) - {d}
  {
  }

  lemma FieldViewsAfterDelete(h: Host, docs: map<string, Doc>, d: string)
    ensures EventView(h, docs - {d}) == WithEvent(EventView(h, docs), d, None)
    ensures ParentView(docs - {d}) == WithParent(ParentView(docs), d, None)
  {
  }

  lemma FieldViewsWithout(h: Host, docs: map<string, Doc>, d: string)
    requires DocAt(docs, d).Blank?
    ensures EventView(h, docs - {d}) == EventView(h, docs) && ParentView(docs - {d}) == ParentView(docs)
  {
  }

  lemma ViewsNow(h: Host, docs: map<string, Doc>, d: string)
    ensures KeysOf(TermView(h, docs), d) == Terms(h, DocAt(docs, d))
    ensures NumsAt(NumView(docs), d) == NumsOf(DocAt(docs, d))
    ensures KeysOf(GroupView(h, docs), d) == KeysOfDoc(h, DocAt(docs, d))
    ensures EventAt(EventView(h, docs), d) == EventOf(h, DocAt(docs, d))
    ensures ParentAt(ParentView(docs), d) == ParentOf(DocAt(docs, d))
  {
  }

  /** The hooks carry the invariant from the old contents of one document to the new ones. */
  lemma {:induction false} ReindexInv(h: Host, s: State, t: State, d: string, doc: Doc)
    requires Inv(h, s) && d in s.ids.fwd && t.ids == s.ids
    requires Reindexed(h, s, t, d, s.ids.fwd[d], DocAt(s.docs, d), doc)
    ensures Inv(h, t.(docs := s.docs[d := doc]))
  {
    var ids := s.ids.fwd;
    ValidInjective(s.ids);
    ViewsAfterPut(h, s.docs, d, doc);
    FieldViewsAfterPut(h, s.docs, d, doc);
    ViewsNow(h, s.docs, d);
    Inverted.UpdateKeeps(s.inv, TermView(h, s.docs), ids, d, Terms(h, doc));
    NumReplace(s.num, t.num, NumView(s.docs), ids, d, NumsOf(doc));
    TempMoveKeeps(s.logs, t.logs, EventView(h, s.docs), d, EventOf(h, doc));
    GroupMoveKeeps(s.groups, t.groups, GroupView(h, s.docs), ids, d, KeysOfDoc(h, doc), TimeOf(h, doc));
    UpdateKeepsTable(s.table, ParentView(s.docs), ids, d, ParentOf(doc));
  }

  /** A document that contributes nothing can leave. */
  lemma BlankLeaves(h: Host, s: State, d: string, t: State)
    requires Inv(h, s) && DocAt(s.docs, d).Blank? && t == s.(docs := s.docs - {d})
    ensures Inv(h, t)
  {
    FieldViewsWithout(h, s.docs, d);
    if d in s.docs {
      ViewsWithout(h, s.docs, d);
      Forget(s.inv, TermView(h, s.docs), s.ids.fwd, d);
      NumForget(s.num, NumView(s.docs), s.ids.fwd, d);
      Forget(Members(s.groups), GroupView(h, s.docs), s.ids.fwd, d);
    } else {
      assert s.docs - {d} == s.docs;
    }
  }

  lemma {:induction false} BlankedLeaves(h: Host, docs: map<string, Doc>, t: State, d: string)
    requires t.docs == docs - {d} && Inv(h, t.(docs := docs[d := Blank]))
    ensures Inv(h, t)
  {
    assert docs[d := Blank] - {d} == docs - {d};
    BlankLeaves(h, t.(docs := docs[d := Blank]), d, t);
  }

  lemma {:induction false} PutInv(h: Host, s: State, d: string, doc: Doc, t: State)
    requires Inv(h, s) && PutTx(h, s, d, doc, t)
    ensures Inv(h, t)
  {
    AssignInv(h, s, d);
    ReindexInv(h, s.(ids := t.ids), t, d, doc);
    assert t.(docs := s.docs[d := doc]) == t;
  }

  lemma {:induction false} DeleteLiveInv(h: Host, s: State, d: string, t: State)
    requires Inv(h, s) && d in s.docs && t.ids == s.ids && t.docs == s.docs - {d}
    requires Reindexed(h, s, t, d, s.ids.fwd[d], s.docs[d], Blank)
    ensures Inv(h, t)
  {
    ReindexInv(h, s, t, d, Blank);
    BlankedLeaves(h, s.docs, t, d);
  }

  lemma {:induction false} DeleteInv(h: Host, s: State, d: string, t: State)
    requires Inv(h, s) && DeleteTx(h, s, d, t)
    ensures Inv(h, t)
  {
    if DocAt(s.docs, d).Blank? {
      BlankLeaves(h, s, d, t);
    } else {
      DeleteLiveInv(h, s, d, t);
    }
  }
}
