/** First and last seen of a group, as the times written under its key since the key was last absent. */
module GroupTimes {
  import opened Float64
  import opened Documents
  import opened Postings
  import opened Groups
  import opened Engine
  import opened Runs
  import opened Restricted

  /** d is the only live document under the key, so the key goes as d leaves it. */
  ghost predicate OnlyUnder(h: Host, docs: map<string, Doc>, k: string, d: string) {
    UnderKey(h, docs, k) == {d}
  }

  /** The times one step leaves written under the key since it was last absent. */
  ghost function WrittenAfter(h: Host, s: State, op: Op, t: State, k: string, before: set<int>): set<int> {
    if t == s then before
    else match op
      case Put(d, doc) => TimesAfter(before, OnlyUnder(h, s.docs, k, d), k in KeysOfDoc(h, doc), TimeOf(h, doc))
      case Delete(d) => TimesAfter(before, OnlyUnder(h, s.docs, k, d), false, 0)
      case ReadStats(_) => before
  }

  ghost function Written(h: Host, ops: seq<Op>, trace: seq<State>, n: nat, k: string): set<int>
    requires n <= |ops| && |trace| == |ops| + 1
  {
    if n == 0 then {} else WrittenAfter(h, trace[n - 1], ops[n - 1], trace[n], k, Written(h, ops, trace, n - 1, k))
  }

  /** The record of the key spans the times, all positive. */
  ghost predicate Tight(s: State, k: string, ts: set<int>) {
    Spans(GroupAt(s.groups, k), ts) && forall t :: t in ts ==> t > 0
  }

  /** A key's members are the ids of the documents under it. */
  lemma {:induction false} MembersAre(h: Host, g: Bucket, docs: map<string, Doc>, ids: map<string, Id>, k: string)
    requires GroupsAgree(g, GroupView(h, docs), ids)
    ensures UnderKey(h, docs, k) <= ids.Keys && MembersOf(GroupAt(g, k)) == Image(ids, UnderKey(h, docs, k))
    ensures Counted(GroupAt(g, k))
  {
    assert At(Members(g), k) == Holders(GroupView(h, docs), ids, k);
    assert MembersOf(GroupAt(g, k)) == At(Members(g), k);
    assert k in g ==> k in Members(g);
  }

  lemma {:induction false} OnlyMember(ids: map<string, Id>, ds: set<string>, d: string)
    requires Injective(ids) && ds <= ids.Keys && d in ds
    ensures Image(ids, ds) == {ids[d]} <==> ds == {d}
  {
    forall c | c in ds ensures ids[c] in Image(ids, ds) {
    }
    if Image(ids, ds) == {ids[d]} {
      forall c | c in ds ensures c == d {
        assert ids[c] in Image(ids, ds);
      }
    }
  }

  /** The documents' side of one move of the group index. */
  lemma {:induction false} MoveTight(h: Host, g: Bucket, g': Bucket, docs: map<string, Doc>, ids: map<string, Id>,
                                     d: string, doc: Doc, k: string, ts: set<int>)
    requires GroupsAgree(g, GroupView(h, docs), ids) && Injective(ids) && d in ids
    requires GroupsMoved(g, g', ids[d], KeysOfDoc(h, DocAt(docs, d)), KeysOfDoc(h, doc), TimeOf(h, doc))
    requires Spans(GroupAt(g, k), ts) && (forall t :: t in ts ==> t > 0) &&
             (k in KeysOfDoc(h, doc) ==> TimeOf(h, doc) > 0)
    ensures Spans(GroupAt(g', k), TimesAfter(ts, OnlyUnder(h, docs, k, d), k in KeysOfDoc(h, doc), TimeOf(h, doc)))
  {
    var was := k in KeysOfDoc(h, DocAt(docs, d));
    MembersAre(h, g, docs, ids, k);
    assert was <==> d in UnderKey(h, docs, k);
    if was {
      OnlyMember(ids, UnderKey(h, docs, k), d);
      assert ids[d] in Image(ids, UnderKey(h, docs, k));
    }
    assert OnlyUnder(h, docs, k, d) ==> d in UnderKey(h, docs, k);
    SpansStep(GroupAt(g, k), GroupAt(g', k), ids[d], was, k in KeysOfDoc(h, doc), TimeOf(h, doc), ts);
  }

  lemma {:induction false} PutTight(h: Host, s: State, d: string, doc: Doc, t: State, k: string, ts: set<int>)
    requires Inv(h, s) && PutTx(h, s, d, doc, t) && Tight(s, k, ts) && (k in KeysOfDoc(h, doc) ==> TimeOf(h, doc) > 0)
    ensures Tight(t, k, TimesAfter(ts, OnlyUnder(h, s.docs, k, d), k in KeysOfDoc(h, doc), TimeOf(h, doc)))
  {
    AssignInv(h, s, d);
    ValidInjective(t.ids);
    MoveTight(h, s.groups, t.groups, s.docs, t.ids.fwd, d, doc, k, ts);
  }

  lemma {:induction false} DeleteTight(h: Host, s: State, d: string, t: State, k: string, ts: set<int>)
    requires Inv(h, s) && DeleteTx(h, s, d, t) && Tight(s, k, ts)
    ensures Tight(t, k, TimesAfter(ts, OnlyUnder(h, s.docs, k, d), false, 0))
  {
    if DocAt(s.docs, d).Blank? {
      assert d !in UnderKey(h, s.docs, k);
      assert !OnlyUnder(h, s.docs, k, d);
    } else {
      ValidInjective(s.ids);
      MoveTight(h, s.groups, t.groups, s.docs, s.ids.fwd, d, Blank, k, ts);
    }
  }

  lemma {:induction false} StepTight(h: Host, s: State, op: Op, t: State, k: string, ts: set<int>)
    requires Inv(h, s) && Step(h, s, op, t) && Tight(s, k, ts) && PositiveAdds(h, op, k)
    ensures Tight(t, k, WrittenAfter(h, s, op, t, k, ts))
  {
    if t != s {
      match op
      case Put(d, doc) => PutTight(h, s, d, doc, t, k, ts);
      case Delete(d) => DeleteTight(h, s, d, t, k, ts);
      case ReadStats(_) =>
    }
  }

  /**
   On every run that adds only positive times under a key, its first and last are the least and the
   greatest of the times written under it since it was last absent; it is absent exactly when there are none.
   */
  lemma {:induction false} RunTight(h: Host, ops: seq<Op>, trace: seq<State>, n: nat, k: string)
    requires IsRun(h, ops, trace) && n <= |ops|
    requires forall i :: 0 <= i < |ops| ==> PositiveAdds(h, ops[i], k)
    ensures Tight(trace[n], k, Written(h, ops, trace, n, k))
  {
    if n > 0 {
      RunTight(h, ops, trace, n - 1, k);
      assert PositiveAdds(h, ops[n - 1], k);
      NextTight(h, ops, trace, n, k, Written(h, ops, trace, n - 1, k));
    }
  }

  lemma {:induction false} NextTight(h: Host, ops: seq<Op>, trace: seq<State>, n: nat, k: string, ts: set<int>)
    requires IsRun(h, ops, trace) && 0 < n <= |ops| && Tight(trace[n - 1], k, ts) && PositiveAdds(h, ops[n - 1], k)
    ensures Tight(trace[n], k, WrittenAfter(h, trace[n - 1], ops[n - 1], trace[n], k, ts))
  {
    RunInv(h, ops, trace, n - 1);
    assert StepAt(h, ops, trace, n - 1);
    StepTight(h, trace[n - 1], ops[n - 1], trace[n], k, ts);
  }

  // ---------- against the live members ----------

  ghost function LiveTimes(h: Host, docs: map<string, Doc>, k: string): set<int> {
    set d | d in UnderKey(h, docs, k) :: TimeOf(h, docs[d])
  }

  /** No member has left or been overwritten since the key was last absent. */
  ghost predicate Settled(h: Host, ops: seq<Op>, trace: seq<State>, n: nat, k: string)
    requires n <= |ops| && |trace| == |ops| + 1
  {
    n == 0 || SettledAfter(h, trace[n - 1], ops[n - 1], trace[n], k, Settled(h, ops, trace, n - 1, k))
  }

  ghost predicate SettledAfter(h: Host, s: State, op: Op, t: State, k: string, before: bool) {
    if t == s || op.ReadStats? then before
    else OnlyUnder(h, s.docs, k, op.d) || (before && op.d !in UnderKey(h, s.docs, k))
  }

  lemma {:induction false} StepLive(h: Host, s: State, op: Op, t: State, k: string, ts: set<int>, settled: bool)
    requires Step(h, s, op, t) && LiveTimes(h, s.docs, k) <= ts && (settled ==> ts == LiveTimes(h, s.docs, k))
    ensures LiveTimes(h, t.docs, k) <= WrittenAfter(h, s, op, t, k, ts)
    ensures SettledAfter(h, s, op, t, k, settled) ==> WrittenAfter(h, s, op, t, k, ts) == LiveTimes(h, t.docs, k)
  {
    if t != s && !op.ReadStats? {
      StepDocs(h, s, op, t);
      DocsAfter(h, s, op, t);
      LiveAfter(h, s.docs, op.d, if op.Put? then Some(op.doc) else None, k, ts, settled);
    }
  }

  lemma DocsAfter(h: Host, s: State, op: Op, t: State)
    requires Committed(h, s, op, t)
    ensures op.Put? ==> t.docs == s.docs[op.d := op.doc]
    ensures op.Delete? ==> t.docs == s.docs - {op.d}
  {
  }

  /** The documents with d replaced or removed. */
  ghost function With(docs: map<string, Doc>, d: string, now: Option<Doc>): map<string, Doc> {
    if now.Some? then docs[d := now.value] else docs - {d}
  }

  lemma {:induction false} UnderAfter(h: Host, docs: map<string, Doc>, d: string, now: Option<Doc>, k: string)
    ensures UnderKey(h, With(docs, d, now), k)
         == UnderKey(h, docs, k) - {d} + if now.Some? && k in KeysOfDoc(h, now.value) then {d} else {}
  {
  }

  lemma {:induction false} LiveAfter(h: Host, docs: map<string, Doc>, d: string, now: Option<Doc>, k: string,
                                     ts: set<int>, settled: bool)
    requires LiveTimes(h, docs, k) <= ts && (settled ==> ts == LiveTimes(h, docs, k))
    ensures var joins, at := now.Some? && k in KeysOfDoc(h, now.value), if now.Some? then TimeOf(h, now.value) else 0;
            var after := TimesAfter(ts, OnlyUnder(h, docs, k, d), joins, at);
            && LiveTimes(h, With(docs, d, now), k) <= after
            && (OnlyUnder(h, docs, k, d) || (settled && d !in UnderKey(h, docs, k)) ==>
                  after == LiveTimes(h, With(docs, d, now), k))
  {
    UnderAfter(h, docs, d, now, k);
    var docs' := With(docs, d, now);
    var joins := now.Some? && k in KeysOfDoc(h, now.value);
    assert forall c :: c in UnderKey(h, docs, k) && c != d ==> docs'[c] == docs[c];
    forall c | c in UnderKey(h, docs, k) && c != d ensures TimeOf(h, docs'[c]) in LiveTimes(h, docs, k) {
    }
    if joins { assert d in UnderKey(h, docs', k) && docs'[d] == now.value; }
    if settled && d !in UnderKey(h, docs, k) {
      forall x | x in ts ensures x in LiveTimes(h, docs', k) {
        var c :| c in UnderKey(h, docs, k) && TimeOf(h, docs[c]) == x;
        assert c in UnderKey(h, docs', k) && docs'[c] == docs[c];
      }
    }
  }

  /**
   The live members' times are always among those written; if no member has left or been overwritten since
   the key was last absent they are all of them, and then first and last are the live minimum and maximum.
   */
  lemma {:induction false} RunLive(h: Host, ops: seq<Op>, trace: seq<State>, n: nat, k: string)
    requires IsRun(h, ops, trace) && n <= |ops|
    ensures LiveTimes(h, trace[n].docs, k) <= Written(h, ops, trace, n, k)
    ensures Settled(h, ops, trace, n, k) ==> Written(h, ops, trace, n, k) == LiveTimes(h, trace[n].docs, k)
  {
    if n > 0 {
      RunLive(h, ops, trace, n - 1, k);
      assert StepAt(h, ops, trace, n - 1);
      var before, settled := Written(h, ops, trace, n - 1, k), Settled(h, ops, trace, n - 1, k);
      StepLive(h, trace[n - 1], ops[n - 1], trace[n], k, before, settled);
    }
  }
}
