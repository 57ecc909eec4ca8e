/** Group-by index: counters per (item, attribute, value) (bboltstore/groupby.go and its hook). */
module Groups {
  import opened Order
  import opened Float64
  import opened Documents
  import opened Postings

  datatype Group = Group(count: int, first: int, last: int, members: set<Id>)

  type Bucket = map<string, Group>

  function GroupKey(item: string, attr: string, value: string): string {
    item + "|" + attr + "|" + value
  }

  ghost function ScalarKeys(item: string, scalars: map<string, string>): set<string> {
    set a | a in scalars :: GroupKey(item, a, scalars[a])
  }

  /** The group keys a document contributes to. */
  ghost function KeysOfDoc(h: Host, doc: Doc): set<string> {
    if HasText(doc, "item_id") then ScalarKeys(ItemOf(doc), ScalarsOf(h, doc)) else {}
  }

  /** The timestamp it contributes: 0 when it is not a temporal document. */
  function TimeOf(h: Host, doc: Doc): int {
    match EventOf(h, doc)
    case Some(e) => e.at
    case None => 0
  }

  function GroupAt(g: Bucket, k: string): Option<Group> {
    if k in g then Some(g[k]) else None
  }

  /** groupByAdd on one record. */
  function Joined(o: Option<Group>, id: Id, at: int): Group {
    var v := if o.Some? then o.value else Group(0, 0, 0, {});
    Group(if id in v.members then v.count else v.count + 1,
          if v.first == 0 || at < v.first then at else v.first,
          if at > v.last then at else v.last,
          v.members + {id})
  }

  /** groupByRemove on one record; None deletes the key. The timestamps are not narrowed. */
  function Left(o: Option<Group>, id: Id): Option<Group> {
    if o.None? || id !in o.value.members then o
    else
      var v := o.value.(count := o.value.count - 1, members := o.value.members - {id});
      if v.count <= 0 || v.members == {} then None else Some(v)
  }

  /** updateGroupByIndex, key by key: two attributes may share a key, and one step suffices. */
  ghost predicate GroupsMoved(g: Bucket, g': Bucket, id: Id, was: set<string>, now: set<string>, at: int) {
    forall k :: KeyMoved(GroupAt(g, k), GroupAt(g', k), id, k in was, k in now, at)
  }

  predicate KeyMoved(o: Option<Group>, o': Option<Group>, id: Id, was: bool, now: bool, at: int) {
    var mid := if was then Left(o, id) else o;
    o' == if now then Some(Joined(mid, id, at)) else mid
  }

  class GroupIndex {
    var bucket: Bucket

    constructor ()
      ensures bucket == map[]
    {
      bucket := map[];
    }

    method Add(item: string, attr: string, value: string, id: Id, at: int)
      modifies this
      ensures var k := GroupKey(item, attr, value);
              bucket == old(bucket)[k := Joined(GroupAt(old(bucket), k), id, at)]
    {
      var key := GroupKey(item, attr, value);
      var v := if key in bucket then bucket[key] else Group(0, 0, 0, {});
      if id !in v.members {
        v := v.(count := v.count + 1);
      }
      if v.first == 0 || at < v.first {
        v := v.(first := at);
      }
      if at > v.last {
        v := v.(last := at);
      }
      bucket := bucket[key := v.(members := v.members + {id})];
    }

    method Remove(item: string, attr: string, value: string, id: Id)
      modifies this
      ensures var k := GroupKey(item, attr, value);
              && (forall j :: j != k ==> GroupAt(bucket, j) == GroupAt(old(bucket), j))
              && GroupAt(bucket, k) == Left(GroupAt(old(bucket), k), id)
    {
      var key := GroupKey(item, attr, value);
      if key !in bucket { return; }
      var v := bucket[key];
      if id !in v.members { return; }
      v := v.(count := v.count - 1, members := v.members - {id});
      if v.count <= 0 || v.members == {} {
        bucket := bucket - {key};
      } else {
        bucket := bucket[key := v];
      }
    }

    /** Leave every group of the old document; Go visits the scalars in no particular order. */
    method LeaveAll(item: string, scalars: map<string, string>, id: Id)
      modifies this
      ensures GroupsMoved(old(bucket), bucket, id, ScalarKeys(item, scalars), {}, 0)
    {
      var todo := scalars.Keys;
      while todo != {}
        invariant todo <= scalars.Keys
        invariant GroupsMoved(old(bucket), bucket, id, Done(item, scalars, todo), {}, 0)
      {
        var a :| a in todo;
        DoneStep(item, scalars, todo, a);
        Remove(item, a, scalars[a], id);
        todo := todo - {a};
      }
      assert Done(item, scalars, {}) == ScalarKeys(item, scalars);
    }

    method JoinAll(item: string, scalars: map<string, string>, id: Id, at: int)
      modifies this
      ensures GroupsMoved(old(bucket), bucket, id, {}, ScalarKeys(item, scalars), at)
    {
      var todo := scalars.Keys;
      while todo != {}
        invariant todo <= scalars.Keys
        invariant GroupsMoved(old(bucket), bucket, id, {}, Done(item, scalars, todo), at)
      {
        var a :| a in todo;
        DoneStep(item, scalars, todo, a);
        Add(item, a, scalars[a], id, at);
        todo := todo - {a};
      }
      assert Done(item, scalars, {}) == ScalarKeys(item, scalars);
    }

    method Apply(h: Host, id: Id, was: Doc, now: Doc)
      modifies this
      ensures GroupsMoved(old(bucket), bucket, id, KeysOfDoc(h, was), KeysOfDoc(h, now), TimeOf(h, now))
    {
      if HasText(was, "item_id") {
        LeaveAll(ItemOf(was), ScalarsOf(h, was), id);
      }
      if HasText(now, "item_id") {
        JoinAll(ItemOf(now), ScalarsOf(h, now), id, TimeOf(h, now));
      }
    }

    /** groupByRead: zero when missing. */
    method Read(item: string, attr: string, value: string) returns (v: Group)
      ensures v == GroupFor(bucket, item, attr, value)
    {
      var key := GroupKey(item, attr, value);
      v := if key in bucket then bucket[key] else Group(0, 0, 0, {});
    }
  }

  function GroupFor(g: Bucket, item: string, attr: string, value: string): Group {
    var o := GroupAt(g, GroupKey(item, attr, value));
    if o.Some? then o.value else Group(0, 0, 0, {})
  }

  ghost function Done(item: string, scalars: map<string, string>, todo: set<string>): set<string>
    requires todo <= scalars.Keys
  {
    set a | a in scalars && a !in todo :: GroupKey(item, a, scalars[a])
  }

  lemma DoneStep(item: string, scalars: map<string, string>, todo: set<string>, a: string)
    requires a in todo && todo <= scalars.Keys
    ensures Done(item, scalars, todo - {a}) == Done(item, scalars, todo) + {GroupKey(item, a, scalars[a])}
  {
  }

  // ---------- agreement with the live documents ----------

  ghost function Members(g: Bucket): map<string, set<Id>> {
    map k | k in g :: g[k].members
  }

  /** Count is the bitmap's size, and the bitmaps are the live documents with the key, no key empty. */
  ghost predicate GroupsAgree(g: Bucket, view: map<string, set<string>>, ids: map<string, Id>) {
    && (forall k :: k in g ==> g[k].count == |g[k].members|)
    && Agrees(Members(g), view, ids)
  }

  function MembersOf(o: Option<Group>): set<Id> {
    if o.Some? then o.value.members else {}
  }

  predicate Counted(o: Option<Group>) {
    o.Some? ==> o.value.count == |o.value.members| && o.value.members != {}
  }

  lemma RecordStep(o: Option<Group>, o': Option<Group>, id: Id, was: bool, now: bool, at: int)
    requires Counted(o) && KeyMoved(o, o', id, was, now, at)
    ensures Counted(o')
    ensures MembersOf(o') == if now then MembersOf(o) + {id} else if was then MembersOf(o) - {id} else MembersOf(o)
  {
    var mid := if was then Left(o, id) else o;
    if was { LeftStep(o, id); }
    if now { JoinedStep(mid, id, at); }
  }

  lemma LeftStep(o: Option<Group>, id: Id)
    requires Counted(o)
    ensures Counted(Left(o, id)) && MembersOf(Left(o, id)) == MembersOf(o) - {id}
  {
    if o.Some? && id in o.value.members {
      assert |o.value.members - {id}| == |o.value.members| - 1;
    }
  }

  lemma JoinedStep(o: Option<Group>, id: Id, at: int)
    requires Counted(o)
    ensures Counted(Some(Joined(o, id, at))) && Joined(o, id, at).members == MembersOf(o) + {id}
  {
    var members := if o.Some? then o.value.members else {};
    if id in members {
      assert members + {id} == members;
    } else {
      assert |members + {id}| == |members| + 1;
    }
  }

  lemma {:induction false} GroupMoveKeeps(g: Bucket, g': Bucket, view: map<string, set<string>>, ids: map<string, Id>,
                                          d: string, now: set<string>, at: int)
    requires GroupsAgree(g, view, ids) && Injective(ids) && d in ids
    requires GroupsMoved(g, g', ids[d], KeysOf(view, d), now, at)
    ensures GroupsAgree(g', view[d := now], ids)
  {
    var id, was := ids[d], KeysOf(view, d);
    var m, m' := Members(g), Members(g');
    forall k
      ensures k in g' ==> g'[k].count == |g'[k].members| && g'[k].members != {}
      ensures At(m', k) == if k in now then At(m, k) + {id} else if k in was then At(m, k) - {id} else At(m, k)
    {
      assert k in g ==> k in m && m[k] != {};
      RecordStep(GroupAt(g, k), GroupAt(g', k), id, k in was, k in now, at);
      assert At(m, k) == MembersOf(GroupAt(g, k)) && At(m', k) == MembersOf(GroupAt(g', k));
    }
    Replace(m, m', view, ids, d, now);
  }

  /**
   First and last bracket one key's live members. Removal never narrows them, and 0 doubles as "unset",
   so the law needs every timestamp added under the key to be positive.
   */
  ghost predicate Bracketed(g: Bucket, view: map<string, set<string>>, times: map<string, int>, k: string)
    requires view.Keys <= times.Keys
  {
    Positive(GroupAt(g, k)) && AllHeld(g, view, times, k)
  }

  ghost predicate AllHeld(g: Bucket, view: map<string, set<string>>, times: map<string, int>, k: string)
    requires view.Keys <= times.Keys
  {
    forall d :: d in view && k in view[d] ==> Holds(GroupAt(g, k), times[d])
  }

  predicate Positive(o: Option<Group>) { o.Some? ==> o.value.first > 0 }

  predicate Holds(o: Option<Group>, at: int) {
    o.Some? && o.value.first <= at <= o.value.last
  }

  /** The record's first time is 0, taken for unset, and a later time than t joins: t is dropped. */
  predicate Drops(o: Option<Group>, now: bool, at: int, t: int) {
    now && o.Some? && o.value.first == 0 && t < at
  }

  /** While another member keeps the record alive, it goes on holding a time exactly when it is not dropped. */
  lemma RecordHolds(o: Option<Group>, o': Option<Group>, id: Id, was: bool, now: bool, at: int, e: Id, t: int)
    requires KeyMoved(o, o', id, was, now, at) && Counted(o) && e in MembersOf(o) && e != id && Holds(o, t)
    ensures Holds(o', t) <==> !Drops(o, now, at, t)
  {
    if was && id in o.value.members {
      assert |o.value.members - {id}| == |o.value.members| - 1;
      assert e in o.value.members - {id};
    }
  }

  lemma RecordAdds(o: Option<Group>, o': Option<Group>, id: Id, was: bool, now: bool, at: int)
    requires KeyMoved(o, o', id, was, now, at)
    ensures now ==> Holds(o', at)
    ensures Positive(o) && (now ==> at > 0) ==> Positive(o')
  {
  }

  /**
   A write keeps every live member of a group between first and last if and only if it drops none: the
   group's first time is not 0, or no other member is earlier than the joining time.
   */
  lemma {:induction false} MoveHoldsExactly(g: Bucket, g': Bucket, view: map<string, set<string>>,
                                            times: map<string, int>, ids: map<string, Id>, d: string,
                                            now: set<string>, at: int, k: string)
    requires view.Keys <= times.Keys && GroupsAgree(g, view, ids) && Injective(ids) && d in ids
    requires GroupsMoved(g, g', ids[d], KeysOf(view, d), now, at) && AllHeld(g, view, times, k)
    ensures AllHeld(g', view[d := now], times[d := at], k) <==>
              forall c :: c in view && c != d && k in view[c] ==> !Drops(GroupAt(g, k), k in now, at, times[c])
  {
    var o, o' := GroupAt(g, k), GroupAt(g', k);
    var view', times' := view[d := now], times[d := at];
    RecordAdds(o, o', ids[d], k in KeysOf(view, d), k in now, at);
    assert At(Members(g), k) == Holders(view, ids, k);
    forall c | c in view && c != d && k in view[c]
      ensures c in view' && k in view'[c] && (Holds(o', times'[c]) <==> !Drops(o, k in now, at, times[c]))
    {
      assert ids[c] in Holders(view, ids, k) && ids[c] in MembersOf(o);
      RecordHolds(o, o', ids[d], k in KeysOf(view, d), k in now, at, ids[c], times[c]);
    }
  }

  lemma {:induction false} MoveKeepsBracket(g: Bucket, g': Bucket, view: map<string, set<string>>,
                                            times: map<string, int>, ids: map<string, Id>, d: string,
                                            now: set<string>, at: int, k: string)
    requires view.Keys <= times.Keys && GroupsAgree(g, view, ids) && Injective(ids) && d in ids
    requires GroupsMoved(g, g', ids[d], KeysOf(view, d), now, at)
    requires Bracketed(g, view, times, k) && (k in now ==> at > 0)
    ensures Bracketed(g', view[d := now], times[d := at], k)
  {
    RecordAdds(GroupAt(g, k), GroupAt(g', k), ids[d], k in KeysOf(view, d), k in now, at);
    MoveHoldsExactly(g, g', view, times, ids, d, now, at, k);
  }

  // ---------- whose times they are ----------

  predicate IsLeast(x: int, ts: set<int>) { x in ts && forall t :: t in ts ==> x <= t }

  predicate IsGreatest(x: int, ts: set<int>) { x in ts && forall t :: t in ts ==> t <= x }

  /** First and last are the least and the greatest of the times; no record, no times. */
  ghost predicate Spans(o: Option<Group>, ts: set<int>) {
    && (o.None? <==> ts == {})
    && (o.Some? ==> IsLeast(o.value.first, ts) && IsGreatest(o.value.last, ts))
  }

  /** A key with a record has members, and their number. */
  lemma CountedGroup(g: Bucket, view: map<string, set<string>>, ids: map<string, Id>, k: string)
    requires GroupsAgree(g, view, ids)
    ensures k in g ==> g[k].count == |g[k].members| && g[k].members != {} && g[k].count > 0
  {
    assert k in g ==> k in Members(g);
  }

  /** The times written under a key since it was last absent, after one document left it and joined it. */
  ghost function TimesAfter(ts: set<int>, emptied: bool, now: bool, at: int): set<int> {
    (if emptied then {} else ts) + (if now then {at} else {})
  }

  lemma {:induction false} SpansStep(o: Option<Group>, o': Option<Group>, id: Id, was: bool, now: bool, at: int,
                                     ts: set<int>)
    requires KeyMoved(o, o', id, was, now, at) && Counted(o) && (was ==> id in MembersOf(o))
    requires Spans(o, ts) && (forall t :: t in ts ==> t > 0) && (now ==> at > 0)
    ensures Spans(o', TimesAfter(ts, was && MembersOf(o) == {id}, now, at))
  {
    var mid := if was then Left(o, id) else o;
    var kept := if was && MembersOf(o) == {id} then {} else ts;
    assert Spans(mid, kept) by {
      if was { LeftSpans(o, id, ts); }
    }
    if now { JoinSpans(mid, id, at, kept); }
  }

  lemma LeftSpans(o: Option<Group>, id: Id, ts: set<int>)
    requires Counted(o) && id in MembersOf(o) && Spans(o, ts)
    ensures Spans(Left(o, id), if MembersOf(o) == {id} then {} else ts)
  {
    var members := o.value.members;
    assert |members - {id}| == |members| - 1;
    assert members - {id} == {} <==> members == {id};
  }

  lemma JoinSpans(o: Option<Group>, id: Id, at: int, ts: set<int>)
    requires Spans(o, ts) && (forall t :: t in ts ==> t > 0) && at > 0
    ensures Spans(Some(Joined(o, id, at)), ts + {at})
  {
  }

  ghost predicate NoBar(s: string) { '|' !in s }

  lemma {:induction false} GroupKeyInjective(i: string, a: string, v: string, j: string, b: string, w: string)
    requires NoBar(i) && NoBar(a) && NoBar(j) && NoBar(b) && GroupKey(i, a, v) == GroupKey(j, b, w)
    ensures i == j && a == b && v == w
  {
    assert GroupKey(i, a, v) == i + "|" + (a + "|" + v) && GroupKey(j, b, w) == j + "|" + (b + "|" + w);
    SeparatedEqual('|', i, a + "|" + v, j, b + "|" + w);
    SeparatedEqual('|', a, v, b, w);
  }

  /** With a separator in a name, different groups share a key. */
  lemma BarCollides(v: string)
    ensures GroupKey("a|b", "c", v) == GroupKey("a", "b|c", v)
  {
    assert "a|b" + "|" + "c" == "a|b|c" && "a" + "|" + "b|c" == "a|b|c";
  }

  /** A document whose item and attribute names carry no separator. */
  ghost predicate PlainNames(h: Host, doc: Doc) {
    HasText(doc, "item_id") ==> NoBar(ItemOf(doc)) && forall a :: a in ScalarsOf(h, doc) ==> NoBar(a)
  }

  /** The document has that item and that attribute value. */
  predicate IsInGroup(h: Host, doc: Doc, item: string, attr: string, value: string) {
    HasText(doc, "item_id") && ItemOf(doc) == item && attr in ScalarsOf(h, doc) && ScalarsOf(h, doc)[attr] == value
  }

  lemma InOwnGroup(h: Host, doc: Doc, item: string, attr: string, value: string)
    requires IsInGroup(h, doc, item, attr, value)
    ensures GroupKey(item, attr, value) in KeysOfDoc(h, doc)
  {
  }

  /** Being in a group, field by field. */
  lemma {:induction false} GroupRead(h: Host, doc: Doc, item: string, attr: string, value: string)
    ensures IsInGroup(h, doc, item, attr, value) <==>
              && FieldHas(doc, "item_id", Str(item)) && attr != "item_id"
              && exists v :: FieldHas(doc, attr, v) && Prints(h, v, value)
  {
    ScalarRead(h, doc, attr, value);
  }

  /** A document is filed under the item, an attribute and its printed value, joined by separators. */
  lemma {:induction false} KeysRead(h: Host, doc: Doc, k: string)
    ensures k in KeysOfDoc(h, doc) <==>
              exists item, attr, value :: IsInGroup(h, doc, item, attr, value) && k == item + "|" + attr + "|" + value
  {
    if HasText(doc, "item_id") && k in KeysOfDoc(h, doc) {
      var a :| a in ScalarsOf(h, doc) && k == GroupKey(ItemOf(doc), a, ScalarsOf(h, doc)[a]);
      assert IsInGroup(h, doc, ItemOf(doc), a, ScalarsOf(h, doc)[a]);
    }
    if item, attr, value :| IsInGroup(h, doc, item, attr, value) && k == item + "|" + attr + "|" + value {
      InOwnGroup(h, doc, item, attr, value);
    }
  }

  /** The time a document brings to its groups: its event's, or 0. */
  lemma TimeRead(h: Host, doc: Doc, item: string, kind: string, at: int)
    ensures EventOf(h, doc) == Some(Event(item, kind, at)) ==> TimeOf(h, doc) == at
    ensures EventOf(h, doc).None? ==> TimeOf(h, doc) == 0
  {
  }

  /** For plain names, a document is in a group exactly when it has that item and that attribute value. */
  lemma {:induction false} InGroup(h: Host, doc: Doc, item: string, attr: string, value: string)
    requires PlainNames(h, doc) && NoBar(item) && NoBar(attr)
    ensures GroupKey(item, attr, value) in KeysOfDoc(h, doc) <==> IsInGroup(h, doc, item, attr, value)
  {
    if HasText(doc, "item_id") {
      var s := ScalarsOf(h, doc);
      forall a | a in s && GroupKey(ItemOf(doc), a, s[a]) == GroupKey(item, attr, value)
        ensures ItemOf(doc) == item && a == attr && s[a] == value
      {
        GroupKeyInjective(ItemOf(doc), a, s[a], item, attr, value);
      }
    }
  }
}
