/** Small runs from a new store whose answers are known, one for each way a document is read. */
module Scenarios {
  import opened Order
  import opened Float64
  import opened Documents
  import opened Numeric
  import opened Groups
  import opened Stats
  import opened Absences
  import opened Engine
  import opened Runs
  import opened Restricted
  import opened Stores
  import opened Witnesses
  import Queries

  method FirstPut(h: Host, d: string, doc: Doc) returns (store: Store)
    requires d != "" && ParentOf(doc).None?
    ensures store.host == h && PutTx(h, INIT, d, doc, store.Contents())
  {
    store := new Store(h);
    PutPlain(store, d, doc);
  }

  lemma {:induction false} AfterFirst(h: Host, d: string, doc: Doc, s: State)
    requires PutTx(h, INIT, d, doc, s)
    ensures Inv(h, s) && CellsTrue(h, s) && s.docs == map[d := doc]
  {
    NoCells(h);
    PutOfNewEvent(h, INIT, d, doc, s);
  }

  method OneDocument(h: Host, d: string, doc: Doc) returns (store: Store)
    requires d != "" && ParentOf(doc).None?
    ensures store.host == h && store.docs == map[d := doc]
    ensures Inv(h, store.Contents()) && CellsTrue(h, store.Contents())
  {
    store := FirstPut(h, d, doc);
    AfterFirst(h, d, doc, store.Contents());
  }

  // ---------- terms of nested fields ----------

  function Nested(outer: string, inner: string, text: string): Doc {
    Object(map[outer := Obj(map[inner := Str(text)])])
  }

  lemma NestedLeads(outer: string, inner: string, text: string)
    ensures Leads(Obj(Nested(outer, inner, text).fields), [outer, inner], Str(text))
  {
    var v := Obj(map[inner := Str(text)]);
    assert Leads(Str(text), [], Str(text));
    assert [inner][1..] == [] && [outer, inner][1..] == [inner];
    assert Leads(v, [inner], Str(text));
  }

  lemma NestedCarries(h: Host, outer: string, inner: string, text: string)
    ensures Carries(h, Nested(outer, inner, text), inner + ":" + text)
  {
    NestedLeads(outer, inner, text);
    var keys := [outer, inner];
    assert keys[|keys| - 1] == inner && Prints(h, Str(text), text);
    assert Leads(Obj(Nested(outer, inner, text).fields), keys, Str(text));
  }

  /** A nested field is found under its last key. */
  method NestedTermFound(h: Host, d: string, outer: string, inner: string, text: string)
    returns (store: Store, found: Option<seq<string>>)
    requires d != "" && outer != "parent"
    ensures store.docs == map[d := Nested(outer, inner, text)] && found == Some([d])
  {
    store := OneDocument(h, d, Nested(outer, inner, text));
    found := store.Lookup(inner + ":" + text);
    NestedCarries(h, outer, inner, text);
    Single(found.value, d);
  }

  lemma Single(s: seq<string>, d: string)
    requires Distinct(s) && d in s && forall c :: c in s ==> c == d
    ensures s == [d]
  {
    DistinctSize(s);
    assert Elems(s) == {d};
    assert s[0] in s;
  }

  // ---------- times given as text ----------

  function Dated(item: string, kind: string, date: string): Doc {
    Object(map["item_id" := Str(item), "type" := Str(kind), "at" := Str(date)])
  }

  lemma DatedHappens(h: Host, item: string, kind: string, date: string, t: int)
    requires h.parseTime(date) == Some(t)
    ensures Happens(h, Dated(item, kind, date), item, kind, t) && ParentOf(Dated(item, kind, date)).None?
    ensures EventOf(h, Dated(item, kind, date)) == Some(Event(item, kind, t))
  {
    assert FieldHas(Dated(item, kind, date), "at", Str(date));
    EventRead(h, Dated(item, kind, date), item, kind, t);
  }

  lemma {:induction false} OnlyOneSeen(h: Host, s: State, d: string, item: string, kind: string, t: int)
    requires CellsTrue(h, s) && s.docs.Keys == {d} && EventOf(h, s.docs[d]) == Some(Event(item, kind, t))
    ensures LastSeen(s.cells, item, kind) == Some(t)
  {
    var view, key := EventView(h, s.docs), CellKey(item, kind);
    assert d in Filed(view, key) && CellOk(s.cells, view, key);
    assert s.cells[key].doc == d;
  }

  /** An event with a textual time is seen at the parsed time. */
  method TextTimeSeen(h: Host, d: string, item: string, kind: string, date: string, t: int)
    returns (store: Store, at: Option<int>)
    requires d != "" && h.parseTime(date) == Some(t)
    ensures store.docs == map[d := Dated(item, kind, date)] && at == Some(t)
  {
    DatedHappens(h, item, kind, date, t);
    store := OneDocument(h, d, Dated(item, kind, date));
    OnlyOneSeen(h, store.Contents(), d, item, kind, t);
    at := store.LastSeen(item, kind);
  }

  // ---------- first and last of a group ----------

  lemma {:induction false} FirstJoins(h: Host, d: string, doc: Doc, k: string, s: State)
    requires PutTx(h, INIT, d, doc, s) && k in KeysOfDoc(h, doc) && TimeOf(h, doc) > 0
    ensures Spans(GroupAt(s.groups, k), {TimeOf(h, doc)})
  {
    var none: set<int> := {};
    assert Spans(GroupAt(INIT.groups, k), none);
    assert KeyMoved(GroupAt(INIT.groups, k), GroupAt(s.groups, k), s.ids.fwd[d], false, true, TimeOf(h, doc));
    JoinSpans(None, s.ids.fwd[d], TimeOf(h, doc), none);
    assert none + {TimeOf(h, doc)} == {TimeOf(h, doc)};
  }

  /** One event: its group counts one, first and last seen at its time. */
  method OneEventGroup(h: Host, d: string, item: string, kind: string, date: string, t: int)
    returns (store: Store, count: int, first: int, last: int)
    requires d != "" && h.parseTime(date) == Some(t) && t > 0
    ensures store.docs == map[d := Dated(item, kind, date)] && count == 1 && first == t && last == t
  {
    store := DatedStored(h, d, item, kind, date, t);
    var found;
    count, first, last, found := store.GroupCount(item, "type", kind);
    DistinctSize(found.value);
    OneTime(first, last, t);
  }

  lemma OneTime(first: int, last: int, t: int)
    requires IsLeast(first, {t}) && IsGreatest(last, {t})
    ensures first == t && last == t
  {
  }

  lemma {:induction false} DatedGroup(h: Host, docs: map<string, Doc>, d: string, item: string, kind: string,
                                      date: string, t: int)
    requires docs == map[d := Dated(item, kind, date)] && h.parseTime(date) == Some(t)
    ensures UnderKey(h, docs, GroupKey(item, "type", kind)) == {d}
    ensures GroupKey(item, "type", kind) in KeysOfDoc(h, docs[d]) && TimeOf(h, docs[d]) == t
  {
    DatedHappens(h, item, kind, date, t);
    assert IsInGroup(h, docs[d], item, "type", kind);
    InOwnGroup(h, docs[d], item, "type", kind);
  }

  method DatedStored(h: Host, d: string, item: string, kind: string, date: string, t: int) returns (store: Store)
    requires d != "" && h.parseTime(date) == Some(t) && t > 0
    ensures store.host == h && store.docs == map[d := Dated(item, kind, date)] && Inv(h, store.Contents())
    ensures UnderKey(h, store.docs, GroupKey(item, "type", kind)) == {d}
    ensures Spans(GroupAt(store.groups.bucket, GroupKey(item, "type", kind)), {t})
  {
    DatedHappens(h, item, kind, date, t);
    store := FirstPut(h, d, Dated(item, kind, date));
    AfterFirst(h, d, Dated(item, kind, date), store.Contents());
    DatedGroup(h, store.docs, d, item, kind, date, t);
    FirstJoins(h, d, Dated(item, kind, date), GroupKey(item, "type", kind), store.Contents());
  }

  // ---------- statistics ----------

  const TWO: Float := 0x4000_0000_0000_0000

  lemma {:induction false} OneTwoThree()
    ensures RealValue(ONE) > 0.0 && RealValue(TWO) == 2.0 * RealValue(ONE) && RealValue(THREE) == 3.0 * RealValue(ONE)
  {
    assert ONE == 1023 * TWO_52 && Exponent(ONE) == 1023 && Mantissa(ONE) == 0;
    ValueDoubles(ONE);
    assert TWO == ONE + TWO_52 && THREE == TWO + 0x8_0000_0000_0000;
    assert Exponent(THREE) == 1024 && Mantissa(THREE) == 0x8_0000_0000_0000;
    assert Exponent(TWO) == 1024 && Mantissa(TWO) == 0;
    Halves(Pow2(1023));
    ValueOfOne();
  }

  lemma Halves(p: int)
    ensures 2 * ((TWO_52 + 0x8_0000_0000_0000) * p) == 3 * (TWO_52 * p)
  {
  }

  function Reading(x: Float): Doc { Object(map["x" := Num(x)]) }

  lemma {:induction false} ReadingNums(x: Float)
    requires Finite(x)
    ensures NumsOf(Reading(x)) == {("x", x)} && SingleValued(Reading(x)) && ParentOf(Reading(x)).None?
  {
    OneNumber("x", x);
  }

  lemma {:induction false} TwoReadings(docs: map<string, Doc>, c: string, d: string)
    requires c != d && docs == map[c := Reading(ONE)][d := Reading(THREE)]
    ensures AllSingleValued(docs) && ByDocument(docs, "x") == map[c := RealValue(ONE)][d := RealValue(THREE)]
  {
    ReadingAt(docs, c, ONE);
    ReadingAt(docs, d, THREE);
    assert ByDocument(docs, "x").Keys == {c, d};
  }

  lemma {:induction false} ReadingAt(docs: map<string, Doc>, d: string, x: Float)
    requires d in docs && docs[d] == Reading(x) && Finite(x)
    ensures SingleValued(docs[d]) && d in ByDocument(docs, "x") && ByDocument(docs, "x")[d] == RealValue(x)
  {
    ReadingValue(x);
  }

  lemma {:induction false} ReadingValue(x: Float)
    requires Finite(x)
    ensures SingleValued(Reading(x)) && "x" in Paths(NumsOf(Reading(x))) && ValueOf(Reading(x), "x") == x
  {
    ReadingNums(x);
    assert ("x", x) in NumsOf(Reading(x));
  }

  lemma {:induction false} MeanOfTwo(vs: Values<string>, c: string, d: string, x: real, y: real)
    requires c != d && vs == map[c := x][d := y]
    ensures |vs| == 2 && Sum(vs) == x + y
  {
    SumPick(vs, d);
    assert vs - {d} == map[c := x];
    var one: Values<string> := map[c := x];
    SumPick(one, c);
    assert one - {c} == map[];
    CardStep(vs, d);
    CardStep(one, c);
  }

  lemma {:induction false} DescribedMean(v: Stat, vs: Values<string>, c: string, d: string)
    requires c != d && vs == map[c := RealValue(ONE)][d := RealValue(THREE)] && Describes(v, vs)
    ensures v.count == 2 && v.mean == RealValue(TWO) && v.min == RealValue(ONE) && v.max == RealValue(THREE)
  {
    MeanOfTwo(vs, c, d, RealValue(ONE), RealValue(THREE));
    OneTwoThree();
    assert c in vs && d in vs && vs[c] == RealValue(ONE) && vs[d] == RealValue(THREE);
    assert forall k :: k in vs ==> k == c || k == d;
  }

  lemma {:induction false} StillExact(h: Host, s: State, d: string, x: Float, t: State)
    requires Inv(h, s) && AggregatesExact(s) && Finite(x) && PutTx(h, s, d, Reading(x), t)
    ensures Inv(h, t) && AggregatesExact(t)
  {
    ReadingNums(x);
    PutInv(h, s, d, Reading(x), t);
    PutAggregatesExact(h, s, d, Reading(x), t);
  }

  method PutReading(store: Store, d: string, x: Float)
    requires d != "" && Finite(x) && 1 <= store.ids.next < 9
    requires Inv(store.host, store.Contents()) && AggregatesExact(store.Contents())
    modifies store, store.ids, store.inverted, store.numeric, store.temporal, store.groups, store.closure
    modifies store.stats, store.absence
    ensures Inv(store.host, store.Contents()) && AggregatesExact(store.Contents())
    ensures store.docs == old(store.docs)[d := Reading(x)] && 1 <= store.ids.next <= old(store.ids.next) + 1
  {
    ghost var s := store.Contents();
    ReadingNums(x);
    PutPlain(store, d, Reading(x));
    StillExact(store.host, s, d, x, store.Contents());
  }

  method TwoReadingsStored(h: Host, c: string, d: string) returns (store: Store)
    requires c != d && c != "" && d != ""
    ensures store.docs == map[c := Reading(ONE)][d := Reading(THREE)]
    ensures Inv(store.host, store.Contents()) && AggregatesExact(store.Contents())
    ensures fresh(store.stats)
  {
    store := new Store(h);
    InitInv(h);
    NothingAggregated(h, store.Contents());
    assert Finite(ONE) && Finite(THREE);
    PutReading(store, c, ONE);
    PutReading(store, d, THREE);
  }

  /** The mean of one and three is two, the least one, the greatest three. */
  method MeanOfOneAndThree(h: Host, c: string, d: string) returns (store: Store, v: Stat)
    requires c != d && c != "" && d != ""
    ensures store.docs == map[c := Reading(ONE)][d := Reading(THREE)]
    ensures v.count == 2 && v.mean == RealValue(TWO) && v.min == RealValue(ONE) && v.max == RealValue(THREE)
  {
    store := TwoReadingsStored(h, c, d);
    TwoReadings(store.docs, c, d);
    assert LiveExact(store.Contents(), "x");
    v := store.RunningStats("x");
    DescribedMean(v, ByDocument(store.docs, "x"), c, d);
  }

  // ---------- ordering in queries ----------

  const TEN: Float := 0x4024_0000_0000_0000

  function Priced(kind: string, price: Float): Doc { Object(map["kind" := Str(kind), "price" := Num(price)]) }

  function Below(kind: string, bound: Float): seq<Queries.Clause> {
    [Queries.Pattern(Queries.Term("?e", Null, None), "kind", Queries.Term("", Str(kind), None)),
     Queries.Pattern(Queries.Term("?e", Null, None), "price", Queries.Term("?p", Null, None)),
     Queries.Predicate("<", Queries.Term("?p", Null, None), Queries.Term("", Num(bound), None))]
  }

  lemma {:induction false} FiveBelowTen(h: Host, kind: string, d: string)
    ensures Queries.Eval(h, Below(kind, TEN), d, Priced(kind, FIVE)).Some?
  {
    var doc, cs := Priced(kind, FIVE), Below(kind, TEN);
    var attrs, b := Queries.AttrsOf(doc), map["?e" := Queries.RecordId(h, d)];
    assert attrs["kind"] == Str(kind) && attrs["price"] == Num(FIVE);
    assert !IsNaN(FIVE) && !IsNaN(TEN) && Sortable(FIVE) < Sortable(TEN);
    Queries.OrderingMeans(FIVE, TEN);
    Queries.EqualityMeans(Str(kind), Str(kind));
    assert Queries.One(h, cs[0], attrs, b) == Some(b);
    Queries.FilterMeans(h, Queries.Term("?e", Null, None), "price", "?p", "<", FIVE, TEN, attrs, b);
    assert cs[1..] == [cs[1], cs[2]];
  }

  lemma OneMatch(h: Host, docs: map<string, Doc>, d: string, where: seq<Queries.Clause>)
    requires d in docs && Queries.Eval(h, where, d, docs[d]).Some?
    ensures Queries.MatchesOf(h, docs, [d], where) == [Queries.Eval(h, where, d, docs[d]).value]
  {
    assert [d][0] == d && [d][1..] == [] && DocAt(docs, d) == docs[d];
    assert Queries.MatchesOf(h, docs, [], where) == [];
  }

  lemma {:induction false} OneRow(h: Host, docs: map<string, Doc>, d: string, where: seq<Queries.Clause>,
                                  rows: seq<Queries.Row>)
    requires docs.Keys == {d} && Queries.Eval(h, where, d, docs[d]).Some?
    requires Queries.IsRowScan(h, docs, where, ["?e"], rows) && h.parseInt(d).None?
    ensures rows == [[Str(d)]]
  {
    var ms :| Queries.IsScan(h, docs, where, ms) && Queries.RowsShow(rows, ms, ["?e"]);
    assert Sorted([d]) && Elems([d]) == {d};
    assert ms == Queries.MatchesOf(h, docs, [d], where);
    OneMatch(h, docs, d, where);
    Queries.EntityBound(h, where, d, docs[d]);
    assert ms == [Queries.Eval(h, where, d, docs[d]).value];
    assert ["?e"][0] in ms[0] && rows[0][0] == Str(d);
    assert rows[0] == [Str(d)];
  }

  lemma NothingHidden(h: Host, docs: map<string, Doc>, d: string, kind: string)
    requires docs == map[d := Priced(kind, FIVE)]
    ensures !Queries.Hides(h, docs, Below(kind, TEN))
  {
    assert docs[d].fields["kind"] == Str(kind) && docs[d].fields["price"] == Num(FIVE);
    Queries.NoNegativeZeroHidesNothing(h, docs, Below(kind, TEN));
  }

  method PricedStored(h: Host, d: string, kind: string) returns (store: Store)
    requires d != ""
    ensures store.host == h && store.docs == map[d := Priced(kind, FIVE)] && Inv(h, store.Contents())
  {
    store := OneDocument(h, d, Priced(kind, FIVE));
  }

  /** A price of five passes a bound of ten. */
  method PriceBelowFound(h: Host, d: string, kind: string) returns (store: Store, rows: Option<seq<Queries.Row>>)
    requires d != "" && h.parseInt(d).None?
    ensures store.docs == map[d := Priced(kind, FIVE)] && rows == Some([[Str(d)]])
  {
    store := PricedStored(h, d, kind);
    rows := Queries.Query(store, Below(kind, TEN), ["?e"]);
    assert Queries.IsAnchor(Below(kind, TEN)[0]) && Below(kind, TEN)[0] in Below(kind, TEN);
    NothingHidden(h, store.docs, d, kind);
    FiveBelowTen(h, kind, d);
    OneRow(h, store.docs, d, Below(kind, TEN), rows.value);
  }
}
