/** Documents and calls, from a new store on, on which a law fails without its condition. */
module Witnesses {
  import opened Order
  import opened Float64
  import opened Documents
  import opened IdMaps
  import opened Numeric
  import opened Groups
  import opened Closures
  import opened Stats
  import opened Absences
  import opened Engine
  import opened Runs
  import opened Restricted
  import opened Replay
  import opened Stores
  import Queries
  import VectorIndexes
  import VectorStores

  /** A Put that nothing refuses. */
  method PutPlain(store: Store, d: string, doc: Doc)
    requires d != "" && ParentOf(doc).None? && 1 <= store.ids.next < 9
    modifies store, store.ids, store.inverted, store.numeric, store.temporal, store.groups, store.closure,
             store.stats, store.absence
    ensures PutTx(store.host, old(store.Contents()), d, doc, store.Contents())
    ensures 1 <= store.ids.next <= old(store.ids.next) + 1
  {
    ghost var s := store.Contents();
    assert !PutRefused(store.host, s, d, doc);
    var ok := store.Put(d, doc, false);
    assert store.Contents().ids == Assigned(s.ids, d);
  }

  // ---------- chains ----------

  function Child(parent: string): Doc { Object(map["parent" := Str(parent)]) }

  /** No chain is empty, and d has neither a chain nor a document. */
  ghost predicate Unplaced(asc: Chains, docs: map<string, Doc>, d: string) {
    d !in docs && d !in asc && forall e :: e in asc ==> |asc[e]| >= 1
  }

  lemma {:induction false} ChildAccepted(h: Host, s: State, d: string, p: string)
    requires Unplaced(s.table.asc, s.docs, d) && 1 <= s.ids.next < 9 && p != "" && d != p
    requires d !in ChainAt(s.table.asc, p) && |ChainAt(s.table.asc, p)| < MAX_DEPTH
    ensures !PutRefused(h, s, d, Child(p))
  {
    assert ParentOf(Child(p)) == Some(p);
    AcceptedWhen(s.table, d, Assigned(s.ids, d).fwd[d], None, p);
  }

  lemma {:induction false} ChildStored(t: Table, d: string, id: Id, p: string)
    requires d !in t.asc && (forall e :: e in t.asc ==> |t.asc[e]| >= 1) && Update(t, d, id, None, Some(p)).Some?
    ensures Update(t, d, id, None, Some(p)).value.asc == t.asc[d := [p] + ChainAt(t.asc, p)]
  {
    ChainsAfter(t, d, id, None, Some(p));
    assert t.asc - {d} == t.asc;
  }

  /** A new document under a parent that nothing refuses. */
  method PutChild(store: Store, d: string, p: string)
    requires Unplaced(store.closure.asc, store.docs, d) && 1 <= store.ids.next < 9 && d != "" && p != "" && d != p
    requires d !in ChainAt(store.closure.asc, p) && |ChainAt(store.closure.asc, p)| < MAX_DEPTH
    modifies store, store.ids, store.inverted, store.numeric, store.temporal, store.groups, store.closure,
             store.stats, store.absence
    ensures store.docs == old(store.docs)[d := Child(p)]
    ensures 1 <= store.ids.next <= old(store.ids.next) + 1
    ensures store.closure.asc == old(store.closure.asc)[d := [p] + ChainAt(old(store.closure.asc), p)]
  {
    ghost var s := store.Contents();
    ChildAccepted(store.host, s, d, p);
    var ok := store.Put(d, Child(p), false);
    assert ParentOf(Child(p)) == Some(p);
    ChildStored(s.table, d, store.ids.fwd[d], p);
    assert store.Contents().ids == Assigned(s.ids, d);
  }

  lemma Up(parents: Parents, d: string, rest: seq<string>)
    requires d in parents && IsWalk(parents, parents[d], rest)
    ensures IsWalk(parents, d, [parents[d]] + rest)
  {
    assert ([parents[d]] + rest)[1..] == rest;
  }

  lemma WalkOfTwo(parents: Parents, a: string, b: string, c: string)
    requires a != b && b != c && a != c && parents == map[c := b][b := a]
    ensures IsWalk(parents, c, [b, a])
  {
    Up(parents, b, []);
    Up(parents, c, [a]);
    assert [b] + [a] == [b, a] && [a] + [] == [a];
  }

  lemma ParentsOf(docs: map<string, Doc>, parents: Parents)
    requires docs.Keys == parents.Keys && "" !in parents.Values && forall d :: d in docs ==>
               docs[d] == Child(parents[d])
    ensures ParentView(docs) == parents
  {
    forall d | d in docs ensures ParentOf(docs[d]) == Some(parents[d]) {
      assert parents[d] in parents.Values;
    }
  }

  predicate Names(a: string, b: string, c: string) { a != b && b != c && a != c && a != "" && b != "" && c != "" }

  /** A new store with c below b. */
  method OneChild(h: Host, b: string, c: string) returns (store: Store)
    requires b != c && b != "" && c != ""
    ensures store.docs == map[c := Child(b)] && store.closure.asc == map[c := [b]] && 1 <= store.ids.next <= 2
    ensures fresh(store) && fresh({store.ids, store.inverted, store.numeric, store.temporal})
    ensures fresh({store.groups, store.closure, store.stats, store.absence})
  {
    store := new Store(h);
    PutChild(store, c, b);
    assert [b] + [] == [b];
  }

  /** Then b below a. */
  method ParentMoved(h: Host, a: string, b: string, c: string) returns (store: Store)
    requires Names(a, b, c)
    ensures store.docs == map[c := Child(b)][b := Child(a)] && store.closure.asc == map[c := [b]][b := [a]]
    ensures 1 <= store.ids.next <= 3
    ensures fresh(store) && fresh({store.ids, store.inverted, store.numeric, store.temporal})
    ensures fresh({store.groups, store.closure, store.stats, store.absence})
  {
    store := OneChild(h, b, c);
    PutChild(store, b, a);
    assert [a] + [] == [a];
  }

  /** Giving a parent to a document that already has a child leaves the child's chain short. */
  method ReparentingGoesStale(h: Host, a: string, b: string, c: string) returns (store: Store, chain: seq<string>)
    requires Names(a, b, c)
    ensures store.docs == map[c := Child(b)][b := Child(a)]
    ensures chain == [b] && IsWalk(ParentView(store.docs), c, [b, a])
  {
    store := ParentMoved(h, a, b, c);
    ParentsOf(store.docs, map[c := b][b := a]);
    WalkOfTwo(ParentView(store.docs), a, b, c);
    chain := store.Ancestors(c);
  }

  lemma RoundAndRound(parents: Parents, a: string, b: string, c: string, w: seq<string>)
    requires Names(a, b, c) && parents == map[c := b][b := a][a := c]
    ensures !IsWalk(parents, a, w)
  {
    if IsWalk(parents, a, w) {
      assert IsWalk(parents, c, w[1..]) && IsWalk(parents, b, w[1..][1..]) && IsWalk(parents, a, w[1..][1..][1..]);
      WalkUnique(parents, a, w, w[1..][1..][1..]);
    }
  }

  lemma NoWalkAround(docs: map<string, Doc>, a: string, b: string, c: string)
    requires Names(a, b, c) && docs == map[c := Child(b)][b := Child(a)][a := Child(c)]
    ensures forall w :: !IsWalk(ParentView(docs), a, w)
  {
    var parents := map[c := b][b := a][a := c];
    ParentsOf(docs, parents);
    forall w ensures !IsWalk(ParentView(docs), a, w) { RoundAndRound(parents, a, b, c, w); }
  }

  /** On stale chains a real cycle is accepted. */
  method CycleAccepted(h: Host, a: string, b: string, c: string) returns (store: Store)
    requires Names(a, b, c)
    ensures store.docs == map[c := Child(b)][b := Child(a)][a := Child(c)]
    ensures forall w :: !IsWalk(ParentView(store.docs), a, w)
  {
    store := ParentMoved(h, a, b, c);
    PutChild(store, a, c);
    NoWalkAround(store.docs, a, b, c);
  }

  lemma {:induction false} ThirdRefused(h: Host, s: State, a: string, b: string)
    requires Unplaced(s.table.asc, s.docs, b) && a != "" && b in ChainAt(s.table.asc, a)
    ensures PutRefused(h, s, b, Child(a))
  {
    assert ParentOf(Child(a)) == Some(a);
    if !Exhausted(s.ids, b) { AcceptedWhen(s.table, b, Assigned(s.ids, b).fwd[b], None, a); }
  }

  /** In another order the last of the same three writes is refused. */
  method CycleRefused(h: Host, a: string, b: string, c: string) returns (store: Store, ok: bool)
    requires Names(a, b, c)
    ensures !ok && store.docs == map[c := Child(b)][a := Child(c)]
  {
    store := OneChild(h, b, c);
    PutChild(store, a, c);
    assert b in [c] + [b];
    ThirdRefused(h, store.Contents(), a, b);
    ok := store.Put(b, Child(a), false);
  }

  // ---------- statistics ----------

  const TWICE: Doc := Object(map["x" := Arr([Num(0), Num(1)])])

  lemma TwoValues()
    ensures ("x", 0) in NumsOf(TWICE) && ("x", 1) in NumsOf(TWICE)
  {
    var es := [Num(0), Num(1)];
    assert ([] + ["x"])[|[] + ["x"]| - 1] == "x";
    assert ("x", 0) in ValueNums([] + ["x"], es[0]) && ("x", 1) in ValueNums([] + ["x"], es[1]);
    assert ("x", 0) in ElemNums([] + ["x"], es, 2) && ("x", 1) in ElemNums([] + ["x"], es, 2);
    assert ValueNums([] + ["x"], TWICE.fields["x"]) == ElemNums([] + ["x"], es, 2);
    assert ValueNums([] + ["x"], TWICE.fields["x"]) <= FieldNums([], TWICE.fields, TWICE.fields.Keys);
  }

  /** A document with two values at one path is counted once. */
  method TwoValuesMiscounted(h: Host) returns (store: Store)
    ensures store.host == h && store.docs == map["d" := TWICE]
    ensures !AggregatesExact(store.Contents())
  {
    store := new Store(h);
    assert ParentOf(TWICE) == None && ParentOf(Blank) == None;
    var ok := store.Put("d", TWICE, false);
    InitInv(h);
    NothingAggregated(h, INIT);
    PutAggregatesExact(h, INIT, "d", TWICE, store.Contents());
    TwoValues();
    assert NumsOf(Blank) == {} && ("x", 0) in NumsOf(TWICE);
    assert Incremental(INIT.stats, NumsOf(Blank), NumsOf(TWICE), "x") && !SingleValue(NumsOf(TWICE), "x");
  }

  // ---------- last occurrences ----------

  const THREE: Float := 0x4008_0000_0000_0000
  const FIVE: Float := 0x4014_0000_0000_0000
  const NINE: Float := 0x4022_0000_0000_0000

  function Happened(item: string, kind: string, at: Float): Doc {
    Object(map["item_id" := Str(item), "type" := Str(kind), "at" := Num(at)])
  }

  lemma PutOfNewEvent(h: Host, s: State, d: string, doc: Doc, t: State)
    requires Inv(h, s) && CellsTrue(h, s) && d !in s.docs && PutTx(h, s, d, doc, t)
    ensures Inv(h, t) && CellsTrue(h, t)
  {
    PutInv(h, s, d, doc, t);
    PutCellsExact(h, s, d, doc, t);
  }

  lemma NoCells(h: Host)
    ensures Inv(h, INIT) && CellsTrue(h, INIT)
  {
    InitInv(h);
    forall key ensures CellOk(INIT.cells, EventView(h, INIT.docs), key) {
    }
  }

  lemma {:induction false} LatestOwns(h: Host, s: State, d: string, e: string, was: Event, other: Event)
    requires CellsTrue(h, s) && d in s.docs && s.docs.Keys == {d, e} && EventOf(h, s.docs[d]) == Some(was)
    requires EventOf(h, s.docs[e]) == Some(other) && (d == e || (KeyOf(other) == KeyOf(was) && other.at < was.at))
    ensures Owns(s.cells, EventView(h, s.docs), d)
  {
    var view, key := EventView(h, s.docs), KeyOf(was);
    assert d in Filed(view, key) && CellOk(s.cells, view, key);
    assert s.cells[key].doc in {d, e};
  }

  /** Putting a new document keeps every cell true. */
  method PutEvent(store: Store, d: string, doc: Doc)
    requires d != "" && d !in store.docs && ParentOf(doc).None? && 1 <= store.ids.next < 9
    requires Inv(store.host, store.Contents()) && CellsTrue(store.host, store.Contents())
    modifies store, store.ids, store.inverted, store.numeric, store.temporal, store.groups, store.closure,
             store.stats, store.absence
    ensures Inv(store.host, store.Contents()) && CellsTrue(store.host, store.Contents())
    ensures store.docs == old(store.docs)[d := doc] && 1 <= store.ids.next <= old(store.ids.next) + 1
  {
    ghost var s := store.Contents();
    PutPlain(store, d, doc);
    PutOfNewEvent(store.host, s, d, doc, store.Contents());
  }

  method NewStore(h: Host) returns (store: Store)
    ensures store.host == h && store.docs == map[] && store.ids.next == 1
    ensures Inv(h, store.Contents()) && CellsTrue(h, store.Contents())
    ensures fresh(store) && fresh({store.ids, store.inverted, store.numeric, store.temporal})
    ensures fresh({store.groups, store.closure, store.stats, store.absence})
  {
    store := new Store(h);
    NoCells(h);
  }

  /** d at nine, e at five. */
  function Pair(d: string, e: string, item: string, kind: string): map<string, Doc> {
    map[d := Happened(item, kind, NINE)][e := Happened(item, kind, FIVE)]
  }

  method TwoEvents(h: Host, d: string, e: string, item: string, kind: string) returns (store: Store)
    requires d != e && d != "" && e != ""
    ensures store.host == h && store.docs == Pair(d, e, item, kind)
    ensures Inv(h, store.Contents()) && CellsTrue(h, store.Contents()) && 1 <= store.ids.next < 9
    ensures fresh(store) && fresh({store.ids, store.inverted, store.numeric, store.temporal})
    ensures fresh({store.groups, store.closure, store.stats, store.absence})
  {
    store := NewStore(h);
    PutEvent(store, d, Happened(item, kind, NINE));
    PutEvent(store, e, Happened(item, kind, FIVE));
  }

  lemma EventIs(h: Host, item: string, kind: string, at: Float)
    ensures EventOf(h, Happened(item, kind, at)) == Some(Event(item, kind, h.toInt64(at)))
    ensures ParentOf(Happened(item, kind, at)) == None
  {
  }

  lemma {:induction false} PairOwned(h: Host, s: State, d: string, e: string, item: string, kind: string)
    requires h.toInt64(FIVE) == 5 && h.toInt64(NINE) == 9 && d != e && CellsTrue(h, s) &&
             s.docs == Pair(d, e, item, kind)
    ensures Owns(s.cells, EventView(h, s.docs), d) && EventView(h, s.docs)[d] == Event(item, kind, 9)
  {
    EventIs(h, item, kind, NINE);
    EventIs(h, item, kind, FIVE);
    LatestOwns(h, s, d, e, Event(item, kind, 9), Event(item, kind, 5));
  }

  /** Lowering the latest event's time hides a later one of another document. */
  method LoweredOverwriteLies(h: Host, d: string, e: string, item: string, kind: string)
    returns (store: Store, at: Option<int>)
    requires h.toInt64(THREE) == 3 && h.toInt64(FIVE) == 5 && h.toInt64(NINE) == 9 && d != e && d != "" && e != ""
    ensures store.host == h && store.docs == Pair(d, e, item, kind)[d := Happened(item, kind, THREE)]
    ensures at == Some(3) && EventOf(h, store.docs[e]) == Some(Event(item, kind, 5))
  {
    store := TwoEvents(h, d, e, item, kind);
    EventIs(h, item, kind, FIVE);
    EventIs(h, item, kind, THREE);
    PairOwned(h, store.Contents(), d, e, item, kind);
    at := PutOwner(store, d, Happened(item, kind, THREE), Event(item, kind, 3));
  }

  /** The owner of a cell sets its time, whatever the others'. */
  method PutOwner(store: Store, d: string, doc: Doc, ev: Event) returns (at: Option<int>)
    requires d != "" && ParentOf(doc).None? && !doc.Blank? && 1 <= store.ids.next < 9
    requires Owns(store.absence.cells, EventView(store.host, store.docs), d) && EventOf(store.host, doc) == Some(ev)
    requires KeyOf(ev) == KeyOf(EventView(store.host, store.docs)[d])
    modifies store, store.ids, store.inverted, store.numeric, store.temporal, store.groups, store.closure,
             store.stats, store.absence
    ensures store.docs == old(store.docs)[d := doc] && at == Some(ev.at)
  {
    PutPlain(store, d, doc);
    at := store.LastSeen(ev.item, ev.kind);
  }

  lemma SameCell()
    ensures CellKey("a|b", "c") == CellKey("a", "b|c")
  {
    assert "a|b" + "|" + "c" == "a|b|c" && "a" + "|" + "b|c" == "a|b|c";
  }

  lemma NamesakeSeen(h: Host, s: State)
    requires CellsTrue(h, s) && s.docs == map["d" := Happened("a|b", "c", NINE)]
    ensures LastSeen(s.cells, "a", "b|c").Some? && Own(EventView(h, s.docs), "a", "b|c") == {}
  {
    var view := EventView(h, s.docs);
    assert "d" in s.docs && view.Keys == {"d"} && view["d"].item == "a|b" && view["d"].kind == "c";
    SameCell();
    assert "d" in Filed(view, CellKey("a", "b|c"));
    assert CellOk(s.cells, view, CellKey("a", "b|c"));
  }

  /** Another item and type that spell the same cell answer for one that has no event. */
  method NamesakeAnswers(h: Host) returns (store: Store, at: Option<int>)
    ensures store.host == h && store.docs == map["d" := Happened("a|b", "c", NINE)]
    ensures at.Some? && Own(EventView(h, store.docs), "a", "b|c") == {}
  {
    store := NewStore(h);
    PutEvent(store, "d", Happened("a|b", "c", NINE));
    NamesakeSeen(h, store.Contents());
    at := store.absence.Lookup("a", "b|c");
  }

  // ---------- groups ----------

  function Item(item: string, attr: string, value: string): Doc {
    Object(map["item_id" := Str(item), attr := Str(value)])
  }

  lemma ItemKeys(h: Host, item: string, attr: string, value: string)
    requires attr != "item_id"
    ensures KeysOfDoc(h, Item(item, attr, value)) == {GroupKey(item, attr, value)}
  {
    var doc := Item(item, attr, value);
    assert doc.fields["item_id"] == Str(item) && doc.fields[attr] == Str(value);
    var one := map[attr := value];
    assert ScalarsOf(h, doc) == one;
    forall a | a in one ensures GroupKey(item, a, one[a]) == GroupKey(item, attr, value) {
    }
    assert attr in one && GroupKey(item, attr, one[attr]) in ScalarKeys(item, one);
  }

  lemma StrangerIn(h: Host, docs: map<string, Doc>)
    requires docs == map["d" := Item("a|b", "c", "v"), "e" := Item("a", "b|c", "v")]
    ensures UnderKey(h, docs, GroupKey("a|b", "c", "v")) == {"d", "e"} && InGroupDocs(h, docs, "a|b", "c", "v") == {"d"}
  {
    ItemKeys(h, "a|b", "c", "v");
    ItemKeys(h, "a", "b|c", "v");
    BarCollides("v");
    assert IsInGroup(h, docs["d"], "a|b", "c", "v");
    assert ItemOf(docs["e"]) == "a" && "a" != "a|b" by { assert |"a"| != |"a|b"|; }
  }

  method TwoItems(h: Host) returns (store: Store)
    ensures store.host == h && store.docs == map["d" := Item("a|b", "c", "v"), "e" := Item("a", "b|c", "v")]
    ensures Inv(h, store.Contents())
  {
    store := NewStore(h);
    assert ParentOf(Item("a|b", "c", "v")).None? && ParentOf(Item("a", "b|c", "v")).None?;
    PutEvent(store, "d", Item("a|b", "c", "v"));
    PutEvent(store, "e", Item("a", "b|c", "v"));
  }

  /** Two items that spell the same group key are counted together. */
  method StrangerCounted(h: Host) returns (store: Store, count: int)
    ensures store.host == h && store.docs == map["d" := Item("a|b", "c", "v"), "e" := Item("a", "b|c", "v")]
    ensures count == 2 && InGroupDocs(h, store.docs, "a|b", "c", "v") == {"d"}
  {
    store := TwoItems(h);
    StrangerIn(h, store.docs);
    var first, last, found;
    count, first, last, found := store.GroupCount("a|b", "c", "v");
    DistinctSize(found.value);
  }

  lemma NobodyHeld(h: Host, k: string)
    ensures Inv(h, INIT) && GroupHeld(h, INIT, k)
  {
    InitInv(h);
  }

  /** A member without a timestamp drops out of the bracket when a later one joins. */
  method ZeroTimeForgotten(h: Host) returns (store: Store)
    requires h.toInt64(FIVE) == 5
    ensures store.host == h && store.docs == map["d" := Item("i", "type", "t"), "e" := Happened("i", "t", FIVE)]
    ensures !GroupHeld(h, store.Contents(), GroupKey("i", "type", "t"))
  {
    ghost var k := GroupKey("i", "type", "t");
    var d, e := Item("i", "type", "t"), Happened("i", "t", FIVE);
    store := new Store(h);
    NobodyHeld(h, k);
    ItemKeys(h, "i", "type", "t");
    assert ParentOf(d) == None && ParentOf(e) == None && TimeOf(h, d) == 0 && TimeOf(h, e) == 5;
    var ok := store.Put("d", d, false);
    ghost var s := store.Contents();
    PutInv(h, INIT, "d", d, s);
    PutHoldsExactly(h, INIT, "d", d, s, k);
    assert KeyMoved(GroupAt(INIT.groups, k), GroupAt(s.groups, k), s.ids.fwd["d"], false, true, 0);
    assert GroupAt(s.groups, k).value.first == 0;
    ok := store.Put("e", e, false);
    assert IsInGroup(h, e, "i", "type", "t");
    InOwnGroup(h, e, "i", "type", "t");
    PutHoldsExactly(h, s, "e", e, store.Contents(), k);
    assert Drops(GroupAt(s.groups, k), k in KeysOfDoc(h, e), TimeOf(h, e), TimeOf(h, s.docs["d"]));
  }

  // ---------- events ----------

  /** Storing a zero-length document twice asserts it twice; deleting it says nothing, and the replay keeps it. */
  method BlankMisleadsEvents(h: Host) returns (store: Store)
    ensures store.docs == map[] && Kinds(store.events, "d").None? && Replayed(store.events) != store.docs
  {
    store := new Store(h);
    assert ParentOf(Blank) == None;
    var ok := store.Put("d", Blank, false);
    ok := store.Put("d", Blank, false);
    ghost var e := Mutation(Assert, "d", Blank, Blank);
    assert store.events == [] + [e] + [e];
    ReplayLast([], e);
    ReplayLast([] + [e], e);
    KindsLast([], e);
    KindsLast([] + [e], e);
    ok := store.Delete("d", false);
  }

  // ---------- vectors ----------

  const LEFT: VectorIndexes.Key := VectorIndexes.Key("a:b", "c")
  const RIGHT: VectorIndexes.Key := VectorIndexes.Key("a", "b:c")

  lemma SameBucket()
    ensures VectorStores.DataName(LEFT) == VectorStores.DataName(RIGHT)
  {
    assert VectorStores.DataName(LEFT) == "a:b:c" && VectorStores.DataName(RIGHT) == "a:b:c";
  }

  lemma Undecodable(disk: VectorStores.Disk)
    requires LEFT in disk.registry && disk.registry[LEFT].dim == 1
    requires "y" in VectorStores.BlobsOf(disk, LEFT) &&
             VectorStores.BlobsOf(disk, LEFT)["y"] == VectorStores.Encode([1, 2])
    ensures !VectorStores.Decodable(disk, LEFT) && !VectorStores.DiskOk(disk)
  {
    assert |VectorStores.Encode([1, 2])| == 8;
    assert !VectorStores.KeyOk(disk, LEFT);
  }

  /** Two accepted inserts whose scopes share a bucket leave a disk that cannot be reopened. */
  method SharedBucketBreaksReopen() returns (store: VectorStores.VectorStore, first: bool, second: bool, reopened: bool)
    ensures first && second && !reopened && !VectorStores.DiskOk(store.OnDisk())
  {
    SameBucket();
    store := new VectorStores.VectorStore();
    var r := store.Insert(LEFT, "x", [1], VectorIndexes.Cosine);
    first := r.Done?;
    r := store.Insert(RIGHT, "y", [1, 2], VectorIndexes.Cosine);
    second := r.Done?;
    Undecodable(store.OnDisk());
    reopened := store.Reopen();
  }

  // ---------- ranges and queries ----------

  const ZERO_BELOW: Doc := Object(map["x" := Num(NEG_ZERO)])

  lemma OneNumber(name: string, f: Float)
    requires Finite(f)
    ensures NumsOf(Object(map[name := Num(f)])) == {(name, f)}
  {
    var m := map[name := Num(f)];
    assert ([] + [name])[|[] + [name]| - 1] == name;
    assert ValueNums([] + [name], m[name]) == {(name, f)};
    assert forall k :: k in m ==> k == name;
    forall q | q in FieldNums([], m, m.Keys) ensures q == (name, f) {
    }
    assert (name, f) in FieldNums([], m, m.Keys);
    assert ValueNums([], Obj(m)) == FieldNums([], m, m.Keys);
  }

  lemma {:induction false} ZeroSplitOff(docs: map<string, Doc>)
    requires docs == map["d" := ZERO_BELOW]
    ensures InRangeDocs(docs, "x", POS_ZERO, FIVE, false, false) == {"d"}
    ensures FoundDocs(docs, "x", POS_ZERO, FIVE, false, false) == {}
  {
    OneNumber("x", NEG_ZERO);
    assert Magnitude(POS_ZERO) == 0 && Magnitude(NEG_ZERO) == 0 && Value(FIVE) >= 0;
    assert InRange(NEG_ZERO, POS_ZERO, FIVE, false, false) && ZeroMissed(NEG_ZERO, POS_ZERO, FIVE);
    assert ("x", NEG_ZERO) in NumsOf(docs["d"]);
  }

  method ZeroStored(h: Host) returns (store: Store)
    ensures store.host == h && store.docs == map["d" := ZERO_BELOW] && Inv(h, store.Contents())
  {
    store := NewStore(h);
    PutEvent(store, "d", ZERO_BELOW);
  }

  /** A stored negative zero is in the closed range that starts at zero, and is not found. */
  method NegativeZeroMissed(h: Host) returns (store: Store, found: Option<seq<string>>)
    ensures store.host == h && InRangeDocs(store.docs, "x", POS_ZERO, FIVE, false, false) == {"d"}
    ensures found == Some([])
  {
    store := ZeroStored(h);
    ZeroSplitOff(store.docs);
    found := store.LookupNumericRange("x", POS_ZERO, FIVE, false, false);
    DistinctSize(found.value);
  }

  /** One document with one number, queried by an equal literal that prints differently. */
  method ClashLoses(h: Host, name: string, f: Float, t: Queries.Term)
    returns (store: Store, rows: Option<seq<Queries.Row>>)
    requires name != "" && name != "parent" && Queries.IsLiteral(t) && Queries.EqualValues(Num(f), t.literal)
    requires h.formatFloat(f) != Queries.LiteralText(h, t) && h.formatFloat(f) != name + ":" + Queries.LiteralText(h, t)
    ensures store.host == h && store.docs == map["d" := Object(map[name := Num(f)])]
    ensures var where := [Queries.Pattern(Queries.Term("?e", Null, None), name, t)];
            && Queries.Eval(h, where, "d", store.docs["d"]).Some?
            && rows.Some? && !Queries.IsRowScan(h, store.docs, where, ["?e"], rows.value)
  {
    var where := [Queries.Pattern(Queries.Term("?e", Null, None), name, t)];
    store := NewStore(h);
    PutEvent(store, "d", Object(map[name := Num(f)]));
    Queries.ClashHides(h, store.docs, "d", name, Num(f), t);
    rows := Queries.Query(store, where, ["?e"]);
    assert where[0] in where && Queries.IsAnchor(where[0]);
  }

  /** A stored negative zero matches a queried zero and is lost. */
  method ZeroSignHides(h: Host) returns (store: Store, rows: Option<seq<Queries.Row>>)
    requires h.formatFloat(POS_ZERO) == "0" && h.formatFloat(NEG_ZERO) == "-0"
    ensures var where := [Queries.Pattern(Queries.Term("?e", Null, None), "x", Queries.Term("", Num(POS_ZERO), None))];
            && store.docs == map["d" := ZERO_BELOW] && Queries.Eval(h, where, "d", ZERO_BELOW).Some?
            && rows.Some? && !Queries.IsRowScan(h, store.docs, where, ["?e"], rows.value)
  {
    assert Magnitude(POS_ZERO) == 0 && Magnitude(NEG_ZERO) == 0;
    assert "-0" != "0" && "-0" != "x" + ":" + "0" by { assert |"-0"| == 2 && |"x" + ":" + "0"| == 3 && |"0"| == 1; }
    store, rows := ClashLoses(h, "x", NEG_ZERO, Queries.Term("", Num(POS_ZERO), None));
  }

  const KILOMETRES: Float := 0x4132_d687_0000_0000   // 1234567.0

  /** An integer literal prints all its digits, the stored number an exponent: the document is lost. */
  method IntegerHides(h: Host) returns (store: Store, rows: Option<seq<Queries.Row>>)
    requires h.formatFloat(KILOMETRES) == "1.234567e+06"
    ensures var digits := Queries.Term("", Num(KILOMETRES), Some("1234567"));
            var where := [Queries.Pattern(Queries.Term("?e", Null, None), "km", digits)];
            && store.docs == map["d" := Object(map["km" := Num(KILOMETRES)])]
            && Queries.Eval(h, where, "d", store.docs["d"]).Some?
            && rows.Some? && !Queries.IsRowScan(h, store.docs, where, ["?e"], rows.value)
  {
    assert |"1.234567e+06"| == 12 && |"1234567"| == 7 && |"km" + ":" + "1234567"| == 10;
    store, rows := ClashLoses(h, "km", KILOMETRES, Queries.Term("", Num(KILOMETRES), Some("1234567")));
  }
}
