/** Absence index: the latest event per (item, record type), with its owner (bboltstore/absence.go and its hook). */
module Absences {
  import opened Order
  import opened Documents
  import opened Temporal
  import opened Groups

  datatype Cell = Cell(at: int, doc: string)

  type Cells = map<string, Cell>

  function CellKey(item: string, kind: string): string { item + "|" + kind }

  function KeyOf(e: Event): string { CellKey(e.item, e.kind) }

  /** absenceRecord: an event no newer than another document's maximum is dropped. */
  function Recorded(cells: Cells, key: string, d: string, at: int): Cells {
    if key in cells && at <= cells[key].at && cells[key].doc != d then cells
    else cells[key := Cell(at, d)]
  }

  function Entered(cells: Cells, d: string, now: Option<Event>): Cells {
    if now.Some? then Recorded(cells, KeyOf(now.value), d, now.value.at) else cells
  }

  /** The running maximum over a log, skipping one document; strictly later events replace it. */
  function Newest(log: seq<Entry>, skip: string, best: Cell): Cell
    decreases |log|
  {
    if log == [] then best
    else
      var e := log[0];
      Newest(log[1..], skip, if e.doc != skip && e.at > best.at then Cell(e.at, e.doc) else best)
  }

  /** absenceRetract: the owner of the maximum went, so recompute it from the temporal log; 0 means none. */
  function Retracted(cells: Cells, logs: Logs, item: string, kind: string, d: string): Cells {
    var key := CellKey(item, kind);
    if key !in cells || cells[key].doc != d then cells
    else
      var m := Newest(OfKinds(Log(logs, item), {kind}), d, Cell(0, ""));
      if m.at == 0 then cells - {key} else cells[key := m]
  }

  /** updateAbsenceIndex, after the temporal hook; `gone` is a zero-length or deleted new document. */
  function Updated(cells: Cells, logs: Logs, d: string, was: Option<Event>, now: Option<Event>, gone: bool): Cells {
    var mid := if was.Some? && gone then Retracted(cells, logs, was.value.item, was.value.kind, d) else cells;
    Entered(mid, d, now)
  }

  class AbsenceIndex {
    var cells: Cells

    constructor ()
      ensures cells == map[]
    {
      cells := map[];
    }

    method Record(item: string, kind: string, d: string, at: int)
      modifies this
      ensures cells == Recorded(old(cells), CellKey(item, kind), d, at)
      ensures var key := CellKey(item, kind);
              key in old(cells) && at <= old(cells)[key].at && old(cells)[key].doc != d ==> cells == old(cells)
    {
      var key := CellKey(item, kind);
      if key in cells {
        var cur := cells[key];
        if at <= cur.at && cur.doc != d { return; }
      }
      cells := cells[key := Cell(at, d)];
    }

    method Retract(temporal: TemporalIndex, item: string, kind: string, d: string)
      modifies this
      ensures cells == Retracted(old(cells), temporal.logs, item, kind, d)
    {
      var key := CellKey(item, kind);
      if key !in cells || cells[key].doc != d { return; }
      var entries := temporal.Read(item, {kind});
      var newMax := Cell(0, "");
      for n := 0 to |entries|
        invariant Newest(entries[n..], d, newMax) == Newest(entries, d, Cell(0, ""))
      {
        assert entries[n..][1..] == entries[n + 1..];
        if entries[n].doc != d {
          if entries[n].at > newMax.at {
            newMax := Cell(entries[n].at, entries[n].doc);
          }
        }
      }
      assert entries[|entries|..] == [];
      if newMax.at == 0 {
        cells := cells - {key};
      } else {
        cells := cells[key := newMax];
      }
    }

    method Apply(temporal: TemporalIndex, d: string, was: Option<Event>, now: Option<Event>, gone: bool)
      modifies this
      ensures cells == Updated(old(cells), temporal.logs, d, was, now, gone)
    {
      if was.Some? && gone { Retract(temporal, was.value.item, was.value.kind, d); }
      if now.Some? { Record(now.value.item, now.value.kind, d, now.value.at); }
    }

    method Lookup(item: string, kind: string) returns (at: Option<int>)
      ensures at == LastSeen(cells, item, kind)
    {
      var key := CellKey(item, kind);
      at := if key in cells then Some(cells[key].at) else None;
    }
  }

  function LastSeen(cells: Cells, item: string, kind: string): Option<int> {
    var key := CellKey(item, kind);
    if key in cells then Some(cells[key].at) else None
  }

  // ---------- agreement with the live events ----------

  type Events = map<string, Event>

  /** Live events filed under a cell. */
  ghost function Filed(view: Events, key: string): set<string> {
    set d | d in view && KeyOf(view[d]) == key
  }

  /** The cell is absent iff no event is filed under it, and else is a live event with the latest time. */
  ghost predicate CellOk(cells: Cells, view: Events, key: string) {
    if key !in cells then Filed(view, key) == {}
    else
      && cells[key].doc in Filed(view, key)
      && cells[key].at == view[cells[key].doc].at
      && forall d :: d in Filed(view, key) ==> view[d].at <= cells[key].at
  }

  ghost predicate CellsExact(cells: Cells, view: Events) {
    forall key :: CellOk(cells, view, key)
  }

  /** The deletion of an owner can be recomputed: some other event of the same item and type is positive and latest. */
  ghost predicate Recoverable(view: Events, d: string, e: Event) {
    var others := Filed(view, KeyOf(e)) - {d};
    others == {} ||
    exists c :: c in others && view[c].item == e.item && view[c].kind == e.kind && view[c].at > 0 &&
                forall o :: o in others ==> view[o].at <= view[c].at
  }

  /** The document holds the maximum of its cell. */
  ghost predicate Owns(cells: Cells, view: Events, d: string) {
    d in view && KeyOf(view[d]) in cells && cells[KeyOf(view[d])].doc == d
  }

  /**
   What a caller can check before a write: unless the document owns the maximum of its old cell, nothing
   can go wrong; if it does, a removal must be recoverable, and an overwrite must stay in the cell with a
   time no other event there exceeds.
   */
  ghost predicate Safe(cells: Cells, view: Events, d: string, now: Option<Event>, gone: bool) {
    Owns(cells, view, d) ==>
      if gone then Recoverable(view, d, view[d])
      else now.Some? && KeyOf(now.value) == KeyOf(view[d]) &&
           forall o :: o in Filed(view, KeyOf(view[d])) && o != d ==> view[o].at <= now.value.at
  }

  lemma FiledAfter(view: Events, d: string, now: Option<Event>, key: string)
    ensures Filed(WithEvent(view, d, now), key)
         == Filed(view, key) - {d} + if now.Some? && KeyOf(now.value) == key then {d} else {}
  {
  }

  lemma {:induction false} NewestBound(log: seq<Entry>, skip: string, best: Cell)
    ensures var m := Newest(log, skip, best);
            && m.at >= best.at
            && (forall e :: e in log && e.doc != skip ==> e.at <= m.at)
            && (m == best || exists e :: e in log && e.doc != skip && m == Cell(e.at, e.doc) && m.at > best.at)
    decreases |log|
  {
    if log != [] {
      var e := log[0];
      NewestBound(log[1..], skip, if e.doc != skip && e.at > best.at then Cell(e.at, e.doc) else best);
      assert log == [e] + log[1..];
    }
  }

  lemma OfKindsMembers(log: seq<Entry>, kinds: set<string>)
    ensures forall e :: e in OfKinds(log, kinds) <==> e in log && e.kind in kinds
  {
    if log != [] {
      OfKindsMembers(log[1..], kinds);
      assert log == [log[0]] + log[1..];
    }
  }

  lemma LogMembers(logs: Logs, view: Events, item: string, e: Entry)
    requires TempAgrees(logs, view)
    ensures e in Log(logs, item) <==> e.doc in view && view[e.doc] == Event(item, e.kind, e.at)
  {
    assert LogAgrees(logs, view, item);
    assert e in Log(logs, item) <==> multiset(Log(logs, item))[e] > 0;
    assert e in EntriesOf(view, item) <==> multiset(EntriesOf(view, item))[e] > 0;
  }

  /** The recomputed maximum, read off the live events of the item and type. */
  lemma {:induction false} NewestLive(logs: Logs, view: Events, item: string, kind: string, d: string)
    requires TempAgrees(logs, view) && d !in view
    ensures var m := Newest(OfKinds(Log(logs, item), {kind}), d, Cell(0, ""));
            && m.at >= 0
            && (forall c :: c in view && view[c].item == item && view[c].kind == kind ==> view[c].at <= m.at)
            && (m.at == 0 || (m.doc in view && view[m.doc] == Event(item, kind, m.at)))
  {
    var log := OfKinds(Log(logs, item), {kind});
    var m := Newest(log, d, Cell(0, ""));
    NewestBound(log, d, Cell(0, ""));
    OfKindsMembers(Log(logs, item), {kind});
    forall c | c in view && view[c].item == item && view[c].kind == kind ensures view[c].at <= m.at {
      LogMembers(logs, view, item, EntryOf(c, view[c]));
      assert EntryOf(c, view[c]) in log;
    }
    if m.at > 0 {
      var e :| e in log && e.doc != d && m == Cell(e.at, e.doc);
      LogMembers(logs, view, item, e);
    }
  }

  /** Dropping a document that owns no maximum changes nothing. */
  lemma DropOther(cells: Cells, view: Events, d: string)
    requires CellsExact(cells, view) && (d in view && KeyOf(view[d]) in cells ==> cells[KeyOf(view[d])].doc != d)
    ensures CellsExact(cells, view - {d})
  {
    forall key ensures CellOk(cells, view - {d}, key) {
      FiledAfter(view, d, None, key);
      assert CellOk(cells, view, key);
    }
  }

  /** Recording the first event of a document keeps every cell exact. */
  lemma RecordExact(cells: Cells, view: Events, d: string, e: Event)
    requires CellsExact(cells, view) && d !in view
    ensures CellsExact(Recorded(cells, KeyOf(e), d, e.at), view[d := e])
  {
    var cells', view' := Recorded(cells, KeyOf(e), d, e.at), view[d := e];
    forall key ensures CellOk(cells', view', key) {
      FiledAfter(view, d, Some(e), key);
      assert CellOk(cells, view, key);
      if key == KeyOf(e) { assert d in Filed(view', key); }
    }
  }

  /** A deletion keeps the cells exact exactly when the owner's successor is recoverable. */
  lemma {:induction false} RetractExact(cells: Cells, logs: Logs, view: Events, d: string)
    requires CellsExact(cells, view) && d in view && TempAgrees(logs, view - {d})
    requires KeyOf(view[d]) in cells && cells[KeyOf(view[d])].doc == d
    ensures CellsExact(Retracted(cells, logs, view[d].item, view[d].kind, d), view - {d}) <==>
              Recoverable(view, d, view[d])
  {
    var e, view' := view[d], view - {d};
    var key, cells' := KeyOf(e), Retracted(cells, logs, e.item, e.kind, d);
    var m := Newest(OfKinds(Log(logs, e.item), {e.kind}), d, Cell(0, ""));
    NewestLive(logs, view', e.item, e.kind, d);
    forall k | k != key ensures CellOk(cells', view', k) {
      FiledAfter(view, d, None, k);
      assert CellOk(cells, view, k);
    }
    FiledAfter(view, d, None, key);
    var others := Filed(view, key) - {d};
    assert others == Filed(view', key);
    CellAfterRetract(view', others, key, e, m);
    assert CellOk(cells', view', key) <==>
             others == {} || (m.at > 0 && forall o :: o in others ==> view'[o].at <= m.at);
    assert forall o :: o in others ==> view'[o] == view[o];
  }

  lemma CellAfterRetract(view': Events, others: set<string>, key: string, e: Event, m: Cell)
    requires others == Filed(view', key) && key == KeyOf(e)
    requires m.at >= 0 && (m.at == 0 || (m.doc in view' && view'[m.doc] == Event(e.item, e.kind, m.at)))
    requires forall c :: c in view' && view'[c].item == e.item && view'[c].kind == e.kind ==> view'[c].at <= m.at
    ensures (exists c :: c in others && view'[c].item == e.item && view'[c].kind == e.kind && view'[c].at > 0 &&
                         forall o :: o in others ==> view'[o].at <= view'[c].at)
       <==> m.at > 0 && m.doc in others && forall o :: o in others ==> view'[o].at <= m.at
    ensures others == {} ==> m.at == 0
    ensures m.at > 0 ==> m.doc in others
  {
    if m.at > 0 {
      assert KeyOf(view'[m.doc]) == key && m.doc in others;
    }
  }

  /** An overwrite by the owner that stays in its cell. */
  lemma {:induction false} OverwriteExact(cells: Cells, view: Events, d: string, now: Event)
    requires CellsExact(cells, view) && d in view
    requires KeyOf(now) == KeyOf(view[d]) && KeyOf(now) in cells && cells[KeyOf(now)].doc == d
    ensures CellsExact(Recorded(cells, KeyOf(now), d, now.at), view[d := now])
       <==> forall o :: o in Filed(view, KeyOf(now)) && o != d ==> view[o].at <= now.at
  {
    var key, view' := KeyOf(now), view[d := now];
    var cells' := Recorded(cells, key, d, now.at);
    forall k | k != key ensures CellOk(cells', view', k) {
      FiledAfter(view, d, Some(now), k);
      assert CellOk(cells, view, k);
    }
    FiledAfter(view, d, Some(now), key);
    assert CellOk(cells', view', key) <==> forall o :: o in Filed(view', key) ==> view'[o].at <= now.at;
    forall o | o in Filed(view, key) && o != d ensures o in Filed(view', key) && view'[o] == view[o] {
    }
  }

  /** The owner left its cell without a retraction: the cell goes on naming it. */
  lemma {:induction false} AbandonedCell(cells: Cells, view: Events, d: string, now: Option<Event>)
    requires d in view && KeyOf(view[d]) in cells && cells[KeyOf(view[d])].doc == d
    requires now.None? || KeyOf(now.value) != KeyOf(view[d])
    ensures !CellsExact(Entered(cells, d, now), WithEvent(view, d, now))
  {
    var key := KeyOf(view[d]);
    FiledAfter(view, d, now, key);
    var cells' := Entered(cells, d, now);
    assert !CellOk(cells', WithEvent(view, d, now), key);
  }

  /** Exactly when a committed write keeps every cell exact. */
  lemma {:induction false} UpdateExact(cells: Cells, logs: Logs, view: Events, d: string, now: Option<Event>,
                                       gone: bool)
    requires CellsExact(cells, view) && TempAgrees(logs, WithEvent(view, d, now)) && (gone ==> now.None?)
    ensures CellsExact(Updated(cells, logs, d, EventAt(view, d), now, gone), WithEvent(view, d, now))
       <==> Safe(cells, view, d, now, gone)
  {
    if d in view && KeyOf(view[d]) in cells && cells[KeyOf(view[d])].doc == d {
      if gone {
        RetractExact(cells, logs, view, d);
      } else if now.Some? && KeyOf(now.value) == KeyOf(view[d]) {
        OverwriteExact(cells, view, d, now.value);
      } else {
        AbandonedCell(cells, view, d, now);
      }
    } else {
      DropOther(cells, view, d);
      if now.Some? {
        RecordExact(cells, view - {d}, d, now.value);
        assert (view - {d})[d := now.value] == view[d := now.value];
      }
    }
  }

  // ---------- the times alone ----------

  /** The cell is absent iff no event is filed under it, and else has the latest time; whoever its owner is. */
  ghost predicate TimeOk(cells: Cells, view: Events, key: string) {
    if key !in cells then Filed(view, key) == {} else LatestTime(view, Filed(view, key), cells[key].at)
  }

  ghost predicate LatestTime(view: Events, ds: set<string>, at: int)
    requires ds <= view.Keys
  {
    (exists d :: d in ds && view[d].at == at) && forall d :: d in ds ==> view[d].at <= at
  }

  ghost predicate TimesExact(cells: Cells, view: Events) {
    forall key :: TimeOk(cells, view, key)
  }

  lemma CellIsTime(cells: Cells, view: Events, key: string)
    requires CellOk(cells, view, key)
    ensures TimeOk(cells, view, key)
  {
  }

  /** The owner leaves its cell without being deleted, and another event there has the same time. */
  ghost predicate Tied(view: Events, d: string, now: Option<Event>, gone: bool) {
    && d in view && !gone && (now.None? || KeyOf(now.value) != KeyOf(view[d]))
    && exists o :: o in Filed(view, KeyOf(view[d])) && o != d && view[o].at == view[d].at
  }

  /** An abandoned cell goes on showing its old time, which is right exactly in a tie. */
  lemma {:induction false} AbandonedTime(cells: Cells, view: Events, d: string, now: Option<Event>)
    requires CellsExact(cells, view) && d in view && KeyOf(view[d]) in cells && cells[KeyOf(view[d])].doc == d
    requires now.None? || KeyOf(now.value) != KeyOf(view[d])
    ensures TimesExact(Entered(cells, d, now), WithEvent(view, d, now))
       <==> Tied(view, d, now, false)
  {
    var key, view' := KeyOf(view[d]), WithEvent(view, d, now);
    var cells' := Entered(cells, d, now);
    assert CellOk(cells, view, key);
    forall k | k != key ensures TimeOk(cells', view', k) {
      assert CellOk(cells, view, k);
      OtherTime(cells, view, d, now, k);
    }
    FiledAfter(view, d, now, key);
    assert Filed(view', key) == Filed(view, key) - {d};
    assert forall o :: o in Filed(view, key) && o != d ==> view'[o] == view[o];
    assert cells'[key] == cells[key];
    if Tied(view, d, now, false) {
      var o :| o in Filed(view, key) && o != d && view[o].at == view[d].at;
      assert o in Filed(view', key) && view'[o].at == cells'[key].at;
      assert TimeOk(cells', view', key);
    } else {
      assert !TimeOk(cells', view', key);
    }
  }

  /** A cell that d did not own before shows the right time after d moves, or moves into it. */
  lemma OtherTime(cells: Cells, view: Events, d: string, now: Option<Event>, k: string)
    requires CellOk(cells, view, k) && d in view && KeyOf(view[d]) != k
    ensures TimeOk(Entered(cells, d, now), WithEvent(view, d, now), k)
  {
    var view' := WithEvent(view, d, now);
    var cells' := Entered(cells, d, now);
    FiledAfter(view, d, now, k);
    assert d !in Filed(view, k);
    assert CellOk(cells', view', k) by {
      if now.Some? && KeyOf(now.value) == k { assert d in Filed(view', k); }
    }
    CellIsTime(cells', view', k);
  }

  lemma {:induction false} OverwriteTime(cells: Cells, view: Events, d: string, now: Event)
    requires CellsExact(cells, view) && d in view
    requires KeyOf(now) == KeyOf(view[d]) && KeyOf(now) in cells && cells[KeyOf(now)].doc == d
    requires !CellsExact(Recorded(cells, KeyOf(now), d, now.at), view[d := now])
    ensures !TimesExact(Recorded(cells, KeyOf(now), d, now.at), view[d := now])
  {
    var key, view' := KeyOf(now), view[d := now];
    OverwriteExact(cells, view, d, now);
    var o :| o in Filed(view, key) && o != d && view[o].at > now.at;
    assert o in Filed(view', key) && view'[o] == view[o];
    assert !TimeOk(Recorded(cells, key, d, now.at), view', key);
  }

  lemma {:induction false} RetractTime(cells: Cells, logs: Logs, view: Events, d: string)
    requires CellsExact(cells, view) && d in view && TempAgrees(logs, view - {d})
    requires KeyOf(view[d]) in cells && cells[KeyOf(view[d])].doc == d && !Recoverable(view, d, view[d])
    ensures !TimesExact(Retracted(cells, logs, view[d].item, view[d].kind, d), view - {d})
  {
    var e, view' := view[d], view - {d};
    var key := KeyOf(e);
    var m := Newest(OfKinds(Log(logs, e.item), {e.kind}), d, Cell(0, ""));
    NewestLive(logs, view', e.item, e.kind, d);
    FiledAfter(view, d, None, key);
    var others := Filed(view, key) - {d};
    assert others == Filed(view', key);
    CellAfterRetract(view', others, key, e, m);
    assert forall o :: o in others ==> view'[o] == view[o];
    assert !TimeOk(Retracted(cells, logs, e.item, e.kind, d), view', key);
  }

  /** Exactly when a write leaves every cell with the right time: it is safe, or the owner leaves in a tie. */
  lemma {:induction false} UpdateTimes(cells: Cells, logs: Logs, view: Events, d: string, now: Option<Event>,
                                       gone: bool)
    requires CellsExact(cells, view) && TempAgrees(logs, WithEvent(view, d, now)) && (gone ==> now.None?)
    ensures TimesExact(Updated(cells, logs, d, EventAt(view, d), now, gone), WithEvent(view, d, now))
       <==> Safe(cells, view, d, now, gone) || (Owns(cells, view, d) && Tied(view, d, now, gone))
  {
    var cells', view' := Updated(cells, logs, d, EventAt(view, d), now, gone), WithEvent(view, d, now);
    UpdateExact(cells, logs, view, d, now, gone);
    if CellsExact(cells', view') {
      forall key ensures TimeOk(cells', view', key) { CellIsTime(cells', view', key); }
    } else if gone {
      RetractTime(cells, logs, view, d);
    } else if now.Some? && KeyOf(now.value) == KeyOf(view[d]) {
      OverwriteTime(cells, view, d, now.value);
    } else {
      AbandonedTime(cells, view, d, now);
    }
  }

  // ---------- the restriction under which every write is safe, and what LastSeen then says ----------

  /** Item ids free of the separator and positive times, over all live events. */
  ghost predicate Plain(view: Events) {
    forall d :: d in view ==> NoBar(view[d].item) && view[d].at > 0
  }

  /** Overwrites of an event document keep its item and type and do not lower its time. */
  ghost predicate Gentle(view: Events, d: string, now: Option<Event>, gone: bool) {
    d in view && !gone ==>
      now.Some? && now.value.item == view[d].item && now.value.kind == view[d].kind && now.value.at >= view[d].at
  }

  lemma {:induction false} CellKeyInjective(i: string, k: string, j: string, l: string)
    requires NoBar(i) && NoBar(j) && CellKey(i, k) == CellKey(j, l)
    ensures i == j && k == l
  {
    SeparatedEqual('|', i, k, j, l);
  }

  lemma LatestOf(view: Events, s: set<string>) returns (c: string)
    requires s != {} && s <= view.Keys
    ensures c in s && forall o :: o in s ==> view[o].at <= view[c].at
  {
    c :| c in s;
    if s != {c} {
      var r := LatestOf(view, s - {c});
      if view[r].at >= view[c].at { c := r; }
    }
  }

  lemma {:induction false} GentleIsSafe(cells: Cells, view: Events, d: string, now: Option<Event>, gone: bool)
    requires CellsExact(cells, view) && Plain(view) && Gentle(view, d, now, gone)
    ensures Safe(cells, view, d, now, gone)
  {
    if d in view && KeyOf(view[d]) in cells && cells[KeyOf(view[d])].doc == d {
      var key := KeyOf(view[d]);
      assert CellOk(cells, view, key);
      var others := Filed(view, key) - {d};
      if gone && others != {} {
        var c := LatestOf(view, others);
        CellKeyInjective(view[c].item, view[c].kind, view[d].item, view[d].kind);
      }
    }
  }

  /** The live events of an item and type. */
  ghost function Own(view: Events, item: string, kind: string): set<string> {
    set d | d in view && view[d].item == item && view[d].kind == kind
  }

  /** The latest time of the live events of the item and type, absent iff there are none. */
  ghost predicate IsLatest(view: Events, item: string, kind: string, at: Option<int>) {
    match at
    case None => Own(view, item, kind) == {}
    case Some(t) =>
      && (exists d :: d in Own(view, item, kind) && view[d].at == t)
      && (forall d :: d in Own(view, item, kind) ==> view[d].at <= t)
  }

  /** An event whose item and type spell the same cell is later than all of the item and type's own. */
  ghost predicate Outshone(view: Events, item: string, kind: string) {
    exists e :: e in Filed(view, CellKey(item, kind)) &&
                forall d :: d in Own(view, item, kind) ==> view[d].at < view[e].at
  }

  /**
   While the cell shows the right time, LastSeen is the latest own event if and only if no namesake outshines them.
   */
  lemma {:induction false} LastSeenExact(cells: Cells, view: Events, item: string, kind: string)
    requires TimeOk(cells, view, CellKey(item, kind))
    ensures IsLatest(view, item, kind, LastSeen(cells, item, kind)) <==> !Outshone(view, item, kind)
  {
    var key := CellKey(item, kind);
    OwnFiled(view, item, kind);
    if key in cells {
      var c :| c in Filed(view, key) && view[c].at == cells[key].at;
      SeenExact(view, item, kind, Cell(cells[key].at, c));
    }
  }

  lemma {:induction false} SeenExact(view: Events, item: string, kind: string, c: Cell)
    requires c.doc in Filed(view, CellKey(item, kind)) && c.at == view[c.doc].at
    requires forall d :: d in Filed(view, CellKey(item, kind)) ==> view[d].at <= c.at
    ensures IsLatest(view, item, kind, Some(c.at)) <==> !Outshone(view, item, kind)
  {
    OwnFiled(view, item, kind);
    LatestAmong(view, Own(view, item, kind), Filed(view, CellKey(item, kind)), c.doc);
    CellTells(view, item, kind, c);
  }

  lemma OwnFiled(view: Events, item: string, kind: string)
    ensures Own(view, item, kind) <= Filed(view, CellKey(item, kind))
  {
  }

  lemma CellTells(view: Events, item: string, kind: string, c: Cell)
    requires c.doc in Filed(view, CellKey(item, kind)) && c.at == view[c.doc].at
    requires forall d :: d in Filed(view, CellKey(item, kind)) ==> view[d].at <= c.at
    ensures IsLatest(view, item, kind, Some(c.at)) <==>
              exists d :: d in Own(view, item, kind) && view[d].at == view[c.doc].at
  {
    OwnFiled(view, item, kind);
  }

  /** The latest of a set is the latest of a subset exactly when some member of the subset is as late. */
  lemma {:induction false} LatestAmong(view: Events, own: set<string>, all: set<string>, c: string)
    requires own <= all <= view.Keys && c in all && forall d :: d in all ==> view[d].at <= view[c].at
    ensures (exists d :: d in own && view[d].at == view[c].at) <==>
              !exists e :: e in all && forall d :: d in own ==> view[d].at < view[e].at
  {
    if d :| d in own && view[d].at == view[c].at {
      forall e | e in all ensures !(view[d].at < view[e].at) {
      }
    } else {
      forall d | d in own ensures view[d].at < view[c].at {
        assert view[d].at != view[c].at;
      }
    }
  }

  /** Items without the separator have no namesakes. */
  lemma {:induction false} LastSeenIsLatest(cells: Cells, view: Events, item: string, kind: string)
    requires TimeOk(cells, view, CellKey(item, kind)) && NoBar(item) && forall d :: d in view ==> NoBar(view[d].item)
    ensures IsLatest(view, item, kind, LastSeen(cells, item, kind))
  {
    LastSeenExact(cells, view, item, kind);
    forall e | e in Filed(view, CellKey(item, kind)) ensures e in Own(view, item, kind) {
      CellKeyInjective(view[e].item, view[e].kind, item, kind);
    }
  }
}
