/** Temporal index: one time-sorted event log per item (bboltstore/temporal.go and its hook). */
module Temporal {
  import opened Documents

  datatype Entry = Entry(at: int, kind: string, doc: string)

  type Logs = map<string, seq<Entry>>

  ghost predicate SortedByTime(log: seq<Entry>) {
    forall i, j :: 0 <= i <= j < |log| ==> log[i].at <= log[j].at
  }

  /** loadTemporal: a missing bucket is the empty log. */
  function Log(logs: Logs, item: string): seq<Entry> {
    if item in logs then logs[item] else []
  }

  function FilterOut(log: seq<Entry>, doc: string): seq<Entry> {
    if log == [] then []
    else (if log[0].doc == doc then [] else [log[0]]) + FilterOut(log[1..], doc)
  }

  /** temporalRemove: drop the document's entry, drop the bucket when nothing is left. */
  function Removed(logs: Logs, item: string, doc: string): Logs {
    var log := FilterOut(Log(logs, item), doc);
    if log == [] then logs - {item} else logs[item := log]
  }

  /**
   temporalAdd: `sort.Slice` is not stable, so the stored log is any time-sorted arrangement of the
   filtered entries and the new one.
   */
  ghost predicate AddedTo(logs: Logs, logs': Logs, item: string, e: Entry) {
    && item in logs'
    && logs' == logs[item := logs'[item]]
    && SortedByTime(logs'[item])
    && multiset(logs'[item]) == multiset(FilterOut(Log(logs, item), e.doc) + [e])
  }

  function EntryOf(doc: string, ev: Event): Entry { Entry(ev.at, ev.kind, doc) }

  function AfterRemoval(logs: Logs, doc: string, was: Option<Event>): Logs {
    if was.Some? then Removed(logs, was.value.item, doc) else logs
  }

  /** updateTemporalIndex. */
  ghost predicate TempMoved(logs: Logs, logs': Logs, doc: string, was: Option<Event>, now: Option<Event>) {
    if now.Some? then AddedTo(AfterRemoval(logs, doc, was), logs', now.value.item, EntryOf(doc, now.value))
    else logs' == AfterRemoval(logs, doc, was)
  }

  method FilterEntries(log: seq<Entry>, doc: string) returns (out: seq<Entry>)
    ensures out == FilterOut(log, doc)
  {
    out := [];
    for n := 0 to |log|
      invariant out + FilterOut(log[n..], doc) == FilterOut(log, doc)
    {
      assert log[n..][1..] == log[n + 1..];
      if log[n].doc != doc {
        out := out + [log[n]];
      }
    }
  }

  /** Stands for `sort.Slice` by time: only sortedness and permutation are promised. */
  method SortByTime(log: seq<Entry>) returns (out: seq<Entry>)
    ensures SortedByTime(out) && multiset(out) == multiset(log)
  {
    out := [];
    for n := 0 to |log|
      invariant SortedByTime(out) && multiset(out) == multiset(log[..n])
    {
      assert log[..n + 1] == log[..n] + [log[n]];
      out := InsertByTime(out, log[n]);
    }
    assert log[..|log|] == log;
  }

  method InsertByTime(log: seq<Entry>, e: Entry) returns (out: seq<Entry>)
    requires SortedByTime(log)
    ensures SortedByTime(out) && multiset(out) == multiset(log) + multiset{e}
  {
    var k := |log|;
    while k > 0 && log[k - 1].at > e.at
      invariant 0 <= k <= |log|
      invariant forall i :: k <= i < |log| ==> e.at < log[i].at
    {
      k := k - 1;
    }
    out := log[..k] + [e] + log[k..];
    SplitMultiset(log, k, e);
    InsertedSorted(log, k, e);
  }

  lemma SplitMultiset(log: seq<Entry>, k: nat, e: Entry)
    requires k <= |log|
    ensures multiset(log[..k] + [e] + log[k..]) == multiset(log) + multiset{e}
  {
    assert log == log[..k] + log[k..];
  }

  lemma InsertedSorted(log: seq<Entry>, k: nat, e: Entry)
    requires k <= |log| && SortedByTime(log)
    requires k > 0 ==> log[k - 1].at <= e.at
    requires k < |log| ==> e.at <= log[k].at
    ensures SortedByTime(log[..k] + [e] + log[k..])
  {
  }

  class TemporalIndex {
    var logs: Logs

    constructor ()
      ensures logs == map[]
    {
      logs := map[];
    }

    method Add(item: string, e: Entry)
      modifies this
      ensures AddedTo(old(logs), logs, item, e)
    {
      var entries := FilterEntries(Log(logs, item), e.doc);
      entries := SortByTime(entries + [e]);
      logs := logs[item := entries];
    }

    method Remove(item: string, doc: string)
      modifies this
      ensures logs == Removed(old(logs), item, doc)
    {
      var entries := FilterEntries(Log(logs, item), doc);
      if entries == [] {
        logs := logs - {item};
      } else {
        logs := logs[item := entries];
      }
    }

    method Apply(doc: string, was: Option<Event>, now: Option<Event>)
      modifies this
      ensures TempMoved(old(logs), logs, doc, was, now)
    {
      if was.Some? { Remove(was.value.item, doc); }
      if now.Some? { Add(now.value.item, EntryOf(doc, now.value)); }
    }

    /** temporalRead: the log, filtered to some record types unless the list is empty. */
    method Read(item: string, kinds: set<string>) returns (out: seq<Entry>)
      ensures kinds == {} ==> out == Log(logs, item)
      ensures kinds != {} ==> out == OfKinds(Log(logs, item), kinds)
    {
      var log := Log(logs, item);
      if kinds == {} { return log; }
      out := [];
      for n := 0 to |log|
        invariant out + OfKinds(log[n..], kinds) == OfKinds(log, kinds)
      {
        assert log[n..][1..] == log[n + 1..];
        if log[n].kind in kinds {
          out := out + [log[n]];
        }
      }
    }
  }

  function OfKinds(log: seq<Entry>, kinds: set<string>): seq<Entry> {
    if log == [] then []
    else (if log[0].kind in kinds then [log[0]] else []) + OfKinds(log[1..], kinds)
  }

  lemma OfKindsSorted(log: seq<Entry>, kinds: set<string>, low: int)
    requires SortedByTime(log) && (log != [] ==> low <= log[0].at)
    ensures SortedByTime(OfKinds(log, kinds))
    ensures OfKinds(log, kinds) != [] ==> low <= OfKinds(log, kinds)[0].at
  {
    if log != [] {
      OfKindsSorted(log[1..], kinds, log[0].at);
    }
  }

  /** The filter keeps every entry of the given types, as often as it occurs, and no other. */
  lemma OfKindsCounts(log: seq<Entry>, kinds: set<string>, e: Entry)
    ensures multiset(OfKinds(log, kinds))[e] == if e.kind in kinds then multiset(log)[e] else 0
  {
    if log != [] {
      OfKindsCounts(log[1..], kinds, e);
      assert log == [log[0]] + log[1..];
    }
  }

  // ---------- agreement with the live events ----------

  /** The entries an item's log must hold: one per live event of the item. */
  ghost function EntriesOf(view: map<string, Event>, item: string): set<Entry> {
    set d | d in view && view[d].item == item :: EntryOf(d, view[d])
  }

  /** Every log is time-sorted and holds exactly the live events; a bucket exists iff it is non-empty. */
  ghost predicate TempAgrees(logs: Logs, view: map<string, Event>) {
    && (forall item :: LogAgrees(logs, view, item))
    && (forall item :: item in logs ==> logs[item] != [])
  }

  ghost predicate LogAgrees(logs: Logs, view: map<string, Event>, item: string) {
    && SortedByTime(Log(logs, item))
    && multiset(Log(logs, item)) == multiset(EntriesOf(view, item))
  }

  ghost function EventAt(view: map<string, Event>, d: string): Option<Event> {
    if d in view then Some(view[d]) else None
  }

  ghost function WithEvent(view: map<string, Event>, d: string, now: Option<Event>): map<string, Event> {
    if now.Some? then view[d := now.value] else view - {d}
  }

  lemma FilterOutCounts(log: seq<Entry>, doc: string, e: Entry)
    ensures multiset(FilterOut(log, doc))[e] == if e.doc == doc then 0 else multiset(log)[e]
  {
    if log != [] {
      FilterOutCounts(log[1..], doc, e);
      assert log == [log[0]] + log[1..];
    }
  }

  lemma FilterOutSorted(log: seq<Entry>, doc: string, low: int)
    requires SortedByTime(log) && (log != [] ==> low <= log[0].at)
    ensures SortedByTime(FilterOut(log, doc))
    ensures FilterOut(log, doc) != [] ==> low <= FilterOut(log, doc)[0].at
  {
    if log != [] {
      FilterOutSorted(log[1..], doc, log[0].at);
    }
  }

  lemma EntriesAfter(view: map<string, Event>, d: string, now: Option<Event>, item: string, e: Entry)
    ensures e in EntriesOf(WithEvent(view, d, now), item) <==>
              if e.doc == d then now.Some? && now.value.item == item && e == EntryOf(d, now.value)
              else e in EntriesOf(view, item)
    ensures e.doc == d && e in EntriesOf(view, item) ==> EventAt(view, d).Some? && view[d].item == item
  {
    var view' := WithEvent(view, d, now);
    if e.doc != d && e in EntriesOf(view, item) {
      assert e.doc in view' && view'[e.doc] == view[e.doc];
    }
    if e.doc == d && now.Some? && now.value.item == item && e == EntryOf(d, now.value) {
      assert d in view';
    }
  }

  lemma FilteredLog(log: seq<Entry>, view: map<string, Event>, d: string, item: string)
    requires multiset(log) == multiset(EntriesOf(view, item))
    ensures multiset(FilterOut(log, d)) == multiset(EntriesOf(view - {d}, item))
    ensures (d in view && view[d].item == item) || EntriesOf(view - {d}, item) == EntriesOf(view, item)
  {
    forall e ensures multiset(FilterOut(log, d))[e] == multiset(EntriesOf(view - {d}, item))[e] {
      FilterOutCounts(log, d, e);
      EntriesAfter(view, d, None, item, e);
    }
    forall e
      ensures (d in view && view[d].item == item) || (e in EntriesOf(view - {d}, item) <==> e in EntriesOf(view, item))
    {
      EntriesAfter(view, d, None, item, e);
    }
  }

  /** Every log once d's old entry is out. */
  lemma RemovalAgrees(logs: Logs, view: map<string, Event>, d: string)
    requires TempAgrees(logs, view)
    ensures TempAgrees(AfterRemoval(logs, d, EventAt(view, d)), view - {d})
  {
    var logs' := AfterRemoval(logs, d, EventAt(view, d));
    forall item
      ensures LogAgrees(logs', view - {d}, item)
    {
      var log := Log(logs, item);
      assert LogAgrees(logs, view, item);
      FilterOutSorted(log, d, if log == [] then 0 else log[0].at);
      FilteredLog(log, view, d, item);
    }
  }

  lemma AddedLog(log: seq<Entry>, log': seq<Entry>, view: map<string, Event>, d: string, ev: Event)
    requires multiset(log) == multiset(EntriesOf(view - {d}, ev.item))
    requires multiset(log') == multiset(FilterOut(log, d) + [EntryOf(d, ev)])
    ensures multiset(log') == multiset(EntriesOf(view[d := ev], ev.item)) && log' != []
  {
    forall e ensures multiset(log')[e] == multiset(EntriesOf(view[d := ev], ev.item))[e] {
      EntriesAfter(view, d, Some(ev), ev.item, e);
      EntriesAfter(view, d, None, ev.item, e);
      FilterOutCounts(log, d, e);
    }
    assert multiset(log')[EntryOf(d, ev)] > 0;
  }

  lemma OtherEntries(view: map<string, Event>, d: string, ev: Event, item: string)
    requires item != ev.item
    ensures EntriesOf(view[d := ev], item) == EntriesOf(view - {d}, item)
  {
    forall e ensures e in EntriesOf(view[d := ev], item) <==> e in EntriesOf(view - {d}, item) {
      EntriesAfter(view, d, Some(ev), item, e);
      EntriesAfter(view, d, None, item, e);
    }
  }

  lemma AdditionAgrees(logs: Logs, logs': Logs, view: map<string, Event>, d: string, ev: Event, item: string)
    requires TempAgrees(logs, view - {d}) && AddedTo(logs, logs', ev.item, EntryOf(d, ev))
    ensures LogAgrees(logs', view[d := ev], item)
  {
    assert LogAgrees(logs, view - {d}, item);
    if item != ev.item {
      OtherEntries(view, d, ev, item);
    } else {
      AddedLog(Log(logs, item), logs'[item], view, d, ev);
    }
  }

  /** The hook keeps every log sorted and exact, whatever arrangement the unstable sort chooses. */
  lemma {:induction false} TempMoveKeeps(logs: Logs, logs': Logs, view: map<string, Event>, d: string,
                                         now: Option<Event>)
    requires TempAgrees(logs, view) && TempMoved(logs, logs', d, EventAt(view, d), now)
    ensures TempAgrees(logs', WithEvent(view, d, now))
  {
    RemovalAgrees(logs, view, d);
    if now.Some? {
      var mid, ev := AfterRemoval(logs, d, EventAt(view, d)), now.value;
      var view' := view[d := ev];
      forall item ensures LogAgrees(logs', view', item) {
        AdditionAgrees(mid, logs', view, d, ev, item);
      }
      assert LogAgrees(mid, view - {d}, ev.item);
      AddedLog(Log(mid, ev.item), logs'[ev.item], view, d, ev);
    }
  }
}
