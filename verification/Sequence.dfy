/** SequenceJoin: greedy in-order step matching over a sorted event log (bboltstore/sequence.go). */
module Sequences {
  import opened Order
  import opened Temporal

  /** An increasing choice of indexes whose events spell the steps. */
  ghost predicate Spells(log: seq<Entry>, steps: seq<string>, idx: seq<int>) {
    && |idx| == |steps|
    && (forall i :: 0 <= i < |idx| ==> 0 <= idx[i] < |log| && log[idx[i]].kind == steps[i])
    && (forall i, j :: 0 <= i < j < |idx| ==> idx[i] < idx[j])
  }

  /** First-to-last span at most the window; a window of 0 or less is no bound. */
  ghost predicate Within(log: seq<Entry>, idx: seq<int>, window: int)
    requires idx != [] && 0 <= idx[0] < |log| && 0 <= idx[|idx| - 1] < |log|
  {
    window <= 0 || log[idx[|idx| - 1]].at - log[idx[0]].at <= window
  }

  ghost predicate Match(log: seq<Entry>, steps: seq<string>, window: int, idx: seq<int>) {
    steps != [] && Spells(log, steps, idx) && Within(log, idx, window)
  }

  ghost function Picked(log: seq<Entry>, idx: seq<int>): seq<Entry>
    requires forall i :: 0 <= i < |idx| ==> 0 <= idx[i] < |log|
  {
    seq(|idx|, i requires 0 <= i < |idx| => log[idx[i]])
  }

  /** Starts at the smallest feasible index, and among choices with that start ends earliest. */
  ghost predicate Best(log: seq<Entry>, steps: seq<string>, window: int, idx: seq<int>) {
    && Match(log, steps, window, idx)
    && (forall other :: Match(log, steps, window, other) ==> idx[0] <= other[0])
    && (forall other :: Match(log, steps, window, other) && other[0] == idx[0] ==> idx[|idx| - 1] <= other[|other| - 1])
  }

  /** The greedy prefix is pointwise earliest among all choices with the same start. */
  ghost predicate Earliest(log: seq<Entry>, steps: seq<string>, start: int, idx: seq<int>, j: int) {
    forall other :: Spells(log, steps, other) && other != [] && other[0] == start ==>
      && (forall i :: 0 <= i < |idx| && i < |other| ==> idx[i] <= other[i])
      && (|idx| < |other| ==> j <= other[|idx|])
  }

  lemma ExtendSpells(log: seq<Entry>, steps: seq<string>, idx: seq<int>, j: int)
    requires |idx| < |steps| && Spells(log, steps[..|idx|], idx)
    requires 0 <= j < |log| && log[j].kind == steps[|idx|]
    requires forall i :: 0 <= i < |idx| ==> idx[i] < j
    ensures Spells(log, steps[..|idx| + 1], idx + [j])
    ensures Picked(log, idx + [j]) == Picked(log, idx) + [log[j]]
  {
  }

  /** Taking the first event of the next type stays pointwise earliest. */
  lemma EarliestTake(log: seq<Entry>, steps: seq<string>, start: int, idx: seq<int>, j: int)
    requires 0 < |idx| < |steps| && Earliest(log, steps, start, idx, j)
    ensures Earliest(log, steps, start, idx + [j], j + 1)
  {
    forall other | Spells(log, steps, other) && other != [] && other[0] == start
      ensures forall i :: 0 <= i < |idx| + 1 && i < |other| ==> (idx + [j])[i] <= other[i]
      ensures |idx| + 1 < |other| ==> j + 1 <= other[|idx| + 1]
    {
      assert j <= other[|idx|];
    }
  }

  /** Passing over an event of another type loses no choice. */
  lemma EarliestSkip(log: seq<Entry>, steps: seq<string>, start: int, idx: seq<int>, j: int)
    requires 0 < |idx| < |steps| && 0 <= j < |log| && log[j].kind != steps[|idx|]
    requires Earliest(log, steps, start, idx, j)
    ensures Earliest(log, steps, start, idx, j + 1)
  {
    forall other | Spells(log, steps, other) && other != [] && other[0] == start
      ensures |idx| < |other| ==> j + 1 <= other[|idx|]
    {
      assert j <= other[|idx|] && log[other[|idx|]].kind == steps[|idx|];
    }
  }

  /** A start whose greedy walk falls short, or overruns the window, starts no match at all. */
  lemma {:induction false} NoMatchFrom(log: seq<Entry>, steps: seq<string>, window: int, start: int, idx: seq<int>,
                                       other: seq<int>)
    requires SortedByTime(log) && idx != [] && idx[0] == start && |idx| <= |steps|
    requires forall i :: 0 <= i < |idx| ==> 0 <= idx[i] < |log|
    requires Earliest(log, steps, start, idx, |log|)
    requires |idx| == |steps| ==> !Within(log, idx, window)
    requires Match(log, steps, window, other)
    ensures other[0] != start
  {
    assert Spells(log, steps, other);
  }

  lemma GreedyIsBest(log: seq<Entry>, steps: seq<string>, window: int, start: int, idx: seq<int>)
    requires Match(log, steps, window, idx) && idx[0] == start
    requires Earliest(log, steps, start, idx, |log|)
    requires forall other :: Match(log, steps, window, other) ==> start <= other[0]
    ensures Best(log, steps, window, idx)
  {
    forall other | Match(log, steps, window, other) && other[0] == start ensures idx[|idx| - 1] <= other[|other| - 1] {
      assert Spells(log, steps, other);
    }
  }

  /** sequenceWalk: an empty result is Go's nil. */
  method SequenceWalk(log: seq<Entry>, steps: seq<string>, window: int) returns (picked: seq<Entry>)
    requires SortedByTime(log)
    ensures picked == [] <==> !exists idx :: Match(log, steps, window, idx)
    ensures picked != [] ==> exists idx :: Best(log, steps, window, idx) && picked == Picked(log, idx)
  {
    if steps == [] { return []; }
    for start := 0 to |log|
      invariant forall other :: Match(log, steps, window, other) ==> start <= other[0]
    {
      if log[start].kind == steps[0] {
        ghost var idx;
        picked, idx := WalkFrom(log, steps, start);
        if |picked| == |steps| {
          assert steps[..|idx|] == steps;
          var span := picked[|picked| - 1].at - picked[0].at;
          if window <= 0 || span <= window {
            assert Match(log, steps, window, idx);
            GreedyIsBest(log, steps, window, start, idx);
            return;
          }
        }
        forall other | Match(log, steps, window, other) ensures other[0] != start {
          NoMatchFrom(log, steps, window, start, idx, other);
        }
      }
    }
    picked := [];
  }

  /** The inner walk from one start. */
  method WalkFrom(log: seq<Entry>, steps: seq<string>, start: int) returns (picked: seq<Entry>, ghost idx: seq<int>)
    requires steps != [] && 0 <= start < |log| && log[start].kind == steps[0]
    ensures 0 < |picked| <= |steps| && |idx| == |picked| && idx[0] == start
    ensures Spells(log, steps[..|idx|], idx) && picked == Picked(log, idx)
    ensures Earliest(log, steps, start, idx, |log|)
  {
    picked, idx := [log[start]], [start];
    var j := start + 1;
    while j < |log| && |picked| < |steps|
      invariant start < j <= |log|
      invariant 0 < |picked| <= |steps| && |idx| == |picked| && idx[0] == start
      invariant Spells(log, steps[..|idx|], idx) && picked == Picked(log, idx)
      invariant forall i :: 0 <= i < |idx| ==> idx[i] < j
      invariant Earliest(log, steps, start, idx, j)
    {
      if log[j].kind == steps[|picked|] {
        ExtendSpells(log, steps, idx, j);
        EarliestTake(log, steps, start, idx, j);
        picked, idx := picked + [log[j]], idx + [j];
      } else {
        EarliestSkip(log, steps, start, idx, j);
      }
      j := j + 1;
    }
    assert |idx| == |steps| ==> Earliest(log, steps, start, idx, |log|);
  }

  datatype Joined = Joined(item: string, events: seq<Entry>)

  ghost predicate HasMatch(logs: Logs, item: string, steps: seq<string>, window: int) {
    exists idx :: Match(Log(logs, item), steps, window, idx)
  }

  ghost predicate BestOf(logs: Logs, j: Joined, steps: seq<string>, window: int) {
    exists idx :: Best(Log(logs, j.item), steps, window, idx) && j.events == Picked(Log(logs, j.item), idx)
  }

  lemma MatchNeedsBucket(logs: Logs, steps: seq<string>, window: int)
    ensures forall item :: HasMatch(logs, item, steps, window) ==> item in logs
  {
    forall item | HasMatch(logs, item, steps, window) ensures item in logs {
      var idx :| Match(Log(logs, item), steps, window, idx);
      assert 0 <= idx[0] < |Log(logs, item)|;
    }
  }

  ghost function ItemsOf(out: seq<Joined>): seq<string> {
    seq(|out|, i requires 0 <= i < |out| => out[i].item)
  }

  /** The items that have a match, in the order they are asked for, as often as they are. */
  ghost function Matching(logs: Logs, items: seq<string>, steps: seq<string>, window: int): seq<string> {
    if items == [] then []
    else
      var last := items[|items| - 1];
      Matching(logs, items[..|items| - 1], steps, window) + if HasMatch(logs, last, steps, window) then [last] else []
  }

  lemma {:induction false} MatchingMembers(logs: Logs, items: seq<string>, steps: seq<string>, window: int,
                                           item: string)
    ensures item in Matching(logs, items, steps, window) <==> item in items && HasMatch(logs, item, steps, window)
    decreases |items|
  {
    if items != [] {
      MatchingMembers(logs, items[..|items| - 1], steps, window, item);
      SplitLast(items);
    }
  }

  /** The results so far are best, and list the matching items of the first n in order. */
  ghost predicate JoinOk(logs: Logs, out: seq<Joined>, items: seq<string>, n: int, steps: seq<string>, window: int)
    requires 0 <= n <= |items|
  {
    && (forall k :: 0 <= k < |out| ==> BestOf(logs, out[k], steps, window))
    && ItemsOf(out) == Matching(logs, items[..n], steps, window)
  }

  lemma {:induction false} MatchingStep(logs: Logs, items: seq<string>, n: int, steps: seq<string>, window: int)
    requires 0 <= n < |items|
    ensures Matching(logs, items[..n + 1], steps, window)
         == Matching(logs, items[..n], steps, window) +
            if HasMatch(logs, items[n], steps, window) then [items[n]] else []
  {
    assert items[..n + 1][..n] == items[..n];
  }

  lemma ItemsGrow(out: seq<Joined>, j: Joined)
    ensures ItemsOf(out + [j]) == ItemsOf(out) + [j.item]
  {
  }

  lemma {:induction false} JoinStep(logs: Logs, out: seq<Joined>, items: seq<string>, n: int, steps: seq<string>,
                                    window: int, matched: seq<Entry>)
    requires 0 <= n < |items| && JoinOk(logs, out, items, n, steps, window)
    requires matched != [] <==> HasMatch(logs, items[n], steps, window)
    requires matched != [] ==> BestOf(logs, Joined(items[n], matched), steps, window)
    ensures JoinOk(logs, if matched == [] then out else out + [Joined(items[n], matched)], items, n + 1, steps, window)
  {
    MatchingStep(logs, items, n, steps, window);
    if matched != [] { ItemsGrow(out, Joined(items[n], matched)); }
  }

  /** The given items, or every item with a bucket in name order when none is given. */
  ghost predicate Candidates(logs: Logs, itemIDs: seq<string>, items: seq<string>) {
    if itemIDs != [] then items == itemIDs else Sorted(items) && Elems(items) == logs.Keys
  }

  method CandidateItems(logs: Logs, itemIDs: seq<string>) returns (items: seq<string>)
    ensures Candidates(logs, itemIDs, items)
  {
    items := itemIDs;
    if itemIDs == [] {
      items := Cursor(logs.Keys);
    }
  }

  method WalkItem(logs: Logs, item: string, steps: seq<string>, window: int) returns (matched: seq<Entry>)
    requires SortedByTime(Log(logs, item))
    ensures matched != [] <==> HasMatch(logs, item, steps, window)
    ensures matched != [] ==> BestOf(logs, Joined(item, matched), steps, window)
  {
    matched := SequenceWalk(Log(logs, item), steps, window);
  }

  ghost predicate JoinAnswers(logs: Logs, itemIDs: seq<string>, steps: seq<string>, window: int, out: seq<Joined>,
                              items: seq<string>) {
    Candidates(logs, itemIDs, items) && ItemsOf(out) == Matching(logs, items, steps, window)
  }

  /** With or without an item list, an item is reported exactly when it is asked for and has a match. */
  lemma {:induction false} JoinLists(logs: Logs, itemIDs: seq<string>, steps: seq<string>, window: int,
                                     out: seq<Joined>, items: seq<string>, item: string)
    requires JoinAnswers(logs, itemIDs, steps, window, out, items)
    ensures item in ItemsOf(out) <==> (itemIDs == [] || item in itemIDs) && HasMatch(logs, item, steps, window)
  {
    MatchingMembers(logs, items, steps, window, item);
    MatchNeedsBucket(logs, steps, window);
    assert itemIDs == [] ==> (item in Elems(items) <==> item in logs);
  }

  lemma CandidateList(logs: Logs, itemIDs: seq<string>) returns (items: seq<string>)
    ensures Candidates(logs, itemIDs, items)
  {
    items := itemIDs;
    if itemIDs == [] { items := InByteOrder(logs.Keys); }
  }

  lemma {:induction false} NoStepsNoMatch(logs: Logs, items: seq<string>, window: int)
    ensures Matching(logs, items, [], window) == []
    decreases |items|
  {
    if items != [] { NoStepsNoMatch(logs, items[..|items| - 1], window); }
  }

  /** SequenceJoin reports exactly the candidate items with a match, in candidate order, each with its best one. */
  method SequenceJoin(logs: Logs, itemIDs: seq<string>, steps: seq<string>, window: int) returns (out: seq<Joined>)
    requires forall item :: SortedByTime(Log(logs, item))
    ensures forall k :: 0 <= k < |out| ==> BestOf(logs, out[k], steps, window)
    ensures exists items :: JoinAnswers(logs, itemIDs, steps, window, out, items)
  {
    if steps == [] {
      ghost var all := CandidateList(logs, itemIDs);
      NoStepsNoMatch(logs, all, window);
      assert JoinAnswers(logs, itemIDs, steps, window, [], all);
      return [];
    }
    var items := CandidateItems(logs, itemIDs);
    out := [];
    for n := 0 to |items|
      invariant JoinOk(logs, out, items, n, steps, window)
    {
      var matched := WalkItem(logs, items[n], steps, window);
      JoinStep(logs, out, items, n, steps, window, matched);
      if matched != [] {
        out := out + [Joined(items[n], matched)];
      }
    }
    assert items[..|items|] == items;
    assert JoinAnswers(logs, itemIDs, steps, window, out, items);
  }
}
