/**
 Histories: what callers do, single operations and batches, as runs of single operations. Every law of a
 run then holds at every point of every history.
 */
module Histories {
  import opened Documents
  import opened Stats
  import opened Engine
  import opened Runs
  import opened Restricted
  import opened Replay
  import opened GroupTimes

  datatype Call = One(op: Op) | Many(batch: map<string, Doc>)

  ghost predicate BatchCommitted(h: Host, s: State, batch: map<string, Doc>, t: State) {
    exists order :: Visits(order, batch) && BatchTx(h, s, order, t)
  }

  /** A call commits or is rolled back, a batch as a whole. */
  ghost predicate Called(h: Host, s: State, c: Call, t: State) {
    match c
    case One(op) => Step(h, s, op, t)
    case Many(batch) => t == s || BatchCommitted(h, s, batch, t)
  }

  ghost predicate CallAt(h: Host, calls: seq<Call>, trace: seq<State>, i: int)
    requires 0 <= i < |calls| && |trace| == |calls| + 1
  {
    Called(h, trace[i], calls[i], trace[i + 1])
  }

  ghost predicate IsHistory(h: Host, calls: seq<Call>, trace: seq<State>) {
    && |trace| == |calls| + 1 && trace[0] == INIT
    && forall i :: 0 <= i < |calls| ==> CallAt(h, calls, trace, i)
  }

  /** The operation is the call, or the put of one of its documents. */
  ghost predicate Asks(c: Call, op: Op) {
    match c
    case One(o) => op == o
    case Many(batch) => op.Put? && op.d in batch && batch[op.d] == op.doc
  }

  ghost predicate Asked(calls: seq<Call>, op: Op) {
    exists i :: 0 <= i < |calls| && Asks(calls[i], op)
  }

  /**
   The run passes through the first states of the history, in order, at the given positions, asking for nothing else.
   */
  ghost predicate Flat(h: Host, calls: seq<Call>, trace: seq<State>, ops: seq<Op>, run: seq<State>, pos: seq<nat>) {
    && IsRun(h, ops, run) && |pos| <= |trace|
    && (forall i :: 0 <= i < |pos| ==> pos[i] <= |ops| && run[pos[i]] == trace[i])
    && (forall i, j :: 0 <= i <= j < |pos| ==> pos[i] <= pos[j])
    && (forall i :: 0 <= i < |ops| ==> Asked(calls, ops[i]))
  }

  lemma {:induction false} RunAppend(h: Host, ops: seq<Op>, run: seq<State>, op: Op, t: State)
    requires IsRun(h, ops, run) && Step(h, run[|ops|], op, t)
    ensures IsRun(h, ops + [op], run + [t])
  {
    var ops', run' := ops + [op], run + [t];
    forall i | 0 <= i < |ops'| ensures StepAt(h, ops', run', i) {
      if i < |ops| {
        assert StepAt(h, ops, run, i);
        assert run'[i] == run[i] && run'[i + 1] == run[i + 1] && ops'[i] == ops[i];
      }
    }
  }

  /** One more operation, before the next state of the history is reached. */
  lemma {:induction false} FlatAppend(h: Host, calls: seq<Call>, trace: seq<State>, ops: seq<Op>, run: seq<State>,
                                      pos: seq<nat>, op: Op, t: State)
    requires Flat(h, calls, trace, ops, run, pos) && Step(h, run[|ops|], op, t) && Asked(calls, op)
    ensures Flat(h, calls, trace, ops + [op], run + [t], pos)
  {
    RunAppend(h, ops, run, op, t);
    assert forall i :: 0 <= i < |pos| ==> (run + [t])[pos[i]] == run[pos[i]];
  }

  /** The next state of the history is reached. */
  lemma {:induction false} FlatReach(h: Host, calls: seq<Call>, trace: seq<State>, ops: seq<Op>, run: seq<State>,
                                     pos: seq<nat>)
    requires Flat(h, calls, trace, ops, run, pos) && |pos| < |trace| && run[|ops|] == trace[|pos|]
    ensures Flat(h, calls, trace, ops, run, pos + [|ops|])
  {
  }

  lemma {:induction false} FlatBatch(h: Host, calls: seq<Call>, trace: seq<State>, ops: seq<Op>, run: seq<State>,
                                     pos: seq<nat>, c: int, order: seq<(string, Doc)>, t: State)
    returns (ops': seq<Op>, run': seq<State>)
    requires Flat(h, calls, trace, ops, run, pos) && 0 <= c < |calls| && calls[c].Many?
    requires forall i :: 0 <= i < |order| ==> order[i].0 in calls[c].batch && calls[c].batch[order[i].0] == order[i].1
    requires BatchTx(h, run[|ops|], order, t)
    ensures Flat(h, calls, trace, ops', run', pos) && run'[|ops'|] == t
    decreases |order|
  {
    ops', run' := ops, run;
    if order != [] {
      var n := |order| - 1;
      var m := BatchLast(h, run[|ops|], order, t);
      ops', run' := FlatBatch(h, calls, trace, ops, run, pos, c, order[..n], m);
      var op := Put(order[n].0, order[n].1);
      assert Asks(calls[c], op);
      FlatAppend(h, calls, trace, ops', run', pos, op, t);
      ops', run' := ops' + [op], run' + [t];
    }
  }

  lemma {:induction false} FlatCall(h: Host, calls: seq<Call>, trace: seq<State>, ops: seq<Op>, run: seq<State>,
                                    pos: seq<nat>, n: nat) returns (ops': seq<Op>, run': seq<State>)
    requires Flat(h, calls, trace, ops, run, pos) && IsHistory(h, calls, trace) && n < |calls| && run[|ops|] == trace[n]
    ensures Flat(h, calls, trace, ops', run', pos) && run'[|ops'|] == trace[n + 1]
  {
    assert CallAt(h, calls, trace, n);
    ops', run' := ops, run;
    match calls[n]
    case One(op) =>
      assert Asks(calls[n], op);
      FlatAppend(h, calls, trace, ops, run, pos, op, trace[n + 1]);
      ops', run' := ops + [op], run + [trace[n + 1]];
    case Many(batch) =>
      if trace[n + 1] != trace[n] {
        var order :| Visits(order, batch) && BatchTx(h, trace[n], order, trace[n + 1]);
        ops', run' := FlatBatch(h, calls, trace, ops, run, pos, n, order, trace[n + 1]);
      }
  }

  lemma {:induction false} FlatTo(h: Host, calls: seq<Call>, trace: seq<State>, n: nat)
    returns (ops: seq<Op>, run: seq<State>, pos: seq<nat>)
    requires IsHistory(h, calls, trace) && n <= |calls|
    ensures Flat(h, calls, trace, ops, run, pos) && |pos| == n + 1 && run[|ops|] == trace[n]
  {
    if n == 0 {
      ops, run, pos := [], [INIT], [0];
    } else {
      ops, run, pos := FlatTo(h, calls, trace, n - 1);
      ops, run := FlatCall(h, calls, trace, ops, run, pos, n - 1);
      FlatReach(h, calls, trace, ops, run, pos);
      pos := pos + [|ops|];
    }
  }

  /** Every history is a run of single operations that passes through its states in order. */
  lemma HistoryIsRun(h: Host, calls: seq<Call>, trace: seq<State>)
    returns (ops: seq<Op>, run: seq<State>, pos: seq<nat>)
    requires IsHistory(h, calls, trace)
    ensures Flat(h, calls, trace, ops, run, pos) && |pos| == |trace|
  {
    ops, run, pos := FlatTo(h, calls, trace, |calls|);
  }

  // ---------- the laws of runs, for histories ----------

  /** In every state of every history every index is the brute-force reading, and the event log is right. */
  lemma {:induction false} HistoryInv(h: Host, calls: seq<Call>, trace: seq<State>, n: nat)
    requires IsHistory(h, calls, trace) && n <= |calls|
    ensures Inv(h, trace[n]) && LogRight(trace[n].events, trace[n].docs)
  {
    var ops, run, pos := HistoryIsRun(h, calls, trace);
    RunInv(h, ops, run, pos[n]);
    RunLogRight(h, ops, run, pos[n]);
  }

  lemma {:induction false} HistoryIdsStable(h: Host, calls: seq<Call>, trace: seq<State>, i: nat, j: nat, d: string)
    requires IsHistory(h, calls, trace) && i <= j <= |calls| && d in trace[i].ids.fwd
    ensures d in trace[j].ids.fwd && trace[j].ids.fwd[d] == trace[i].ids.fwd[d]
  {
    var ops, run, pos := HistoryIsRun(h, calls, trace);
    RunIdsStable(h, ops, run, pos[i], pos[j], d);
  }

  ghost predicate NoBlankPuts(calls: seq<Call>) {
    forall op :: Asked(calls, op) && op.Put? ==> !op.doc.Blank?
  }

  /** Without zero-length documents: the replay is the document map, and every document's kinds follow. */
  lemma {:induction false} HistoryReplays(h: Host, calls: seq<Call>, trace: seq<State>, n: nat, d: string)
    requires IsHistory(h, calls, trace) && n <= |calls| && NoBlankPuts(calls)
    ensures Replayed(trace[n].events) == trace[n].docs
    ensures Kinds(trace[n].events, d) == Some(d in trace[n].docs)
  {
    var ops, run, pos := HistoryIsRun(h, calls, trace);
    assert forall i :: 0 <= i < |ops| ==> Asked(calls, ops[i]);
    RunReplays(h, ops, run, pos[n]);
    RunKinds(h, ops, run, pos[n], d);
  }

  ghost predicate SingleValuedPuts(calls: seq<Call>) {
    forall op :: Asked(calls, op) && op.Put? ==> SingleValued(op.doc)
  }

  /** With single-valued documents every usable aggregate is the true statistics of the live values. */
  lemma {:induction false} HistoryStatsTrue(h: Host, calls: seq<Call>, trace: seq<State>, n: nat, p: string)
    requires IsHistory(h, calls, trace) && n <= |calls| && SingleValuedPuts(calls)
    ensures AggregatesExact(trace[n])
    ensures var s := trace[n]; !StatAt(s.stats, p).stale ==> Describes(StatAt(s.stats, p), ByDocument(s.docs, p))
  {
    var ops, run, pos := HistoryIsRun(h, calls, trace);
    assert forall i :: 0 <= i < |ops| ==> Asked(calls, ops[i]);
    RunAggregatesExact(h, ops, run, pos[n]);
    RunStatsTrue(h, ops, run, pos[n], p);
  }

  ghost predicate PositivePuts(h: Host, calls: seq<Call>, k: string) {
    forall op :: Asked(calls, op) ==> PositiveAdds(h, op, k)
  }

  lemma {:induction false} HistoryBracketed(h: Host, calls: seq<Call>, trace: seq<State>, n: nat, k: string)
    requires IsHistory(h, calls, trace) && n <= |calls| && PositivePuts(h, calls, k)
    ensures GroupBracketed(h, trace[n], k)
  {
    var ops, run, pos := HistoryIsRun(h, calls, trace);
    assert forall i :: 0 <= i < |ops| ==> Asked(calls, ops[i]);
    RunBracketed(h, ops, run, pos[n], k);
  }

  /** First and last are the extremes of the times written along the flattened history since the key was last absent. */
  lemma {:induction false} HistoryTight(h: Host, calls: seq<Call>, trace: seq<State>, ops: seq<Op>, run: seq<State>,
                                        pos: seq<nat>, n: nat, k: string)
    requires Flat(h, calls, trace, ops, run, pos) && n < |pos| && PositivePuts(h, calls, k)
    ensures Tight(trace[n], k, Written(h, ops, run, pos[n], k))
  {
    assert forall i :: 0 <= i < |ops| ==> Asked(calls, ops[i]);
    RunTight(h, ops, run, pos[n], k);
  }

  /** The chains are exact when each single write of the flattened history keeps them so. */
  lemma {:induction false} HistoryChainsExact(h: Host, calls: seq<Call>, trace: seq<State>, ops: seq<Op>,
                                              run: seq<State>, pos: seq<nat>, n: nat)
    requires Flat(h, calls, trace, ops, run, pos) && n < |pos|
    requires forall i :: 0 <= i < |ops| ==> ParentsKept(run[i], ops[i], run[i + 1])
    ensures ChainsExact(trace[n])
  {
    RunChainsExact(h, ops, run, pos[n]);
  }

  lemma {:induction false} HistoryCellsExact(h: Host, calls: seq<Call>, trace: seq<State>, ops: seq<Op>,
                                             run: seq<State>, pos: seq<nat>, n: nat)
    requires Flat(h, calls, trace, ops, run, pos) && n < |pos|
    requires forall i :: 0 <= i < |ops| ==> EventsKept(h, run[i], ops[i], run[i + 1])
    ensures CellsTrue(h, trace[n])
  {
    RunCellsExact(h, ops, run, pos[n]);
  }
}
