/** ClusterQuery: greedy non-overlapping runs of a sorted event log (bboltstore/cluster.go). */
module Clusters {
  import opened Temporal

  datatype Cluster = Cluster(first: int, last: int, events: seq<Entry>)

  datatype Run = Run(lo: int, hi: int)

  /** Events lo..hi span at most the window; a window of 0 or less is no bound. */
  ghost predicate Fits(log: seq<Entry>, lo: int, hi: int, window: int)
    requires 0 <= lo <= hi < |log|
  {
    window <= 0 || log[hi].at - log[lo].at <= window
  }

  ghost predicate GoodRun(log: seq<Entry>, r: Run, window: int, minSize: int) {
    && 0 <= r.lo <= r.hi < |log|
    && r.hi - r.lo + 1 >= minSize
    && Fits(log, r.lo, r.hi, window)
    && (r.hi + 1 < |log| ==> !Fits(log, r.lo, r.hi + 1, window))   // right-maximal
  }

  ghost predicate InOrder(runs: seq<Run>) {
    forall a, b :: 0 <= a < b < |runs| ==> runs[a].hi < runs[b].lo
  }

  ghost predicate Covered(runs: seq<Run>, q: int) {
    exists a :: 0 <= a < |runs| && runs[a].lo <= q <= runs[a].hi
  }

  /** Index q starts minSize consecutive events inside the window. */
  ghost predicate StartsDense(log: seq<Entry>, q: int, window: int, minSize: int) {
    0 <= q && minSize >= 1 && q + minSize - 1 < |log| && Fits(log, q, q + minSize - 1, window)
  }

  ghost function ClusterOf(log: seq<Entry>, r: Run): Cluster
    requires 0 <= r.lo <= r.hi < |log|
  {
    Cluster(log[r.lo].at, log[r.hi].at, log[r.lo..r.hi + 1])
  }

  /** The clusters are those of disjoint good runs in order, and no dense start is left out. */
  ghost predicate Clustering(log: seq<Entry>, window: int, minSize: int, out: seq<Cluster>, runs: seq<Run>) {
    && |out| == |runs| && InOrder(runs)
    && (forall a :: 0 <= a < |runs| ==> GoodRun(log, runs[a], window, minSize) && out[a] == ClusterOf(log, runs[a]))
    && (forall q :: StartsDense(log, q, window, minSize) ==> Covered(runs, q))
  }

  /** clusterScan; `runs` is the index range of each emitted cluster. */
  method ClusterScan(log: seq<Entry>, window: int, minSize: int) returns (out: seq<Cluster>)
    requires SortedByTime(log) && minSize >= 1
    ensures exists runs :: Clustering(log, window, minSize, out, runs)
  {
    out := [];
    ghost var runs: seq<Run> := [];
    if log == [] || minSize > |log| {
      assert Clustering(log, window, minSize, out, runs);
      return;
    }
    var i := 0;
    while i < |log|
      invariant 0 <= i <= |log| && Emitted(log, window, minSize, out, runs, i)
    {
      var j := i;
      while j + 1 < |log| && (window <= 0 || log[j + 1].at - log[i].at <= window)
        invariant i <= j < |log| && Fits(log, i, j, window)
      {
        j := j + 1;
      }
      if j - i + 1 >= minSize {
        var members := log[i..j + 1];
        var cluster := Cluster(members[0].at, members[|members| - 1].at, members);
        EmitRun(log, window, minSize, out, runs, Run(i, j), cluster);
        out, runs := out + [cluster], runs + [Run(i, j)];
        i := j + 1;
      } else {
        TooShort(log, i, j, window, minSize);
        i := i + 1;
      }
    }
    assert Clustering(log, window, minSize, out, runs);
  }

  /** The clusters emitted before index i, and no dense start before it left out. */
  ghost predicate Emitted(log: seq<Entry>, window: int, minSize: int, out: seq<Cluster>, runs: seq<Run>, i: int) {
    && |out| == |runs| && InOrder(runs)
    && (forall a :: 0 <= a < |runs| ==> GoodRun(log, runs[a], window, minSize) && out[a] == ClusterOf(log, runs[a]))
    && (forall a :: 0 <= a < |runs| ==> runs[a].hi < i)
    && (forall q :: q < i && StartsDense(log, q, window, minSize) ==> Covered(runs, q))
  }

  lemma {:induction false} EmitRun(log: seq<Entry>, window: int, minSize: int, out: seq<Cluster>, runs: seq<Run>,
                                   r: Run, c: Cluster)
    requires Emitted(log, window, minSize, out, runs, r.lo) && GoodRun(log, r, window, minSize)
    requires c == ClusterOf(log, r)
    ensures Emitted(log, window, minSize, out + [c], runs + [r], r.hi + 1)
  {
    forall q | q < r.hi + 1 && StartsDense(log, q, window, minSize) ensures Covered(runs + [r], q) {
      CoveredGrows(runs, r, q, r.lo);
    }
  }

  lemma CoveredGrows(was: seq<Run>, r: Run, q: int, i: int)
    requires (q < i && Covered(was, q)) || r.lo <= q <= r.hi
    ensures Covered(was + [r], q)
  {
    if r.lo <= q <= r.hi {
      assert (was + [r])[|was|] == r;
    } else {
      var a :| 0 <= a < |was| && was[a].lo <= q <= was[a].hi;
      assert (was + [r])[a] == was[a];
    }
  }

  /** A maximal run that is too short means no dense window starts here. */
  lemma TooShort(log: seq<Entry>, i: int, j: int, window: int, minSize: int)
    requires SortedByTime(log) && 0 <= i <= j < |log| && j - i + 1 < minSize
    requires j + 1 < |log| ==> !Fits(log, i, j + 1, window)
    ensures !StartsDense(log, i, window, minSize)
  {
  }
}
