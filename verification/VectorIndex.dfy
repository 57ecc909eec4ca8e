/** The in-memory vector layer: graph plus tombstones per (entity, scope) (vectorindex/index.go). */
module VectorIndexes {
  import opened Order
  import opened Float64
  import opened Documents

  /** float32 components as bit patterns. */
  type Vec = seq<Id>

  datatype Metric = Cosine | Euclidean

  datatype Key = Key(entity: string, scope: string)

  /** The HNSW graph is the map of its nodes. */
  datatype Scope = Scope(graph: map<string, Vec>, dim: nat, metric: Metric, tombs: set<string>)

  type Scopes = map<Key, Scope>

  function LiveIn(st: Scope): map<string, Vec> {
    map id | id in st.graph && id !in st.tombs :: st.graph[id]
  }

  function Live(mem: Scopes, key: Key): map<string, Vec> {
    if key in mem then LiveIn(mem[key]) else map[]
  }

  ghost predicate ScopeOk(st: Scope) {
    st.tombs <= st.graph.Keys && forall id :: id in st.graph ==> |st.graph[id]| == st.dim
  }

  predicate Named(key: Key, id: string) { key.entity != "" && key.scope != "" && id != "" }

  /** Insert on one scope; on a dimension mismatch the id has already been un-buried. */
  function Inserted(mem: Scopes, key: Key, id: string, vec: Vec, metric: Metric): Scopes {
    var st := if key in mem then mem[key] else Scope(map[], |vec|, metric, {});
    var dug := st.(tombs := st.tombs - {id});
    if |vec| != st.dim then mem[key := dug] else mem[key := dug.(graph := dug.graph[id := vec])]
  }

  function Buried(mem: Scopes, key: Key, id: string): Scopes {
    if key in mem && id in mem[key].graph then mem[key := mem[key].(tombs := mem[key].tombs + {id})] else mem
  }

  datatype InsertResult = Done | BadName | EmptyVector | DimensionMismatch | NotLoaded

  class Index {
    var scopes: Scopes

    constructor ()
      ensures scopes == map[]
    {
      scopes := map[];
    }

    method Insert(key: Key, id: string, vec: Vec, metric: Metric) returns (r: InsertResult)
      modifies this
      ensures !Named(key, id) ==> r == BadName && scopes == old(scopes)
      ensures Named(key, id) && vec == [] ==> r == EmptyVector && scopes == old(scopes)
      ensures Named(key, id) && vec != [] ==>
                && scopes == Inserted(old(scopes), key, id, vec, metric)
                && r == if key in old(scopes) && |vec| != old(scopes)[key].dim then DimensionMismatch else Done
    {
      if !Named(key, id) { return BadName; }
      if vec == [] { return EmptyVector; }
      var known := key in scopes;
      var st := if known then scopes[key] else Scope(map[], |vec|, metric, {});
      st := st.(tombs := st.tombs - {id});
      scopes := scopes[key := st];
      if known && |vec| != st.dim { return DimensionMismatch; }
      if id in st.graph {
        st := st.(graph := st.graph - {id});   // delete or rebuild, then add
      }
      st := st.(graph := st.graph[id := vec]);
      scopes := scopes[key := st];
      assert st.graph == Inserted(old(scopes), key, id, vec, metric)[key].graph;
      r := Done;
    }

    method Delete(key: Key, id: string) returns (existed: bool)
      modifies this
      ensures scopes == if Named(key, id) then Buried(old(scopes), key, id) else old(scopes)
      ensures existed <==> Named(key, id) && id in Live(old(scopes), key)
    {
      if !Named(key, id) || key !in scopes || id !in scopes[key].graph || id in scopes[key].tombs {
        assert Named(key, id) && key in scopes && id in scopes[key].graph ==>
                 scopes[key].tombs + {id} == scopes[key].tombs;
        return false;
      }
      var st := scopes[key];
      scopes := scopes[key := st.(tombs := st.tombs + {id})];
      existed := true;
    }

    method DropScope(key: Key) returns (existed: bool)
      modifies this
      ensures scopes == if key.entity == "" || key.scope == "" then old(scopes) else old(scopes) - {key}
      ensures existed <==> key.entity != "" && key.scope != "" && key in old(scopes)
    {
      if key.entity == "" || key.scope == "" || key !in scopes { return false; }
      scopes := scopes - {key};
      existed := true;
    }

    /** The live count. */
    method Len(key: Key) returns (n: int)
      requires key in scopes ==> ScopeOk(scopes[key])
      ensures n == |Live(scopes, key)|
    {
      if key !in scopes { return 0; }
      LiveCount(scopes[key]);
      n := |scopes[key].graph| - |scopes[key].tombs|;
    }

    /**
     Search: the graph answers `near(m)` for any fetch size m. Over-fetching by the number of tombstones
     makes the filtered answer exact. None is the unknown-scope or dimension error.
     */
    method Search(key: Key, query: Vec, k: int, near: nat -> seq<string>, dist: string -> real)
      returns (r: Option<seq<(string, real)>>)
      requires key in scopes ==>
                 ScopeOk(scopes[key]) && forall m: nat :: Nearest(near(m), scopes[key].graph.Keys, m, dist)
      ensures r.None? <==> query == [] || (k > 0 && (key !in scopes || |query| != scopes[key].dim))
      ensures r.Some? && k <= 0 ==> r.value == []
      ensures r.Some? && k > 0 ==>
                && Nearest(Ids(r.value), Live(scopes, key).Keys, k, dist)
                && forall i :: 0 <= i < |r.value| ==> r.value[i].1 == dist(r.value[i].0)
    {
      if query == [] { return None; }
      if k <= 0 { return Some([]); }
      if key !in scopes || |query| != scopes[key].dim { return None; }
      var st := scopes[key];
      var hits := near(k + |st.tombs|);
      var out := FirstLive(hits, st.tombs, k, dist);
      assert Nearest(hits, st.graph.Keys, k + |st.tombs|, dist);
      FilteredNearest(hits, st.graph.Keys, st.tombs, k, dist, Ids(out));
      assert LiveIn(st).Keys == st.graph.Keys - st.tombs;
      r := Some(out);
    }

    /** The post-filter loop: skip tombstones, stop at k. */
    static method FirstLive(hits: seq<string>, tombs: set<string>, k: int, dist: string -> real)
      returns (out: seq<(string, real)>)
      requires k > 0
      ensures Ids(out) <= Kept(hits, tombs) && |out| <= k && (|out| == k || Ids(out) == Kept(hits, tombs))
      ensures forall i :: 0 <= i < |out| ==> out[i].1 == dist(out[i].0)
    {
      out := [];
      for n := 0 to |hits|
        invariant Ids(out) == Kept(hits[..n], tombs) && |out| < k
        invariant forall i :: 0 <= i < |out| ==> out[i].1 == dist(out[i].0)
      {
        assert hits[..n + 1][..n] == hits[..n];
        if hits[n] !in tombs {
          assert Ids(out + [(hits[n], dist(hits[n]))]) == Ids(out) + [hits[n]];
          out := out + [(hits[n], dist(hits[n]))];
          if |out| == k {
            KeptPrefix(hits, tombs, n + 1);
            return;
          }
        }
      }
      assert hits[..|hits|] == hits;
    }
  }

  lemma LiveCount(st: Scope)
    requires st.tombs <= st.graph.Keys
    ensures |LiveIn(st)| == |st.graph| - |st.tombs|
  {
    assert LiveIn(st).Keys == st.graph.Keys - st.tombs;
    assert |LiveIn(st)| == |LiveIn(st).Keys| && |st.graph| == |st.graph.Keys|;
  }

  function Ids(rs: seq<(string, real)>): seq<string> {
    seq(|rs|, i requires 0 <= i < |rs| => rs[i].0)
  }

  /** out is min(m, size) distinct nodes of keys, nearest first, none left out being nearer. */
  ghost predicate Nearest(out: seq<string>, keys: set<string>, m: int, dist: string -> real) {
    && Distinct(out) && Elems(out) <= keys
    && |out| == (if m < |keys| then m else |keys|)
    && ByDistance(out, dist)
    && forall x, i :: x in keys && x !in Elems(out) && 0 <= i < |out| ==> dist(out[i]) <= dist(x)
  }

  /** The hits that are not tombstoned, in order. */
  function Kept(hits: seq<string>, tombs: set<string>): seq<string> {
    if hits == [] then []
    else Kept(hits[..|hits| - 1], tombs) + if hits[|hits| - 1] in tombs then [] else [hits[|hits| - 1]]
  }

  ghost predicate ByDistance(s: seq<string>, dist: string -> real) {
    forall i, j :: 0 <= i < j < |s| ==> dist(s[i]) <= dist(s[j])
  }

  lemma {:induction false} KeptElems(hits: seq<string>, tombs: set<string>)
    ensures Elems(Kept(hits, tombs)) == Elems(hits) - tombs
    decreases |hits|
  {
    if hits != [] {
      var init, last := hits[..|hits| - 1], hits[|hits| - 1];
      KeptElems(init, tombs);
      SplitLast(hits);
      ElemsConcat(init, [last]);
      ElemsConcat(Kept(init, tombs), if last in tombs then [] else [last]);
      assert Elems([last]) == {last};
    }
  }

  lemma {:induction false} KeptOrder(hits: seq<string>, tombs: set<string>, dist: string -> real)
    requires Distinct(hits) && ByDistance(hits, dist)
    ensures Distinct(Kept(hits, tombs)) && ByDistance(Kept(hits, tombs), dist)
    decreases |hits|
  {
    if hits != [] {
      var init, last := hits[..|hits| - 1], hits[|hits| - 1];
      var kept := Kept(init, tombs);
      KeptOrder(init, tombs, dist);
      KeptElems(init, tombs);
      forall i | 0 <= i < |kept| ensures kept[i] != last && dist(kept[i]) <= dist(last) {
        assert kept[i] in Elems(kept);
        var j :| 0 <= j < |init| && init[j] == kept[i];
        assert hits[j] == kept[i];
      }
    }
  }

  lemma {:induction false} KeptPrefix(hits: seq<string>, tombs: set<string>, n: int)
    requires 0 <= n <= |hits|
    ensures Kept(hits[..n], tombs) <= Kept(hits, tombs)
    decreases |hits|
  {
    if n == |hits| {
      assert hits[..n] == hits;
    } else {
      KeptPrefix(hits[..|hits| - 1], tombs, n);
      assert hits[..|hits| - 1][..n] == hits[..n];
    }
  }

  /** Enough was fetched: the live hits number at least min(k, live). */
  lemma {:induction false} EnoughLive(hits: seq<string>, keys: set<string>, tombs: set<string>, k: int)
    requires Distinct(hits) && Elems(hits) <= keys && tombs <= keys && k > 0
    requires |hits| == (if k + |tombs| < |keys| then k + |tombs| else |keys|)
    ensures |Elems(hits) - tombs| >= (if k < |keys - tombs| then k else |keys - tombs|)
    ensures |Elems(hits) - tombs| < k ==> Elems(hits) == keys
  {
    DistinctSize(hits);
    SubsetSize(tombs, keys);
    SubsetSize(Elems(hits), keys);
    SubsetSize(Elems(hits) * tombs, tombs);
    SubsetSize(Elems(hits) * tombs, Elems(hits));
    assert Elems(hits) - tombs == Elems(hits) - Elems(hits) * tombs;
  }

  /** The first k live hits are the k nearest live nodes. */
  lemma {:induction false} FilteredNearest(hits: seq<string>, keys: set<string>, tombs: set<string>, k: int,
                                           dist: string -> real, out: seq<string>)
    requires Nearest(hits, keys, k + |tombs|, dist) && tombs <= keys && k > 0
    requires out <= Kept(hits, tombs) && |out| <= k && (|out| == k || out == Kept(hits, tombs))
    ensures Nearest(out, keys - tombs, k, dist)
  {
    var kept := Kept(hits, tombs);
    KeptElems(hits, tombs);
    KeptOrder(hits, tombs, dist);
    DistinctSize(kept);
    EnoughLive(hits, keys, tombs, k);
    SubsetSize(Elems(hits) - tombs, keys - tombs);
    assert out == kept[..|out|];
    forall x | x in Elems(out) ensures x in Elems(kept) {
    }
    forall x, i | x in keys - tombs && x !in Elems(out) && 0 <= i < |out| ensures dist(out[i]) <= dist(x) {
      NoNearer(hits, keys, tombs, dist, |out|, x, i);
    }
  }

  lemma {:induction false} NoNearer(hits: seq<string>, keys: set<string>, tombs: set<string>,
                                    dist: string -> real, n: int, x: string, i: int)
    requires 0 <= i < n <= |Kept(hits, tombs)| && Distinct(hits) && ByDistance(hits, dist)
    requires forall y, j :: y in keys && y !in Elems(hits) && 0 <= j < |hits| ==> dist(hits[j]) <= dist(y)
    requires x in keys - tombs && x !in Elems(Kept(hits, tombs)[..n])
    ensures dist(Kept(hits, tombs)[i]) <= dist(x)
  {
    var kept := Kept(hits, tombs);
    KeptElems(hits, tombs);
    KeptOrder(hits, tombs, dist);
    assert kept[i] in Elems(kept);
    assert forall j :: 0 <= j < n ==> kept[j] in Elems(kept[..n]) by {
      assert forall j :: 0 <= j < n ==> kept[..n][j] == kept[j];
    }
    if x in Elems(kept) {
      var j :| 0 <= j < |kept| && kept[j] == x;
      assert j >= n;
    } else {
      var j :| 0 <= j < |hits| && hits[j] == kept[i];
    }
  }
}
