/** Ancestor and descendant tables for documents with a "parent" field (bboltstore/closure.go and its hook). */
module Closures {
  import opened Order
  import opened Float64
  import opened Documents
  import opened Postings

  const MAX_DEPTH: nat := 256

  type Chains = map<string, seq<string>>

  datatype Table = Table(asc: Chains, desc: map<string, set<Id>>)

  function ChainAt(asc: Chains, d: string): seq<string> {
    if d in asc then asc[d] else []
  }

  /** closureBuildAncestors: the depth cap is checked only when the parent has a chain of its own. */
  function Ancestors(asc: Chains, parent: string): Option<seq<string>> {
    var chain := [parent] + ChainAt(asc, parent);
    if parent in asc && |chain| > MAX_DEPTH then None else Some(chain)
  }

  /** closureAdd; None is the depth or cycle error. */
  ghost function Added(t: Table, d: string, parent: string, id: Id): Option<Table> {
    var chain := Ancestors(t.asc, parent);
    if chain.None? || d in chain.value then None
    else Some(Table(t.asc[d := chain.value], SetAll(t.desc, Elems(chain.value), id)))
  }

  /** closureRemove. */
  ghost function Removed(t: Table, d: string, id: Id): Table {
    if d !in t.asc then t
    else Table(t.asc - {d}, ClearAll(t.desc, Elems(t.asc[d]), id))
  }

  /** updateClosureIndex: remove under the old parent, add under the new one. */
  ghost function Update(t: Table, d: string, id: Id, was: Option<string>, now: Option<string>): Option<Table> {
    var mid := if was.Some? then Removed(t, d, id) else t;
    if now.Some? then Added(mid, d, now.value, id) else Some(mid)
  }

  class ClosureTable {
    var asc: Chains
    var desc: map<string, set<Id>>

    ghost function Contents(): Table
      reads this
    {
      Table(asc, desc)
    }

    constructor ()
      ensures Contents() == Table(map[], map[])
    {
      asc, desc := map[], map[];
    }

    method BuildAncestors(parent: string) returns (chain: Option<seq<string>>)
      ensures chain == Ancestors(asc, parent)
    {
      var out := [parent];
      assert [parent] + [] == [parent];
      if parent !in asc { return Some(out); }
      out := out + asc[parent];
      if |out| > MAX_DEPTH { return None; }
      chain := Some(out);
    }

    /** On an error the table may be half written; the surrounding transaction is rolled back. */
    method Add(d: string, parent: string, id: Id) returns (ok: bool)
      modifies this
      ensures ok <==> Added(old(Contents()), d, parent, id).Some?
      ensures ok ==> Contents() == Added(old(Contents()), d, parent, id).value
    {
      var built := BuildAncestors(parent);
      if built.None? { return false; }
      var chain := built.value;
      for n := 0 to |chain|
        invariant d !in chain[..n]
      {
        if chain[n] == d { return false; }
      }
      asc := asc[d := chain];
      assert chain[..|chain|] == chain;
      for n := 0 to |chain|
        invariant asc == old(asc)[d := chain]
        invariant desc == SetAll(old(desc), Elems(chain[..n]), id)
      {
        ElemsAppend(chain, n);
        SetStep(old(desc), Elems(chain[..n]), chain[n], id);
        desc := desc[chain[n] := At(desc, chain[n]) + {id}];
      }
      ok := true;
    }

    method Remove(d: string, id: Id)
      modifies this
      ensures Contents() == Removed(old(Contents()), d, id)
    {
      if d !in asc { return; }
      var chain := asc[d];
      asc := asc - {d};
      for n := 0 to |chain|
        invariant asc == old(asc) - {d}
        invariant desc == ClearAll(old(desc), Elems(chain[..n]), id)
      {
        ElemsAppend(chain, n);
        ClearStep(old(desc), Elems(chain[..n]), chain[n], id);
        var bm := At(desc, chain[n]) - {id};
        if bm == {} {
          desc := desc - {chain[n]};
        } else {
          desc := desc[chain[n] := bm];
        }
      }
      assert chain[..|chain|] == chain;
    }

    method Apply(d: string, id: Id, was: Option<string>, now: Option<string>) returns (ok: bool)
      modifies this
      ensures ok <==> Update(old(Contents()), d, id, was, now).Some?
      ensures ok ==> Contents() == Update(old(Contents()), d, id, was, now).value
    {
      if was.Some? { Remove(d, id); }
      ok := true;
      if now.Some? { ok := Add(d, now.value, id); }
    }
  }

  // ---------- what holds on every run ----------

  type Parents = map<string, string>

  ghost function ParentAt(parents: Parents, d: string): Option<string> {
    if d in parents then Some(parents[d]) else None
  }

  ghost function WithParent(parents: Parents, d: string, now: Option<string>): Parents {
    if now.Some? then parents[d := now.value] else parents - {d}
  }

  /** The documents each stored chain names. */
  ghost function ChainView(asc: Chains): map<string, set<string>> {
    map d | d in asc :: Elems(asc[d])
  }

  /**
   A chain is stored for exactly the documents with a parent, starts with that parent, has no repeats,
   omits its own document and is 1 to 256 long; desc[a] is the ids of the documents whose chain has a.
   */
  ghost predicate TableOk(t: Table, parents: Parents, ids: map<string, Id>) {
    ChainsOk(t.asc, parents) && Agrees(t.desc, ChainView(t.asc), ids)
  }

  ghost predicate ChainsOk(asc: Chains, parents: Parents) {
    && asc.Keys == parents.Keys
    && forall d :: d in asc ==> ChainOk(asc[d], d) && asc[d][0] == parents[d]
  }

  ghost predicate ChainOk(c: seq<string>, d: string) {
    1 <= |c| <= 256 && Distinct(c) && d !in c
  }

  lemma RemovedOk(t: Table, parents: Parents, ids: map<string, Id>, d: string)
    requires TableOk(t, parents, ids) && Injective(ids) && d in parents
    ensures TableOk(Removed(t, d, ids[d]), parents - {d}, ids)
  {
    ClearDoc(t.desc, ChainView(t.asc), ids, d);
    assert ChainView(t.asc) - {d} == ChainView(t.asc - {d});
  }

  lemma AddedOk(t: Table, parents: Parents, ids: map<string, Id>, d: string, parent: string)
    requires TableOk(t, parents, ids) && Injective(ids) && d in ids && d !in parents
    requires Added(t, d, parent, ids[d]).Some?
    ensures TableOk(Added(t, d, parent, ids[d]).value, parents[d := parent], ids)
  {
    var chain := [parent] + ChainAt(t.asc, parent);
    assert ChainOk(chain, d);
    SetDoc(t.desc, ChainView(t.asc), ids, d, Elems(chain));
    assert ChainView(t.asc)[d := Elems(chain)] == ChainView(t.asc[d := chain]);
  }

  /** With no restriction on the run: every accepted update keeps both tables right. */
  lemma {:induction false} UpdateKeepsTable(t: Table, parents: Parents, ids: map<string, Id>, d: string,
                                            now: Option<string>)
    requires TableOk(t, parents, ids) && Injective(ids) && d in ids
    requires Update(t, d, ids[d], ParentAt(parents, d), now).Some?
    ensures TableOk(Update(t, d, ids[d], ParentAt(parents, d), now).value, WithParent(parents, d, now), ids)
  {
    var mid := if d in parents then Removed(t, d, ids[d]) else t;
    assert TableOk(mid, parents - {d}, ids) by {
      if d in parents { RemovedOk(t, parents, ids, d); } else { assert parents - {d} == parents; }
    }
    if now.Some? {
      AddedOk(mid, parents - {d}, ids, d, now.value);
      assert (parents - {d})[d := now.value] == parents[d := now.value];
    }
  }

  // ---------- chains as walks along the current parent fields ----------

  /** c is the complete walk from d along the parent fields, ending at a document without a parent. */
  ghost predicate IsWalk(parents: Parents, d: string, c: seq<string>)
    decreases |c|
  {
    if d in parents then c != [] && c[0] == parents[d] && IsWalk(parents, parents[d], c[1..])
    else c == []
  }

  /** Every stored chain extends its parent's stored chain. */
  ghost predicate WalksExact(asc: Chains, parents: Parents) {
    forall d :: d in asc && d in parents ==> asc[d] == [parents[d]] + ChainAt(asc, parents[d])
  }

  lemma {:induction false} WalkUnique(parents: Parents, d: string, a: seq<string>, b: seq<string>)
    requires IsWalk(parents, d, a) && IsWalk(parents, d, b)
    ensures a == b
    decreases |a|
  {
    if d in parents {
      WalkUnique(parents, parents[d], a[1..], b[1..]);
      assert a == [a[0]] + a[1..] && b == [b[0]] + b[1..];
    }
  }

  /** Exact chains are the walks: Ancestors(d) is the walk from d. */
  lemma {:induction false} ChainIsWalk(asc: Chains, parents: Parents, d: string)
    requires asc.Keys == parents.Keys && WalksExact(asc, parents)
    ensures IsWalk(parents, d, ChainAt(asc, d))
    decreases |ChainAt(asc, d)|
  {
    if d in asc {
      assert asc[d][1..] == ChainAt(asc, parents[d]);
      ChainIsWalk(asc, parents, parents[d]);
    }
  }

  /** Ancestors(d) is the complete walk from d, for every d. */
  ghost predicate ChainsAreWalks(asc: Chains, parents: Parents) {
    forall d :: IsWalk(parents, d, ChainAt(asc, d))
  }

  /** The chains are the walks if and only if each extends its parent's chain. */
  lemma {:induction false} WalksIff(asc: Chains, parents: Parents)
    requires asc.Keys == parents.Keys
    ensures ChainsAreWalks(asc, parents) <==> WalksExact(asc, parents)
  {
    if WalksExact(asc, parents) {
      forall d ensures IsWalk(parents, d, ChainAt(asc, d)) { ChainIsWalk(asc, parents, d); }
    } else {
      var d :| d in asc && d in parents && asc[d] != [parents[d]] + ChainAt(asc, parents[d]);
      if ChainsAreWalks(asc, parents) { WalkLinks(asc, parents, d); }
    }
  }

  lemma {:induction false} WalkLinks(asc: Chains, parents: Parents, d: string)
    requires asc.Keys == parents.Keys && ChainsAreWalks(asc, parents) && d in asc
    ensures asc[d] == [parents[d]] + ChainAt(asc, parents[d])
  {
    assert IsWalk(parents, d, ChainAt(asc, d)) && IsWalk(parents, parents[d], ChainAt(asc, parents[d]));
    WalkUnique(parents, parents[d], asc[d][1..], ChainAt(asc, parents[d]));
    assert asc[d] == [asc[d][0]] + asc[d][1..];
  }

  /** A finite path along parent fields. */
  ghost predicate IsPath(parents: Parents, d: string, p: seq<string>)
    decreases |p|
  {
    p == [] || (d in parents && p[0] == parents[d] && IsPath(parents, p[0], p[1..]))
  }

  lemma {:induction false} PathIsPrefix(parents: Parents, d: string, p: seq<string>, c: seq<string>)
    requires IsPath(parents, d, p) && IsWalk(parents, d, c)
    ensures p <= c
    decreases |p|
  {
    if p != [] {
      PathIsPrefix(parents, p[0], p[1..], c[1..]);
      assert p == [p[0]] + p[1..] && c == [c[0]] + c[1..];
    }
  }

  /** No document reaches itself: the parent relation is acyclic. */
  lemma {:induction false} Acyclic(t: Table, parents: Parents, ids: map<string, Id>, d: string, p: seq<string>)
    requires TableOk(t, parents, ids) && WalksExact(t.asc, parents)
    requires p != [] && IsPath(parents, d, p)
    ensures p[|p| - 1] != d
  {
    ChainIsWalk(t.asc, parents, d);
    PathIsPrefix(parents, d, p, ChainAt(t.asc, d));
    assert p[|p| - 1] in t.asc[d];
  }

  /** Descendants(r) is exactly the documents whose walk reaches r. */
  lemma {:induction false} DescendantsReach(t: Table, parents: Parents, ids: map<string, Id>, r: string)
    requires TableOk(t, parents, ids) && WalksExact(t.asc, parents)
    ensures forall d, c :: d in ids && Injective(ids) && IsWalk(parents, d, c) ==> (ids[d] in At(t.desc, r) <==> r in c)
  {
    forall d, c | d in ids && Injective(ids) && IsWalk(parents, d, c) ensures ids[d] in At(t.desc, r) <==> r in c {
      ChainIsWalk(t.asc, parents, d);
      WalkUnique(parents, d, c, ChainAt(t.asc, d));
      assert At(t.desc, r) == Holders(ChainView(t.asc), ids, r);
    }
  }

  lemma TailOfCons(head: string, rest: seq<string>, k: int)
    requires 0 <= k <= |rest|
    ensures ([head] + rest)[k + 1..] == rest[k..] && ([head] + rest)[k] == if k == 0 then head else rest[k - 1]
  {
  }

  /** From any point of an exact chain on, it is that point's own chain. */
  lemma {:induction false} TailIsChain(asc: Chains, parents: Parents, d: string, k: int)
    requires asc.Keys == parents.Keys && WalksExact(asc, parents)
    requires d in asc && 0 <= k < |asc[d]|
    ensures asc[d][k + 1..] == ChainAt(asc, asc[d][k])
    decreases k
  {
    var rest := ChainAt(asc, parents[d]);
    TailOfCons(parents[d], rest, k);
    if k > 0 {
      TailIsChain(asc, parents, parents[d], k - 1);
    }
  }

  /** A walk that does not meet d does not depend on d's parent. */
  lemma {:induction false} WalkAvoids(parents: Parents, parents': Parents, d: string, e: string, c: seq<string>)
    requires IsWalk(parents, e, c) && e != d && d !in c
    requires parents - {d} == parents' - {d}
    ensures IsWalk(parents', e, c)
    decreases |c|
  {
    assert e in parents' <==> e in parents' - {d};
    assert e in parents <==> e in parents - {d};
    if e in parents {
      assert (parents - {d})[e] == (parents' - {d})[e];
      assert c == [c[0]] + c[1..];
      WalkAvoids(parents, parents', d, parents[e], c[1..]);
    }
  }

  /** Once the walk from e meets d, a complete walk under the other parent map ends with one from d. */
  lemma {:induction false} WalkReturns(parents: Parents, parents': Parents, d: string, e: string, c: seq<string>,
                                       c': seq<string>)
    returns (s: seq<string>)
    requires IsWalk(parents, e, c) && IsWalk(parents', e, c') && e != d && d in c
    requires parents - {d} == parents' - {d}
    ensures |s| < |c'| && IsWalk(parents', d, s)
    decreases |c|
  {
    assert e in parents && e in parents - {d} && e in parents' && (parents - {d})[e] == (parents' - {d})[e];
    assert c == [c[0]] + c[1..];
    if c[0] == d {
      s := c'[1..];
    } else {
      s := WalkReturns(parents, parents', d, c[0], c[1..], c'[1..]);
    }
  }

  ghost predicate HasShortWalk(parents: Parents, d: string) {
    exists c :: IsWalk(parents, d, c) && |c| <= 256
  }

  lemma {:induction false} NoWalkToSelf(parents: Parents, d: string)
    requires d in parents && parents[d] == d
    ensures forall c :: !IsWalk(parents, d, c)
  {
    forall c ensures !IsWalk(parents, d, c) {
      if IsWalk(parents, d, c) {
        WalkUnique(parents, d, c, c[1..]);
      }
    }
  }

  /** If the parent's walk meets d, giving d that parent leaves d without a finite walk. */
  lemma {:induction false} NoWalkRound(parents: Parents, parents': Parents, d: string, rest: seq<string>)
    requires d in parents' && parents'[d] != d && parents - {d} == parents' - {d}
    requires IsWalk(parents, parents'[d], rest) && d in rest
    ensures forall c :: !IsWalk(parents', d, c)
  {
    forall c ensures !IsWalk(parents', d, c) {
      if IsWalk(parents', d, c) {
        var s := WalkReturns(parents, parents', d, parents'[d], rest, c[1..]);
        WalkUnique(parents', d, c, s);
      }
    }
  }

  /** If it does not, d's walk is the parent followed by the parent's walk. */
  lemma {:induction false} OnlyWalk(parents: Parents, parents': Parents, d: string, rest: seq<string>)
    requires d in parents' && parents'[d] != d && parents - {d} == parents' - {d}
    requires IsWalk(parents, parents'[d], rest) && d !in rest
    ensures forall c :: IsWalk(parents', d, c) <==> c == [parents'[d]] + rest
  {
    var walk := [parents'[d]] + rest;
    WalkAvoids(parents, parents', d, parents'[d], rest);
    assert walk[1..] == rest;
    assert IsWalk(parents', d, walk);
    forall c | IsWalk(parents', d, c) ensures c == walk {
      WalkUnique(parents', d, c, walk);
    }
  }

  /** What closureAdd decides, in terms of the stored chain of the new parent. */
  lemma AcceptedWhen(t: Table, d: string, id: Id, was: Option<string>, p: string)
    requires was.Some? <==> d in t.asc
    requires forall e :: e in t.asc ==> |t.asc[e]| >= 1
    ensures Update(t, d, id, was, Some(p)).Some? <==>
              d != p && d !in ChainAt(t.asc, p) && |ChainAt(t.asc, p)| < MAX_DEPTH
  {
    var asc1 := t.asc - {d};
    assert d != p ==> ChainAt(asc1, p) == ChainAt(t.asc, p);
    assert ([p] + ChainAt(asc1, p))[0] == p;
  }

  /**
   While the chains are exact, a write is refused by the closure index exactly when, with the new
   parent in place, the walk from the document would never end or would be longer than 256.
   */
  lemma {:induction false} RefusedExactly(t: Table, parents: Parents, d: string, id: Id, now: Option<string>)
    requires ChainsOk(t.asc, parents) && WalksExact(t.asc, parents)
    ensures Update(t, d, id, ParentAt(parents, d), now).Some? <==> HasShortWalk(WithParent(parents, d, now), d)
  {
    var parents' := WithParent(parents, d, now);
    assert parents - {d} == parents' - {d};
    if now.None? {
      assert IsWalk(parents', d, []);
    } else {
      var p := now.value;
      var rest := ChainAt(t.asc, p);
      AcceptedWhen(t, d, id, ParentAt(parents, d), p);
      ChainIsWalk(t.asc, parents, p);
      if p == d {
        NoWalkToSelf(parents', d);
      } else if d in rest {
        NoWalkRound(parents, parents', d, rest);
      } else {
        OnlyWalk(parents, parents', d, rest);
        assert |[p] + rest| == |rest| + 1;
      }
    }
  }

  ghost predicate OnSomeChain(asc: Chains, d: string) {
    exists e :: e in asc && d in asc[e]
  }

  lemma SameParentSameChains(asc: Chains, parents: Parents, d: string, chain: seq<string>)
    requires ChainsOk(asc, parents) && WalksExact(asc, parents) && d in parents
    requires chain == [parents[d]] + ChainAt(asc - {d}, parents[d])
    ensures (asc - {d})[d := chain] == asc
  {
    assert asc[d][0] == parents[d] && parents[d] != d;
    assert ChainAt(asc - {d}, parents[d]) == ChainAt(asc, parents[d]);
  }

  /** Nobody's chain runs through d, so d's parent can move. */
  lemma OffChainsKeeps(asc: Chains, parents: Parents, asc': Chains, d: string, now: Option<string>)
    requires ChainsOk(asc, parents) && WalksExact(asc, parents) && !OnSomeChain(asc, d)
    requires now.None? ==> asc' == asc - {d}
    requires now.Some? ==> now.value != d && asc' == (asc - {d})[d := [now.value] + ChainAt(asc - {d}, now.value)]
    ensures WalksExact(asc', WithParent(parents, d, now))
  {
    forall e | e in asc && e != d ensures ChainAt(asc', parents[e]) == ChainAt(asc, parents[e]) {
      assert asc[e][0] == parents[e] && parents[e] in asc[e];
    }
  }

  /** What follows d on an exact chain shows d's parent field. */
  lemma {:induction false} TailTells(asc: Chains, parents: Parents, e: string, k: int)
    requires asc.Keys == parents.Keys && WalksExact(asc, parents)
    requires e in asc && 0 <= k < |asc[e]|
    ensures ParentAt(parents, asc[e][k]) == if asc[e][k + 1..] == [] then None else Some(asc[e][k + 1..][0])
  {
    TailIsChain(asc, parents, e, k);
  }

  /** If d is on e's unchanged chain and d's parent moved, the chains cannot both be exact. */
  lemma {:induction false} StaleTail(asc: Chains, parents: Parents, asc': Chains, parents': Parents, d: string,
                                     e: string)
    requires asc.Keys == parents.Keys && asc'.Keys == parents'.Keys && WalksExact(asc, parents)
    requires e in asc && e in asc' && asc[e] == asc'[e] && d in asc[e]
    requires ParentAt(parents, d) != ParentAt(parents', d)
    ensures !WalksExact(asc', parents')
  {
    var k :| 0 <= k < |asc[e]| && asc[e][k] == d;
    TailTells(asc, parents, e, k);
    if WalksExact(asc', parents') {
      TailTells(asc', parents', e, k);
    }
  }

  /** The chains an accepted write leaves. */
  lemma ChainsAfter(t: Table, d: string, id: Id, was: Option<string>, now: Option<string>)
    requires (was.Some? <==> d in t.asc) && forall e :: e in t.asc ==> |t.asc[e]| >= 1
    requires Update(t, d, id, was, now).Some?
    ensures var rest, asc' := t.asc - {d}, Update(t, d, id, was, now).value.asc;
            && (now.None? ==> asc' == rest)
            && (now.Some? ==> now.value != d && asc' == rest[d := [now.value] + ChainAt(rest, now.value)])
  {
    assert d !in t.asc ==> t.asc - {d} == t.asc;
    if now.Some? { AcceptedWhen(t, d, id, was, now.value); }
  }

  /**
   Exactly when an accepted write keeps the chains exact: it leaves the parent field alone, or the
   document is on nobody's stored chain.
   */
  lemma {:induction false} UpdateKeepsWalks(t: Table, parents: Parents, d: string, id: Id, now: Option<string>)
    requires ChainsOk(t.asc, parents) && WalksExact(t.asc, parents)
    requires Update(t, d, id, ParentAt(parents, d), now).Some?
    ensures WalksExact(Update(t, d, id, ParentAt(parents, d), now).value.asc, WithParent(parents, d, now))
       <==> ParentAt(parents, d) == now || !OnSomeChain(t.asc, d)
  {
    var parents' := WithParent(parents, d, now);
    var asc, asc' := t.asc, Update(t, d, id, ParentAt(parents, d), now).value.asc;
    ChainsAfter(t, d, id, ParentAt(parents, d), now);
    if ParentAt(parents, d) == now {
      if now.Some? { SameParentSameChains(asc, parents, d, asc'[d]); }
      assert asc' == asc && parents' == parents;
    } else if !OnSomeChain(asc, d) {
      OffChainsKeeps(asc, parents, asc', d, now);
    } else {
      var e :| e in asc && d in asc[e];
      StaleTail(asc, parents, asc', parents', d, e);
    }
  }

  /** A document is on some stored chain exactly when it has recorded descendants. */
  lemma OnChainIffDescendants(t: Table, parents: Parents, ids: map<string, Id>, d: string)
    requires TableOk(t, parents, ids)
    ensures OnSomeChain(t.asc, d) <==> d in t.desc
  {
    assert At(t.desc, d) == Holders(ChainView(t.asc), ids, d);
    if OnSomeChain(t.asc, d) {
      var e :| e in t.asc && d in t.asc[e];
      assert ids[e] in Holders(ChainView(t.asc), ids, d);
    }
  }
}
