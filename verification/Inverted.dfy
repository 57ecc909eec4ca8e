/** Inverted index: term to bitmap of internal ids (bboltstore/invindex.go and its hook). */
module Inverted {
  import opened Order
  import opened Float64
  import opened Postings

  /** The bucket after moving one document from its old terms to its new ones by delta. */
  ghost function Update(m: map<string, set<Id>>, id: Id, was: set<string>, now: set<string>): map<string, set<Id>> {
    SetAll(ClearAll(m, was - now, id), now - was, id)
  }

  ghost function WithPrefix(m: map<string, set<Id>>, p: string): set<Id> {
    set k, e | k in m && p <= k && e in m[k] :: e
  }

  /** diffSortedTerms: one merge pass over two sorted, duplicate-free slices. */
  method DiffSorted(was: seq<string>, now: seq<string>) returns (removed: seq<string>, added: seq<string>)
    requires Sorted(was) && Sorted(now)
    ensures Elems(removed) == Elems(was) - Elems(now)
    ensures Elems(added) == Elems(now) - Elems(was)
  {
    removed, added := [], [];
    var i, j := 0, 0;
    while i < |was| && j < |now|
      invariant 0 <= i <= |was| && 0 <= j <= |now|
      invariant forall a, b :: 0 <= a < i && j <= b < |now| ==> Less(was[a], now[b])
      invariant forall a, b :: i <= a < |was| && 0 <= b < j ==> Less(now[b], was[a])
      invariant Elems(removed) == Elems(was[..i]) - Elems(now)
      invariant Elems(added) == Elems(now[..j]) - Elems(was)
      decreases |was| - i + |now| - j
    {
      ElemsAppend(was, i);
      ElemsAppend(now, j);
      if Less(was[i], now[j]) {
        NotAmong(was[i], now, j);
        ElemsConcat(removed, [was[i]]);
        removed := removed + [was[i]];
        i := i + 1;
      } else if Less(now[j], was[i]) {
        NotAmong(now[j], was, i);
        ElemsConcat(added, [now[j]]);
        added := added + [now[j]];
        j := j + 1;
      } else {
        Total(was[i], now[j]);
        assert was[i] in Elems(now) && now[j] in Elems(was);
        i, j := i + 1, j + 1;
      }
    }
    TailFresh(was, i, now, j);
    TailFresh(now, j, was, i);
    assert was == was[..i] + was[i..] && now == now[..j] + now[j..];
    ElemsConcat(was[..i], was[i..]);
    ElemsConcat(now[..j], now[j..]);
    ElemsConcat(removed, was[i..]);
    ElemsConcat(added, now[j..]);
    removed, added := removed + was[i..], added + now[j..];
  }

  class InvertedIndex {
    var bucket: map<string, set<Id>>

    constructor ()
      ensures bucket == map[]
    {
      bucket := map[];
    }

    method Add(term: string, id: Id)
      modifies this
      ensures bucket == SetBit(old(bucket), term, id)
    {
      bucket := bucket[term := At(bucket, term) + {id}];
    }

    method Remove(term: string, id: Id)
      modifies this
      ensures bucket == ClearBit(old(bucket), term, id)
    {
      if term !in bucket { return; }
      var bm := bucket[term] - {id};
      if bm == {} {
        bucket := bucket - {term};
      } else {
        bucket := bucket[term := bm];
      }
    }

    /** updateInvertedIndex. */
    method ApplyDelta(id: Id, was: seq<string>, now: seq<string>)
      requires Sorted(was) && Sorted(now)
      modifies this
      ensures bucket == Update(old(bucket), id, Elems(was), Elems(now))
    {
      var removed, added := DiffSorted(was, now);
      for n := 0 to |removed|
        invariant bucket == ClearAll(old(bucket), Elems(removed[..n]), id)
      {
        ElemsAppend(removed, n);
        ClearStep(old(bucket), Elems(removed[..n]), removed[n], id);
        Remove(removed[n], id);
      }
      assert removed[..|removed|] == removed;
      ghost var cleared := bucket;
      for n := 0 to |added|
        invariant bucket == SetAll(cleared, Elems(added[..n]), id)
      {
        ElemsAppend(added, n);
        SetStep(cleared, Elems(added[..n]), added[n], id);
        Add(added[n], id);
      }
      assert added[..|added|] == added;
    }

    method Lookup(term: string) returns (bm: set<Id>)
      ensures bm == At(bucket, term)
    {
      bm := if term in bucket then bucket[term] else {};
    }

    /** Seek to the prefix, then walk while the prefix holds. */
    method LookupPrefix(p: string) returns (bm: set<Id>)
      ensures bm == WithPrefix(bucket, p)
    {
      bm := {};
      var keys := Cursor(bucket.Keys);
      var n := 0;
      while n < |keys| && Less(keys[n], p)
        invariant 0 <= n <= |keys|
        invariant forall i :: 0 <= i < n ==> Less(keys[i], p)
      {
        n := n + 1;
      }
      ghost var start := n;
      while n < |keys| && p <= keys[n]
        invariant start <= n <= |keys|
        invariant forall i :: start <= i < n ==> p <= keys[i]
        invariant bm == set i, e | start <= i < n && keys[i] in bucket && e in bucket[keys[i]] :: e
      {
        assert keys[n] in Elems(keys);
        bm := bm + bucket[keys[n]];
        n := n + 1;
      }
      ScanCovers(keys, p, start, n);
      assert forall k :: k in bucket ==> k in Elems(keys);
    }
  }

  /** The scan from the first key at or past p to the first key without p meets every key with p. */
  lemma {:induction false} ScanCovers(keys: seq<string>, p: string, start: int, stop: int)
    requires Sorted(keys) && 0 <= start <= stop <= |keys|
    requires forall i :: 0 <= i < start ==> Less(keys[i], p)
    requires start < |keys| ==> !Less(keys[start], p)
    requires stop < |keys| ==> !(p <= keys[stop])
    ensures forall i :: 0 <= i < |keys| && p <= keys[i] ==> start <= i < stop
  {
    forall i | 0 <= i < |keys| && p <= keys[i] ensures start <= i < stop {
      PrefixNotAfter(p, keys[i]);
      if stop < i {
        NotBefore(keys, p, start, stop);
        PrefixBlock(p, keys[stop], keys[i]);
      }
    }
  }

  // ---------- agreement with the live documents ----------

  /** The delta update moves the document's bits, so agreement with the live documents is kept. */
  lemma {:induction false} UpdateKeeps(m: map<string, set<Id>>, view: map<string, set<string>>, ids: map<string, Id>,
                                       d: string, now: set<string>)
    requires Agrees(m, view, ids) && Injective(ids) && d in ids
    ensures Agrees(Update(m, ids[d], KeysOf(view, d), now), view[d := now], ids)
  {
    var was, id := KeysOf(view, d), ids[d];
    var m' := Update(m, id, was, now);
    forall k ensures At(m', k) == if k in now then At(m, k) + {id} else if k in was then At(m, k) - {id} else At(m, k) {
      HoldersAfter(view, ids, d, now, k);
      assert At(m, k) == Holders(view, ids, k);
    }
    Replace(m, m', view, ids, d, now);
  }

  /** LookupPrefix on an agreeing bucket: the documents with some term that starts with p. */
  lemma PrefixHolders(m: map<string, set<Id>>, view: map<string, set<string>>, ids: map<string, Id>, p: string)
    requires Agrees(m, view, ids)
    ensures WithPrefix(m, p) == set d, k | d in view && k in view[d] && p <= k :: ids[d]
  {
    forall d, k | d in view && k in view[d] && p <= k ensures ids[d] in WithPrefix(m, p) {
      assert At(m, k) == Holders(view, ids, k);
      assert ids[d] in Holders(view, ids, k);
    }
    forall e | e in WithPrefix(m, p) ensures exists d, k :: d in view && k in view[d] && p <= k && ids[d] == e {
      var k :| k in m && p <= k && e in m[k];
      assert At(m, k) == Holders(view, ids, k);
      var d :| d in view && k in view[d] && ids[d] == e;
    }
  }
}
