/**
 Buckets of bitmaps: a key maps to the set of internal ids of the documents that have it. The inverted
 index, the descendant table and the group members are all of this shape, and all keep the same law:
 the bucket is what reading every live document would give.
 */
module Postings {
  import opened Float64

  /** readBitmap: a missing key is the empty bitmap. */
  function At<E>(m: map<string, set<E>>, k: string): set<E> {
    if k in m then m[k] else {}
  }

  /** No key is left behind with an empty bitmap. */
  ghost predicate Tight<E>(m: map<string, set<E>>) {
    forall k :: k in m ==> m[k] != {}
  }

  function SetBit<E>(m: map<string, set<E>>, k: string, e: E): map<string, set<E>> {
    m[k := At(m, k) + {e}]
  }

  function ClearBit<E>(m: map<string, set<E>>, k: string, e: E): map<string, set<E>> {
    if k !in m then m
    else if m[k] - {e} == {} then m - {k}
    else m[k := m[k] - {e}]
  }

  ghost function SetAll<E>(m: map<string, set<E>>, ks: set<string>, e: E): map<string, set<E>> {
    map k | k in m.Keys + ks :: if k in ks then At(m, k) + {e} else m[k]
  }

  ghost function ClearAll<E>(m: map<string, set<E>>, ks: set<string>, e: E): map<string, set<E>> {
    map k | k in m && (k !in ks || m[k] - {e} != {}) :: if k in ks then m[k] - {e} else m[k]
  }

  lemma SetStep<E>(m: map<string, set<E>>, ks: set<string>, k: string, e: E)
    ensures SetBit(SetAll(m, ks, e), k, e) == SetAll(m, ks + {k}, e)
  {
  }

  lemma ClearStep<E>(m: map<string, set<E>>, ks: set<string>, k: string, e: E)
    ensures ClearBit(ClearAll(m, ks, e), k, e) == ClearAll(m, ks + {k}, e)
  {
    var cleared, after := ClearAll(m, ks, e), ClearAll(m, ks + {k}, e);
    if k in ks && k in m { assert m[k] - {e} - {e} == m[k] - {e}; }
    assert ClearBit(cleared, k, e).Keys == after.Keys;
  }

  ghost predicate Injective(ids: map<string, Id>) {
    forall c, d :: c in ids && d in ids && ids[c] == ids[d] ==> c == d
  }

  ghost function Image(ids: map<string, Id>, ds: set<string>): set<Id>
    requires ds <= ids.Keys
  {
    set d | d in ds :: ids[d]
  }

  /** Brute force: the ids of the documents whose key set contains k. */
  ghost function Holders(view: map<string, set<string>>, ids: map<string, Id>, k: string): set<Id>
    requires view.Keys <= ids.Keys
  {
    set d | d in view && k in view[d] :: ids[d]
  }

  ghost predicate Agrees(m: map<string, set<Id>>, view: map<string, set<string>>, ids: map<string, Id>) {
    && view.Keys <= ids.Keys
    && Tight(m)
    && forall k :: At(m, k) == Holders(view, ids, k)
  }

  ghost function KeysOf(view: map<string, set<string>>, d: string): set<string> {
    if d in view then view[d] else {}
  }

  /** m' is m with document d's bits moved from its old keys to the new ones. */
  ghost predicate Moved<E>(m: map<string, set<E>>, m': map<string, set<E>>, old': set<string>, new': set<string>,
                           e: E) {
    && Tight(m')
    && forall k :: At(m', k) == if k in new' then At(m, k) + {e} else if k in old' then At(m, k) - {e} else At(m, k)
  }

  lemma HoldersAfter(view: map<string, set<string>>, ids: map<string, Id>, d: string, new': set<string>, k: string)
    requires view.Keys <= ids.Keys && Injective(ids) && d in ids
    ensures ids[d] in Holders(view, ids, k) <==> k in KeysOf(view, d)
    ensures Holders(view[d := new'], ids, k)
         == Holders(view, ids, k) - {ids[d]} + if k in new' then {ids[d]} else {}
  {
    var after := Holders(view[d := new'], ids, k);
    forall e | e in Holders(view, ids, k) && e != ids[d] ensures e in after {
      var c :| c in view && k in view[c] && ids[c] == e;
      assert c in view[d := new'] && view[d := new'][c] == view[c];
    }
    if k in new' { assert d in view[d := new']; }
  }

  lemma {:induction false} Replace(m: map<string, set<Id>>, m': map<string, set<Id>>, view: map<string, set<string>>,
                                   ids: map<string, Id>, d: string, new': set<string>)
    requires Agrees(m, view, ids) && Injective(ids) && d in ids
    requires Moved(m, m', KeysOf(view, d), new', ids[d])
    ensures Agrees(m', view[d := new'], ids)
  {
    forall k ensures At(m', k) == Holders(view[d := new'], ids, k) {
      HoldersAfter(view, ids, d, new', k);
      assert At(m, k) == Holders(view, ids, k);
    }
  }

  lemma Forget(m: map<string, set<Id>>, view: map<string, set<string>>, ids: map<string, Id>, d: string)
    requires d in view && view[d] == {} && Agrees(m, view, ids)
    ensures Agrees(m, view - {d}, ids)
  {
    forall k ensures Holders(view - {d}, ids, k) == Holders(view, ids, k) {
    }
  }

  /** Assigning an id to a document that is not yet live changes no bitmap. */
  lemma Extend(m: map<string, set<Id>>, view: map<string, set<string>>, ids: map<string, Id>, ids': map<string, Id>)
    requires Agrees(m, view, ids)
    requires ids.Keys <= ids'.Keys && forall d :: d in ids ==> ids'[d] == ids[d]
    ensures Agrees(m, view, ids')
  {
    forall k ensures Holders(view, ids', k) == Holders(view, ids, k) {
    }
  }

  lemma ClearMoved<E>(m: map<string, set<E>>, ks: set<string>, e: E)
    requires Tight(m)
    ensures Moved(m, ClearAll(m, ks, e), ks, {}, e)
  {
  }

  /** A document's own keys are cleared when it goes. */
  lemma ClearDoc(m: map<string, set<Id>>, view: map<string, set<string>>, ids: map<string, Id>, d: string)
    requires Agrees(m, view, ids) && Injective(ids) && d in view
    ensures Agrees(ClearAll(m, view[d], ids[d]), view - {d}, ids)
  {
    var m', view' := ClearAll(m, view[d], ids[d]), view - {d};
    ClearMoved(m, view[d], ids[d]);
    forall k ensures At(m', k) == Holders(view', ids, k) {
      HoldersWithout(view, ids, d, k);
      assert At(m, k) == Holders(view, ids, k);
    }
  }

  lemma HoldersWithout(view: map<string, set<string>>, ids: map<string, Id>, d: string, k: string)
    requires view.Keys <= ids.Keys && Injective(ids) && d in view
    ensures Holders(view - {d}, ids, k) == Holders(view, ids, k) - {ids[d]}
    ensures ids[d] in Holders(view, ids, k) <==> k in view[d]
  {
  }

  lemma SetDoc(m: map<string, set<Id>>, view: map<string, set<string>>, ids: map<string, Id>, d: string,
               ks: set<string>)
    requires Agrees(m, view, ids) && Injective(ids) && d in ids && d !in view
    ensures Agrees(SetAll(m, ks, ids[d]), view[d := ks], ids)
  {
    Replace(m, SetAll(m, ks, ids[d]), view, ids, d, ks);
  }
}
