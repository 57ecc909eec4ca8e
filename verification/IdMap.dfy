/** String document ids to dense 32-bit ids and back (bboltstore/idmap.go). */
module IdMaps {
  import opened Order
  import opened Float64
  import opened Documents

  /** The three buckets; `next` is the stored counter, 1 before the first assignment. */
  datatype Ids = Ids(fwd: map<string, Id>, rev: map<Id, string>, next: Id)

  const EMPTY: Ids := Ids(map[], map[], 1)

  /**
   The maps are mutually inverse, and the ids handed out are exactly 1 .. next - 1; after the counter
   has wrapped to 0 they are all of 1 .. 2^32 - 1.
   */
  ghost predicate Valid(m: Ids) {
    && (forall d :: d in m.fwd ==> m.fwd[d] in m.rev && m.rev[m.fwd[d]] == d)
    && (forall e :: e in m.rev ==> m.rev[e] in m.fwd && m.fwd[m.rev[e]] == e)
    && (forall e: Id :: e in m.rev <==> 1 <= e && (m.next == 0 || e < m.next))
  }

  predicate Exhausted(m: Ids, d: string) { d !in m.fwd && m.next == 0 }

  function Assigned(m: Ids, d: string): Ids
    requires !Exhausted(m, d)
  {
    if d in m.fwd then m
    else Ids(m.fwd[d := m.next], m.rev[m.next := d], if m.next + 1 == TWO_32 then 0 else m.next + 1)
  }

  /** Assignment keeps the maps inverse, gives d an id, and changes nobody else's. */
  lemma AssignKeeps(m: Ids, d: string)
    requires Valid(m) && !Exhausted(m, d)
    ensures Valid(Assigned(m, d)) && d in Assigned(m, d).fwd
    ensures forall c :: c in m.fwd ==> c in Assigned(m, d).fwd && Assigned(m, d).fwd[c] == m.fwd[c]
    ensures d !in m.fwd ==> Assigned(m, d).fwd[d] !in m.rev
  {
    if d !in m.fwd { assert m.next !in m.rev; }
  }

  /** The counter refuses only once every 32-bit id but 0 is taken. */
  lemma RefusesOnlyWhenFull(m: Ids, d: string, e: Id)
    requires Valid(m) && Exhausted(m, d) && e != 0
    ensures e in m.rev
  {
  }

  class IdMap {
    var fwd: map<string, Id>
    var rev: map<Id, string>
    var next: Id

    ghost function Contents(): Ids
      reads this
    {
      Ids(fwd, rev, next)
    }

    constructor ()
      ensures Contents() == EMPTY
    {
      fwd, rev, next := map[], map[], 1;
    }

    method Assign(d: string) returns (id: Option<Id>)
      modifies this
      ensures Exhausted(old(Contents()), d) ==> id == None && Contents() == old(Contents())
      ensures !Exhausted(old(Contents()), d) ==>
                && Contents() == Assigned(old(Contents()), d)
                && d in fwd && id == Some(fwd[d])
    {
      if d in fwd { return Some(fwd[d]); }
      if next == 0 { return None; }
      id := Some(next);
      fwd := fwd[d := next];
      rev := rev[next := d];
      next := if next + 1 == TWO_32 then 0 else next + 1;
    }

    /** materializeDocIDSet: None is the orphan error. */
    method Materialize(bm: set<Id>) returns (r: Option<seq<string>>)
      ensures r.None? <==> !(bm <= rev.Keys)
      ensures r.Some? ==> Elems(r.value) == set e | e in bm :: if e in rev then rev[e] else ""
      ensures r.Some? && Valid(Contents()) ==> Distinct(r.value)
    {
      var ids: seq<string> := [];
      var todo := bm;
      while todo != {}
        invariant todo <= bm && bm - todo <= rev.Keys
        invariant Elems(ids) == set e | e in bm - todo :: if e in rev then rev[e] else ""
        invariant Valid(Contents()) ==> Distinct(ids)
        invariant Valid(Contents()) ==> forall i :: 0 <= i < |ids| ==> ids[i] in fwd && fwd[ids[i]] !in todo
      {
        var e :| e in todo;
        if e !in rev { return None; }
        ElemsConcat(ids, [rev[e]]);
        ids := ids + [rev[e]];
        todo := todo - {e};
      }
      assert bm - todo == bm;
      r := Some(ids);
    }
  }
}
