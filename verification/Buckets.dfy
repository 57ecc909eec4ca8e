/** Bucket names: how families, entities and suffixes share one key space (the *BucketName functions of bboltstore). */
module Buckets {
  import opened Order

  datatype Family =
    | Docs | Meta | Fwd | Rev | Next
    | Terms | Numbers | Logs | Groups | Asc | Desc | Stats | Cells
    | Registry | Vectors

  /** A bucket: its family, its entity, and the attribute, item or scope some families append. */
  datatype Ref = Ref(family: Family, entity: string, suffix: string)

  predicate HasSuffix(f: Family) { f.Numbers? || f.Logs? || f.Vectors? }

  function Prefix(f: Family): string {
    match f
    case Docs => "docs:"
    case Meta => "meta:"
    case Fwd => "idmap:"
    case Rev => "idmap:"
    case Next => "idmap:"
    case Terms => "inv:"
    case Numbers => "num:"
    case Logs => "temp:"
    case Groups => "gby:"
    case Asc => "clo:asc:"
    case Desc => "clo:desc:"
    case Stats => "stat:"
    case Cells => "absbucket:"
    case Registry => "vec_registry:"
    case Vectors => "vec_data:"
  }

  function Tail(r: Ref): string {
    match r.family
    case Fwd => ":fwd"
    case Rev => ":rev"
    case Next => ":meta"
    case Numbers => ":" + r.suffix
    case Logs => ":" + r.suffix
    case Vectors => ":" + r.suffix
    case _ => ""
  }

  function Name(r: Ref): string { Prefix(r.family) + r.entity + Tail(r) }

  /** validateEntityID. */
  predicate ValidEntity(e: string) { e != "" && ':' !in e }

  /** A reference in use: a valid entity, and a suffix only where the family has one. */
  predicate Proper(r: Ref) { ValidEntity(r.entity) && (HasSuffix(r.family) || r.suffix == "") }

  /** The prefix up to its first colon, and the rest of the name from there. */
  function Stem(f: Family): string {
    match f
    case Docs => "docs"
    case Meta => "meta"
    case Fwd => "idmap"
    case Rev => "idmap"
    case Next => "idmap"
    case Terms => "inv"
    case Numbers => "num"
    case Logs => "temp"
    case Groups => "gby"
    case Asc => "clo"
    case Desc => "clo"
    case Stats => "stat"
    case Cells => "absbucket"
    case Registry => "vec_registry"
    case Vectors => "vec_data"
  }

  function Inner(f: Family): string { if f.Asc? then ":asc" else if f.Desc? then ":desc" else "" }

  lemma StemCuts(r: Ref)
    ensures ':' !in Stem(r.family) && Name(r) == Stem(r.family) + (Inner(r.family) + (":" + (r.entity + Tail(r))))
  {
    var f := r.family;
    assert Prefix(f) == Stem(f) + Inner(f) + ":" by {
      if f.Asc? { assert "clo" + ":asc" + ":" == "clo:asc:"; }
      if f.Desc? { assert "clo" + ":desc" + ":" == "clo:desc:"; }
      assert Stem(f) + "" == Stem(f);
    }
    assert Name(r) == Stem(f) + Inner(f) + ":" + r.entity + Tail(r);
  }

  /**
   For valid entities, two buckets have the same name only if they are the same bucket: same family,
   same entity, same attribute, item or scope. No operation on one entity touches another's buckets.
   */
  lemma {:induction false} NamesDistinct(a: Ref, b: Ref)
    requires Proper(a) && Proper(b) && Name(a) == Name(b)
    ensures a == b
  {
    StemCuts(a);
    StemCuts(b);
    var x := Inner(a.family) + (":" + (a.entity + Tail(a)));
    var y := Inner(b.family) + (":" + (b.entity + Tail(b)));
    CutEqual(':', Stem(a.family), x, Stem(b.family), y);
    if a.family.Asc? || a.family.Desc? {
      ChainBuckets(a, b);
    } else {
      assert x == ":" + (a.entity + Tail(a)) && y == ":" + (b.entity + Tail(b));
      assert x[1..] == a.entity + Tail(a) && y[1..] == b.entity + Tail(b);
      CutEqual(':', a.entity, Tail(a), b.entity, Tail(b));
      SameStem(a, b);
    }
  }

  /** The two closure tables differ in their second segment. */
  lemma {:induction false} ChainBuckets(a: Ref, b: Ref)
    requires Proper(a) && Proper(b) && a.family in {Asc, Desc} && b.family in {Asc, Desc}
    requires Inner(a.family) + (":" + (a.entity + Tail(a))) == Inner(b.family) + (":" + (b.entity + Tail(b)))
    ensures a == b
  {
    var x := Inner(a.family) + (":" + (a.entity + Tail(a)));
    var y := Inner(b.family) + (":" + (b.entity + Tail(b)));
    var s, t := Inner(a.family)[1..], Inner(b.family)[1..];
    assert s in {"asc", "desc"} && t in {"asc", "desc"};
    assert x[1..] == s + (":" + (a.entity + Tail(a))) && y[1..] == t + (":" + (b.entity + Tail(b)));
    CutEqual(':', s, ":" + (a.entity + Tail(a)), t, ":" + (b.entity + Tail(b)));
    assert (":" + (a.entity + Tail(a)))[1..] == a.entity + Tail(a) &&
           (":" + (b.entity + Tail(b)))[1..] == b.entity + Tail(b);
    CutEqual(':', a.entity, Tail(a), b.entity, Tail(b));
  }

  /** Families that share a stem are told apart by the tail. */
  lemma SameStem(a: Ref, b: Ref)
    requires Proper(a) && Proper(b) && Stem(a.family) == Stem(b.family) && a.entity == b.entity && Tail(a) == Tail(b)
    requires !a.family.Asc? && !a.family.Desc? && !b.family.Asc? && !b.family.Desc?
    ensures a == b
  {
    assert Stem(a.family)[0] == Stem(b.family)[0] && |Stem(a.family)| == |Stem(b.family)|;
    assert |Tail(a)| > 1 && a.family in {Fwd, Rev, Next} ==> Tail(a)[1] == Tail(b)[1];
    if HasSuffix(a.family) {
      assert (":" + a.suffix)[1..] == a.suffix && (":" + b.suffix)[1..] == b.suffix;
    }
  }

  function LogPrefix(entity: string): string { Prefix(Logs) + entity + ":" }

  lemma LogName(entity: string, item: string)
    ensures Name(Ref(Logs, entity, item)) == LogPrefix(entity) + item
  {
    var p := Prefix(Logs);
    assert p + entity + (":" + item) == p + entity + ":" + item;
  }

  lemma PrefixRest(prefix: string, rest: string, name: string)
    requires name == prefix + rest
    ensures prefix <= name && name[|prefix|..] == rest
  {
  }

  lemma PrefixSplit(prefix: string, name: string)
    requires prefix <= name
    ensures name == prefix + name[|prefix|..]
  {
  }

  lemma FirstLetters(r: Ref, entity: string)
    requires r.family.Registry? || r.family.Vectors?
    ensures !(LogPrefix(entity) <= Name(r))
  {
    assert Name(r)[0] == 'v' && LogPrefix(entity)[0] == 't';
  }

  /**
   Scanning bucket names for an entity's log prefix yields exactly that entity's logs, and their item ids,
   also beside vector buckets, whose entities nobody validates.
   */
  lemma {:induction false} LogScanExact(r: Ref, entity: string)
    requires (Proper(r) || r.family.Registry? || r.family.Vectors?) && ValidEntity(entity)
    ensures LogPrefix(entity) <= Name(r) <==> r.family.Logs? && r.entity == entity
    ensures LogPrefix(entity) <= Name(r) ==> Name(r)[|LogPrefix(entity)|..] == r.suffix
  {
    var prefix := LogPrefix(entity);
    if r.family.Logs? && r.entity == entity {
      LogName(entity, r.suffix);
      PrefixRest(prefix, r.suffix, Name(r));
    } else if r.family.Registry? || r.family.Vectors? {
      FirstLetters(r, entity);
    } else if prefix <= Name(r) {
      PrefixSplit(prefix, Name(r));
      LogName(entity, Name(r)[|prefix|..]);
      NamesDistinct(r, Ref(Logs, entity, Name(r)[|prefix|..]));
    }
  }

  // ---------- writes ----------

  /** Store or drop one bucket. */
  datatype Write<B> = Store(at: Ref, to: B) | Drop(at: Ref)

  ghost function After<B>(db: map<string, B>, ws: seq<Write<B>>): map<string, B>
    decreases |ws|
  {
    if ws == [] then db
    else
      var mid := After(db, ws[..|ws| - 1]);
      match ws[|ws| - 1]
      case Store(at, to) => mid[Name(at) := to]
      case Drop(at) => mid - {Name(at)}
  }

  /** No run of writes to one entity's buckets changes a bucket of another. */
  lemma {:induction false} OthersUntouched<B>(db: map<string, B>, ws: seq<Write<B>>, entity: string, r: Ref)
    requires Proper(r) && r.entity != entity
    requires forall i :: 0 <= i < |ws| ==> Proper(ws[i].at) && ws[i].at.entity == entity
    ensures Name(r) in After(db, ws) <==> Name(r) in db
    ensures Name(r) in db ==> After(db, ws)[Name(r)] == db[Name(r)]
    decreases |ws|
  {
    if ws != [] {
      var last := ws[|ws| - 1].at;
      OthersUntouched(db, ws[..|ws| - 1], entity, r);
      if Name(last) == Name(r) { NamesDistinct(last, r); }
    }
  }
}
