/**
 Vector persistence: authoritative buckets, an in-memory mirror updated after the commit, and a rebuild
 that replays the buckets (bboltstore/vector.go).
 */
module VectorStores {
  import opened Order
  import opened Float64
  import opened Documents
  import opened VectorIndexes

  datatype Meta = Meta(dim: nat, metric: Metric)

  // ---------- blobs ----------

  function LittleEndian(n: Id): string {
    [(n % 256) as char, (n / 256 % 256) as char, (n / 0x1_0000 % 256) as char, (n / 0x100_0000 % 256) as char]
  }

  /** binary.LittleEndian.Uint32 on the first four bytes; a byte string never needs the reduction. */
  function FromLittleEndian(s: string): Id
    requires |s| == 4
  {
    (s[0] as int + 256 * s[1] as int + 0x1_0000 * s[2] as int + 0x100_0000 * s[3] as int) % TWO_32
  }

  lemma LittleEndianRoundTrip(n: Id)
    ensures FromLittleEndian(LittleEndian(n)) == n
  {
    var q := n / 256;
    var r := q / 256;
    assert n / 0x1_0000 == r && n / 0x100_0000 == r / 256;
  }

  /** encodeFloat32Slice. */
  function Encode(v: Vec): (s: string)
    ensures |s| == 4 * |v|
  {
    if v == [] then "" else Encode(v[..|v| - 1]) + LittleEndian(v[|v| - 1])
  }

  function DecodeAll(raw: string): (v: Vec)
    requires |raw| % 4 == 0
    ensures 4 * |v| == |raw|
  {
    if raw == "" then [] else DecodeAll(raw[..|raw| - 4]) + [FromLittleEndian(raw[|raw| - 4..])]
  }

  /** decodeFloat32Slice: None is either length error. */
  function Decode(raw: string, want: nat): Option<Vec> {
    if |raw| % 4 != 0 || (want > 0 && |raw| / 4 != want) then None else Some(DecodeAll(raw))
  }

  lemma {:induction false} BlobRoundTrip(v: Vec)
    ensures DecodeAll(Encode(v)) == v && Decode(Encode(v), |v|) == Some(v)
    decreases |v|
  {
    if v != [] {
      BlobStep(Encode(v[..|v| - 1]), v[|v| - 1]);
      BlobRoundTrip(v[..|v| - 1]);
      SplitLast(v);
    }
  }

  /** Component i takes four bytes from 4 i on, least significant first. */
  lemma {:induction false} EncodedBytes(v: Vec, i: int)
    requires 0 <= i < |v|
    ensures Encode(v)[4 * i] as int == v[i] % 256
    ensures Encode(v)[4 * i + 1] as int == v[i] / 0x100 % 256
    ensures Encode(v)[4 * i + 2] as int == v[i] / 0x1_0000 % 256
    ensures Encode(v)[4 * i + 3] as int == v[i] / 0x100_0000
    decreases |v|
  {
    var n := |v| - 1;
    if i < n {
      EncodedBytes(v[..n], i);
    }
  }

  lemma BlobStep(s: string, n: Id)
    requires |s| % 4 == 0
    ensures |s + LittleEndian(n)| % 4 == 0 && DecodeAll(s + LittleEndian(n)) == DecodeAll(s) + [n]
  {
    var all := s + LittleEndian(n);
    assert all[..|all| - 4] == s && all[|all| - 4..] == LittleEndian(n);
    LittleEndianRoundTrip(n);
  }

  method EncodeLoop(v: Vec) returns (out: string)
    ensures out == Encode(v)
  {
    out := "";
    for i := 0 to |v|
      invariant out == Encode(v[..i])
    {
      assert v[..i + 1][..i] == v[..i];
      out := out + LittleEndian(v[i]);
    }
    assert v[..|v|] == v;
  }

  lemma DecodeStep(raw: string, i: int)
    requires 0 <= i < |raw| / 4
    ensures DecodeAll(raw[..4 * (i + 1)]) == DecodeAll(raw[..4 * i]) + [FromLittleEndian(raw[4 * i..4 * i + 4])]
  {
    var next := raw[..4 * (i + 1)];
    assert next[..|next| - 4] == raw[..4 * i] && next[|next| - 4..] == raw[4 * i..4 * i + 4];
  }

  method DecodeLoop(raw: string, want: nat) returns (r: Option<Vec>)
    ensures r == Decode(raw, want)
  {
    if |raw| % 4 != 0 { return None; }
    if want > 0 && |raw| / 4 != want { return None; }
    var out: Vec := [];
    for i := 0 to |raw| / 4
      invariant out == DecodeAll(raw[..4 * i])
    {
      DecodeStep(raw, i);
      out := out + [FromLittleEndian(raw[4 * i..4 * i + 4])];
    }
    assert raw[..4 * (|raw| / 4)] == raw;
    r := Some(out);
  }

  // ---------- disk ----------

  type Registry = map<Key, Meta>

  /** Data buckets by name, each from vector id to blob. */
  type Data = map<string, map<string, string>>

  datatype Disk = Disk(registry: Registry, data: Data)

  /** The variable part of the bucket name vec_data:{entity}:{scope}. */
  function DataName(key: Key): string { key.entity + ":" + key.scope }

  function BlobsOf(disk: Disk, key: Key): map<string, string> {
    if DataName(key) in disk.data then disk.data[DataName(key)] else map[]
  }

  predicate NoColon(s: string) { ':' !in s }

  lemma {:induction false} DataNameInjective(a: Key, b: Key)
    requires NoColon(a.entity) && NoColon(b.entity) && DataName(a) == DataName(b)
    ensures a == b
  {
    SeparatedEqual(':', a.entity, a.scope, b.entity, b.scope);
  }

  ghost predicate KeyOk(disk: Disk, key: Key) {
    key in disk.registry ==>
      && key.entity != "" && key.scope != "" && disk.registry[key].dim > 0
      && forall id :: id in BlobsOf(disk, key) ==>
            id != "" && Decode(BlobsOf(disk, key)[id], disk.registry[key].dim).Some?
  }

  ghost predicate Owned(disk: Disk, name: string) {
    exists k :: k in disk.registry && DataName(k) == name
  }

  /** Every blob decodes at its scope's dimension, and every non-empty data bucket has a registered scope. */
  ghost predicate DiskOk(disk: Disk) {
    && (forall key :: KeyOk(disk, key))
    && (forall name :: name in disk.data && disk.data[name] != map[] ==> Owned(disk, name))
  }

  /** The vectors on disk under a scope. */
  ghost function VectorsOf(disk: Disk, key: Key): map<string, Vec> {
    if key !in disk.registry then map[] else Decoded(BlobsOf(disk, key), disk.registry[key].dim)
  }

  ghost function Decoded(blobs: map<string, string>, dim: nat): map<string, Vec> {
    map id | id in blobs && Decode(blobs[id], dim).Some? :: Decode(blobs[id], dim).value
  }

  /** One scope's mirror: live vectors equal the disk's, with the registered dimension and metric. */
  ghost predicate KeyMirrors(mem: Scopes, disk: Disk, key: Key) {
    && Live(mem, key) == VectorsOf(disk, key)
    && (key in mem ==>
          && key in disk.registry && ScopeOk(mem[key])
          && mem[key].dim == disk.registry[key].dim && mem[key].metric == disk.registry[key].metric)
  }

  ghost predicate Mirrors(mem: Scopes, disk: Disk) {
    forall key :: KeyMirrors(mem, disk, key)
  }

  // ---------- commits and their mirror updates ----------

  datatype Pending =
    | Idle
    | Inserting(key: Key, id: string, vec: Vec, metric: Metric)
    | Deleting(key: Key, id: string)
    | Dropping(key: Key)

  function Mirrored(mem: Scopes, p: Pending): Scopes {
    match p
    case Idle => mem
    case Inserting(key, id, vec, metric) => Inserted(mem, key, id, vec, metric)
    case Deleting(key, id) => Buried(mem, key, id)
    case Dropping(key) => mem - {key}
  }

  /** The dimension lock: a registered scope refuses any other length. */
  predicate InsertRefused(disk: Disk, key: Key, vec: Vec) {
    key in disk.registry && disk.registry[key].dim != |vec|
  }

  /** VectorInsert's transaction: the first insert fixes dimension and metric, later ones keep the metric. */
  function CommitInsert(disk: Disk, key: Key, id: string, vec: Vec, metric: Metric): Disk {
    var meta := if key in disk.registry then disk.registry[key] else Meta(|vec|, metric);
    Disk(disk.registry[key := meta], disk.data[DataName(key) := BlobsOf(disk, key)[id := Encode(vec)]])
  }

  function CommitDelete(disk: Disk, key: Key, id: string): Disk {
    var name := DataName(key);
    if name in disk.data then disk.(data := disk.data[name := disk.data[name] - {id}]) else disk
  }

  function CommitDrop(disk: Disk, key: Key): Disk {
    Disk(disk.registry - {key}, disk.data - {DataName(key)})
  }

  /** Another registered scope keeps its vectors in the same data bucket. */
  ghost predicate Shares(disk: Disk, key: Key, k: Key) {
    k != key && k in disk.registry && DataName(k) == DataName(key)
  }

  lemma UnownedEmpty(disk: Disk, key: Key)
    requires DiskOk(disk) && key !in disk.registry && BlobsOf(disk, key) != map[]
    ensures exists k :: Shares(disk, key, k)
  {
    assert Owned(disk, DataName(key));
    var k :| k in disk.registry && DataName(k) == DataName(key);
    assert Shares(disk, key, k);
  }

  lemma DecodedAll(disk: Disk, key: Key)
    requires KeyOk(disk, key) && key in disk.registry
    ensures VectorsOf(disk, key).Keys == BlobsOf(disk, key).Keys
  {
  }

  /** Every scope that shares the bucket already holds this vector, and a new scope would see nothing else. */
  ghost predicate InsertHarmless(disk: Disk, key: Key, id: string, vec: Vec) {
    forall k :: Shares(disk, key, k) ==>
      && id in VectorsOf(disk, k) && VectorsOf(disk, k)[id] == vec
      && (key in disk.registry || BlobsOf(disk, k).Keys == {id})
  }

  /**
   An insert the dimension lock lets through: disk and mirror move together if and only if it is harmless
   to the scopes that share its bucket.
   */
  lemma {:induction false} InsertExact(disk: Disk, mem: Scopes, key: Key, id: string, vec: Vec, metric: Metric)
    requires DiskOk(disk) && Mirrors(mem, disk) && Named(key, id) && vec != [] && !InsertRefused(disk, key, vec)
    ensures var disk' := CommitInsert(disk, key, id, vec, metric);
            DiskOk(disk') && Mirrors(Inserted(mem, key, id, vec, disk'.registry[key].metric), disk')
            <==> InsertHarmless(disk, key, id, vec)
  {
    var disk' := CommitInsert(disk, key, id, vec, metric);
    var mem' := Inserted(mem, key, id, vec, disk'.registry[key].metric);
    BlobRoundTrip(vec);
    if InsertHarmless(disk, key, id, vec) {
      InsertKeeps(disk, mem, key, id, vec, metric);
    } else {
      var k :| Shares(disk, key, k) && !(id in VectorsOf(disk, k) && VectorsOf(disk, k)[id] == vec
                                         && (key in disk.registry || BlobsOf(disk, k).Keys == {id}));
      if DiskOk(disk') && Mirrors(mem', disk') {
        InsertSeen(disk, mem, key, id, vec, metric, k);
      }
    }
  }

  /** What exactness after the insert says about a scope that shares the bucket. */
  lemma {:induction false} InsertSeen(disk: Disk, mem: Scopes, key: Key, id: string, vec: Vec, metric: Metric, k: Key)
    requires DiskOk(disk) && Mirrors(mem, disk) && Shares(disk, key, k) && Decode(Encode(vec), |vec|) == Some(vec)
    requires var disk' := CommitInsert(disk, key, id, vec, metric);
             DiskOk(disk') && Mirrors(Inserted(mem, key, id, vec, disk'.registry[key].metric), disk')
    ensures id in VectorsOf(disk, k) && VectorsOf(disk, k)[id] == vec
    ensures key in disk.registry || BlobsOf(disk, k).Keys == {id}
  {
    var disk' := CommitInsert(disk, key, id, vec, metric);
    var mem' := Inserted(mem, key, id, vec, disk'.registry[key].metric);
    assert KeyMirrors(mem, disk, k) && KeyMirrors(mem', disk', k) && KeyOk(disk', k) && KeyOk(disk, k);
    assert BlobsOf(disk', k) == BlobsOf(disk, k)[id := Encode(vec)];
    DecodedAll(disk', k);
    DecodedAll(disk, k);
    assert Live(mem', k) == Live(mem, k);
    if key !in disk.registry {
      assert KeyMirrors(mem, disk, key) && KeyMirrors(mem', disk', key) && KeyOk(disk', key);
      DecodedAll(disk', key);
      assert Live(mem', key).Keys == {id};
    }
  }

  lemma {:induction false} InsertKeeps(disk: Disk, mem: Scopes, key: Key, id: string, vec: Vec, metric: Metric)
    requires DiskOk(disk) && Mirrors(mem, disk) && Named(key, id) && vec != [] && !InsertRefused(disk, key, vec)
    requires InsertHarmless(disk, key, id, vec) && Decode(Encode(vec), |vec|) == Some(vec)
    ensures var disk' := CommitInsert(disk, key, id, vec, metric);
            DiskOk(disk') && Mirrors(Inserted(mem, key, id, vec, disk'.registry[key].metric), disk')
  {
    var disk' := CommitInsert(disk, key, id, vec, metric);
    var mem' := Inserted(mem, key, id, vec, disk'.registry[key].metric);
    if key !in disk.registry && BlobsOf(disk, key) != map[] { UnownedEmpty(disk, key); }
    forall k ensures KeyOk(disk', k) && KeyMirrors(mem', disk', k) {
      assert KeyOk(disk, k) && KeyMirrors(mem, disk, k);
      if k == key {
        InsertKey(disk, mem, key, id, vec, metric);
      } else {
        InsertOther(disk, mem, key, id, vec, metric, k);
      }
    }
    InsertOwned(disk, key, id, vec, metric);
  }

  lemma InsertOwned(disk: Disk, key: Key, id: string, vec: Vec, metric: Metric)
    requires forall name :: name in disk.data && disk.data[name] != map[] ==> Owned(disk, name)
    ensures var disk' := CommitInsert(disk, key, id, vec, metric);
            forall name :: name in disk'.data && disk'.data[name] != map[] ==> Owned(disk', name)
  {
    var disk' := CommitInsert(disk, key, id, vec, metric);
    forall name | name in disk'.data && disk'.data[name] != map[] ensures Owned(disk', name) {
      if name == DataName(key) {
        assert key in disk'.registry;
      } else {
        assert Owned(disk, name);
        var k :| k in disk.registry && DataName(k) == name;
        assert k in disk'.registry;
      }
    }
  }

  lemma {:induction false} InsertOther(disk: Disk, mem: Scopes, key: Key, id: string, vec: Vec, metric: Metric, k: Key)
    requires KeyOk(disk, k) && KeyMirrors(mem, disk, k) && k != key && Decode(Encode(vec), |vec|) == Some(vec)
    requires Shares(disk, key, k) ==> id in VectorsOf(disk, k) && VectorsOf(disk, k)[id] == vec
    ensures var disk' := CommitInsert(disk, key, id, vec, metric);
            KeyOk(disk', k) && KeyMirrors(Inserted(mem, key, id, vec, disk'.registry[key].metric), disk', k)
  {
    var disk' := CommitInsert(disk, key, id, vec, metric);
    if Shares(disk, key, k) {
      SharedInsert(disk, key, id, vec, metric, k);
    } else if k in disk.registry {
      assert BlobsOf(disk', k) == BlobsOf(disk, k);
    }
    assert Live(Inserted(mem, key, id, vec, disk'.registry[key].metric), k) == Live(mem, k);
  }

  /** Writing a vector that is already there changes nothing for a scope that shares the bucket. */
  lemma {:induction false} SharedInsert(disk: Disk, key: Key, id: string, vec: Vec, metric: Metric, k: Key)
    requires KeyOk(disk, k) && Shares(disk, key, k) && Decode(Encode(vec), |vec|) == Some(vec)
    requires id in VectorsOf(disk, k) && VectorsOf(disk, k)[id] == vec
    ensures var disk' := CommitInsert(disk, key, id, vec, metric);
            KeyOk(disk', k) && VectorsOf(disk', k) == VectorsOf(disk, k)
  {
    var disk' := CommitInsert(disk, key, id, vec, metric);
    var blobs, dim := BlobsOf(disk, k), disk.registry[k].dim;
    DecodedLength(blobs[id], dim);
    assert k in disk'.registry && disk'.registry[k] == disk.registry[k] &&
           BlobsOf(disk', k) == blobs[id := Encode(vec)];
    DecodedInsert(blobs, dim, id, vec);
    assert Decoded(blobs, dim)[id := vec] == Decoded(blobs, dim);
  }

  lemma DecodedLength(raw: string, dim: nat)
    requires Decode(raw, dim).Some? && dim > 0
    ensures |Decode(raw, dim).value| == dim
  {
  }

  lemma DecodedInsert(blobs: map<string, string>, dim: nat, id: string, vec: Vec)
    requires Decode(Encode(vec), dim) == Some(vec)
    ensures Decoded(blobs[id := Encode(vec)], dim) == Decoded(blobs, dim)[id := vec]
  {
  }

  lemma LiveInsert(mem: Scopes, key: Key, id: string, vec: Vec, metric: Metric)
    requires key in mem ==> ScopeOk(mem[key]) && mem[key].dim == |vec|
    ensures var mem' := Inserted(mem, key, id, vec, metric);
            && key in mem' && ScopeOk(mem'[key]) && mem'[key].dim == |vec|
            && mem'[key].metric == (if key in mem then mem[key].metric else metric)
            && Live(mem', key) == Live(mem, key)[id := vec]
  {
  }

  lemma {:induction false} InsertKey(disk: Disk, mem: Scopes, key: Key, id: string, vec: Vec, metric: Metric)
    requires KeyOk(disk, key) && KeyMirrors(mem, disk, key) && Named(key, id) && vec != [] &&
             !InsertRefused(disk, key, vec)
    requires key !in disk.registry ==> BlobsOf(disk, key).Keys <= {id}
    requires Decode(Encode(vec), |vec|) == Some(vec)
    ensures var disk' := CommitInsert(disk, key, id, vec, metric);
            KeyOk(disk', key) && KeyMirrors(Inserted(mem, key, id, vec, disk'.registry[key].metric), disk', key)
  {
    var disk' := CommitInsert(disk, key, id, vec, metric);
    var blobs := BlobsOf(disk, key);
    assert disk'.registry[key].dim == |vec| && BlobsOf(disk', key) == blobs[id := Encode(vec)];
    DecodedInsert(blobs, |vec|, id, vec);
    LiveInsert(mem, key, id, vec, disk'.registry[key].metric);
    if key in disk.registry {
      assert VectorsOf(disk, key) == Decoded(blobs, |vec|);
    } else {
      OnlyOne(blobs, |vec|, id, vec);
    }
  }

  lemma OnlyOne(blobs: map<string, string>, dim: nat, id: string, vec: Vec)
    requires blobs.Keys <= {id}
    ensures var none: map<string, Vec> := map[]; Decoded(blobs, dim)[id := vec] == none[id := vec]
  {
  }

  ghost predicate DeleteHarmless(disk: Disk, key: Key, id: string) {
    forall k :: Shares(disk, key, k) ==> id !in BlobsOf(disk, k)
  }

  lemma {:induction false} DeleteKey(disk: Disk, mem: Scopes, key: Key, id: string)
    requires KeyOk(disk, key) && KeyMirrors(mem, disk, key)
    ensures KeyOk(CommitDelete(disk, key, id), key) &&
            KeyMirrors(Buried(mem, key, id), CommitDelete(disk, key, id), key)
  {
    var disk' := CommitDelete(disk, key, id);
    assert BlobsOf(disk', key) == BlobsOf(disk, key) - {id};
    assert VectorsOf(disk', key) == VectorsOf(disk, key) - {id};
    assert Live(Buried(mem, key, id), key) == Live(mem, key) - {id};
  }

  /** For another scope, the deletion is harmless exactly when it does not see the vector. */
  lemma {:induction false} DeleteOther(disk: Disk, mem: Scopes, key: Key, id: string, k: Key)
    requires KeyOk(disk, k) && KeyMirrors(mem, disk, k) && k != key
    ensures KeyOk(CommitDelete(disk, key, id), k)
    ensures KeyMirrors(Buried(mem, key, id), CommitDelete(disk, key, id), k) <==>
              !(Shares(disk, key, k) && id in BlobsOf(disk, k))
  {
    var disk', mem' := CommitDelete(disk, key, id), Buried(mem, key, id);
    assert Live(mem', k) == Live(mem, k);
    if Shares(disk, key, k) {
      assert BlobsOf(disk', k) == BlobsOf(disk, k) - {id};
      assert VectorsOf(disk', k) == VectorsOf(disk, k) - {id};
    } else if k in disk.registry {
      assert BlobsOf(disk', k) == BlobsOf(disk, k);
    }
  }

  /** A deletion keeps disk and mirror together if and only if no other scope sees the vector. */
  lemma {:induction false} DeleteExact(disk: Disk, mem: Scopes, key: Key, id: string)
    requires DiskOk(disk) && Mirrors(mem, disk)
    ensures DiskOk(CommitDelete(disk, key, id)) && Mirrors(Buried(mem, key, id), CommitDelete(disk, key, id))
            <==> DeleteHarmless(disk, key, id)
  {
    var disk', mem' := CommitDelete(disk, key, id), Buried(mem, key, id);
    forall k
      ensures KeyOk(disk', k)
      ensures KeyMirrors(mem', disk', k) <==> !(Shares(disk, key, k) && id in BlobsOf(disk, k))
    {
      assert KeyOk(disk, k) && KeyMirrors(mem, disk, k);
      if k == key { DeleteKey(disk, mem, key, id); } else { DeleteOther(disk, mem, key, id, k); }
    }
    forall name | name in disk'.data && disk'.data[name] != map[] ensures Owned(disk', name) {
      var none: map<string, string> := map[];
      assert none - {id} == none;
      assert Owned(disk, name);
    }
  }

  ghost predicate DropHarmless(disk: Disk, key: Key) {
    forall k :: Shares(disk, key, k) ==> BlobsOf(disk, k) == map[]
  }

  lemma {:induction false} DropOther(disk: Disk, mem: Scopes, key: Key, k: Key)
    requires KeyOk(disk, k) && KeyMirrors(mem, disk, k)
    ensures KeyOk(CommitDrop(disk, key), k)
    ensures KeyMirrors(mem - {key}, CommitDrop(disk, key), k) <==> !(Shares(disk, key, k) && BlobsOf(disk, k) != map[])
  {
    var disk', mem' := CommitDrop(disk, key), mem - {key};
    if k != key {
      assert Live(mem', k) == Live(mem, k);
      if Shares(disk, key, k) {
        DecodedAll(disk, k);
        assert VectorsOf(disk', k) == map[];
        assert BlobsOf(disk, k) != map[] ==> BlobsOf(disk, k).Keys != {};
      }
    }
  }

  /** Dropping a scope keeps disk and mirror together if and only if no other scope has a vector in its bucket. */
  lemma {:induction false} DropExact(disk: Disk, mem: Scopes, key: Key)
    requires DiskOk(disk) && Mirrors(mem, disk)
    ensures DiskOk(CommitDrop(disk, key)) && Mirrors(mem - {key}, CommitDrop(disk, key)) <==> DropHarmless(disk, key)
  {
    var disk', mem' := CommitDrop(disk, key), mem - {key};
    forall k
      ensures KeyOk(disk', k)
      ensures KeyMirrors(mem', disk', k) <==> !(Shares(disk, key, k) && BlobsOf(disk, k) != map[])
    {
      assert KeyOk(disk, k) && KeyMirrors(mem, disk, k);
      DropOther(disk, mem, key, k);
    }
    forall name | name in disk'.data && disk'.data[name] != map[] ensures Owned(disk', name) {
      assert Owned(disk, name);
      var k :| k in disk.registry && DataName(k) == name;
      assert k in disk'.registry;
    }
  }

  // ---------- rebuild ----------

  /** What replaying the buckets yields: a scope for every registered key with a vector. */
  ghost function Rebuilt(disk: Disk): Scopes {
    map key | key in disk.registry && VectorsOf(disk, key) != map[] ::
      Scope(VectorsOf(disk, key), disk.registry[key].dim, disk.registry[key].metric, {})
  }

  lemma {:induction false} RebuildMirrors(disk: Disk)
    requires DiskOk(disk)
    ensures Mirrors(Rebuilt(disk), disk)
  {
    var mem := Rebuilt(disk);
    forall key ensures KeyMirrors(mem, disk, key) {
      assert KeyOk(disk, key);
      assert key in mem ==> LiveIn(mem[key]) == VectorsOf(disk, key);
    }
  }

  // ---------- runs with crashes ----------

  datatype Machine = Machine(disk: Disk, mem: Scopes, pending: Pending)

  const START: Machine := Machine(Disk(map[], map[]), map[], Idle)

  /** What can happen: a commit, the mirror update that follows it, or a crash and reopening at any point. */
  datatype Act =
    | Insert(key: Key, id: string, vec: Vec, asked: Metric)
    | Delete(key: Key, id: string)
    | Drop(key: Key)
    | Sweep(key: Key)   // dropping an unregistered scope answers not-found, yet commits
    | CatchUp
    | Crash

  ghost predicate Enabled(s: Machine, a: Act) {
    match a
    case Insert(key, id, vec, _) => s.pending.Idle? && Named(key, id) && vec != [] && !InsertRefused(s.disk, key, vec)
    case Delete(key, id) => s.pending.Idle? && Named(key, id) && id in BlobsOf(s.disk, key)
    case Drop(key) => s.pending.Idle? && key.entity != "" && key.scope != "" && key in s.disk.registry
    case Sweep(key) => s.pending.Idle? && key.entity != "" && key.scope != "" && key !in s.disk.registry
    case CatchUp => true
    case Crash => true
  }

  ghost function Next(s: Machine, a: Act): Machine {
    match a
    case Insert(key, id, vec, asked) =>
      var disk := CommitInsert(s.disk, key, id, vec, asked);
      Machine(disk, s.mem, Inserting(key, id, vec, disk.registry[key].metric))
    case Delete(key, id) => Machine(CommitDelete(s.disk, key, id), s.mem, Deleting(key, id))
    case Drop(key) => Machine(CommitDrop(s.disk, key), s.mem, Dropping(key))
    case Sweep(key) => Machine(CommitDrop(s.disk, key), s.mem, Idle)
    case CatchUp => Machine(s.disk, Mirrored(s.mem, s.pending), Idle)
    case Crash => Machine(s.disk, Rebuilt(s.disk), Idle)
  }

  /** What a caller can check on the disk before the commit. */
  ghost predicate Harmless(disk: Disk, a: Act) {
    match a
    case Insert(key, id, vec, _) => InsertHarmless(disk, key, id, vec)
    case Delete(key, id) => DeleteHarmless(disk, key, id)
    case Drop(key) => DropHarmless(disk, key)
    case Sweep(key) => DropHarmless(disk, key)
    case CatchUp => true
    case Crash => true
  }

  /** Once the pending update lands, the mirror is exact. */
  ghost predicate MachineOk(s: Machine) {
    DiskOk(s.disk) && Mirrors(Mirrored(s.mem, s.pending), s.disk)
  }

  /** A step keeps the machine right if and only if it is harmless. */
  lemma {:induction false} StepExact(s: Machine, a: Act)
    requires MachineOk(s) && Enabled(s, a)
    ensures MachineOk(Next(s, a)) <==> Harmless(s.disk, a)
  {
    match a
    case Insert(key, id, vec, asked) => InsertExact(s.disk, s.mem, key, id, vec, asked);
    case Delete(key, id) => DeleteExact(s.disk, s.mem, key, id);
    case Drop(key) => DropExact(s.disk, s.mem, key);
    case Sweep(key) =>
      assert KeyMirrors(s.mem, s.disk, key);
      assert s.mem - {key} == s.mem;
      DropExact(s.disk, s.mem, key);
    case CatchUp =>
    case Crash => RebuildMirrors(s.disk);
  }

  ghost predicate IsVectorRun(acts: seq<Act>, trace: seq<Machine>) {
    && |trace| == |acts| + 1 && trace[0] == START
    && forall i :: 0 <= i < |acts| ==> ActAt(acts, trace, i)
  }

  ghost predicate ActAt(acts: seq<Act>, trace: seq<Machine>, i: int)
    requires 0 <= i < |acts| && |trace| == |acts| + 1
  {
    Enabled(trace[i], acts[i]) && trace[i + 1] == Next(trace[i], acts[i])
  }

  /**
   Over every run of harmless steps from the empty store, crashes included: whenever nothing is pending,
   the live in-memory vectors equal the disk's and every in-memory scope has the registered dimension
   and metric.
   */
  lemma {:induction false} RunMirrors(acts: seq<Act>, trace: seq<Machine>, n: nat)
    requires IsVectorRun(acts, trace) && n <= |acts|
    requires forall i :: 0 <= i < n ==> Harmless(trace[i].disk, acts[i])
    ensures MachineOk(trace[n]) && (trace[n].pending.Idle? ==> Mirrors(trace[n].mem, trace[n].disk))
  {
    if n == 0 {
      forall key ensures KeyOk(START.disk, key) && KeyMirrors(map[], START.disk, key) {
      }
    } else {
      RunMirrors(acts, trace, n - 1);
      assert ActAt(acts, trace, n - 1);
      StepExact(trace[n - 1], acts[n - 1]);
    }
  }

  /** What the first insert into an unregistered scope fixes stays until the scope is dropped. */
  lemma {:induction false} FirstInsertFixes(acts: seq<Act>, trace: seq<Machine>, i: nat, j: nat)
    requires IsVectorRun(acts, trace) && i < j <= |acts| && acts[i].Insert? && acts[i].key !in trace[i].disk.registry
    requires forall n :: i <= n < j && acts[n].Drop? ==> acts[n].key != acts[i].key
    ensures var key, registry := acts[i].key, trace[j].disk.registry;
            key in registry && registry[key] == Meta(|acts[i].vec|, acts[i].asked)
    decreases j
  {
    assert ActAt(acts, trace, j - 1);
    if i < j - 1 { FirstInsertFixes(acts, trace, i, j - 1); }
  }

  ghost predicate ColonFree(a: Act) {
    match a
    case CatchUp => true
    case Crash => true
    case _ => NoColon(a.key.entity)
  }

  ghost predicate PlainRegistry(disk: Disk) {
    forall k :: k in disk.registry ==> NoColon(k.entity)
  }

  /** Among colon-free entities no two scopes share a bucket, so every step is harmless. */
  lemma {:induction false} ColonFreeHarmless(s: Machine, a: Act)
    requires PlainRegistry(s.disk) && ColonFree(a)
    ensures Harmless(s.disk, a) && PlainRegistry(Next(s, a).disk)
  {
    if !a.CatchUp? && !a.Crash? {
      forall k ensures !Shares(s.disk, a.key, k) {
        if Shares(s.disk, a.key, k) { DataNameInjective(a.key, k); }
      }
    }
  }

  lemma {:induction false} ColonFreeSoFar(acts: seq<Act>, trace: seq<Machine>, n: nat)
    requires IsVectorRun(acts, trace) && n <= |acts| && forall i :: 0 <= i < |acts| ==> ColonFree(acts[i])
    ensures PlainRegistry(trace[n].disk)
    ensures forall i :: 0 <= i < n ==> Harmless(trace[i].disk, acts[i])
  {
    if n > 0 {
      ColonFreeSoFar(acts, trace, n - 1);
      assert ActAt(acts, trace, n - 1);
      ColonFreeHarmless(trace[n - 1], acts[n - 1]);
    }
  }

  /** So the mirror is exact on every run over colon-free entities. */
  lemma {:induction false} ColonFreeRunMirrors(acts: seq<Act>, trace: seq<Machine>, n: nat)
    requires IsVectorRun(acts, trace) && n <= |acts| && forall i :: 0 <= i < |acts| ==> ColonFree(acts[i])
    ensures MachineOk(trace[n]) && (trace[n].pending.Idle? ==> Mirrors(trace[n].mem, trace[n].disk))
  {
    ColonFreeSoFar(acts, trace, n);
    RunMirrors(acts, trace, n);
  }

  // ---------- the store ----------

  /** A scope replayed up to some of its ids. */
  ghost function Replayed(mem: Scopes, key: Key, meta: Meta, blobs: map<string, string>, ids: set<string>): Scopes {
    if ids == {} then mem else mem[key := Scope(Decoded(Among(blobs, ids), meta.dim), meta.dim, meta.metric, {})]
  }

  ghost function Among(blobs: map<string, string>, ids: set<string>): map<string, string> {
    map id | id in blobs && id in ids :: blobs[id]
  }

  ghost predicate BlobsOk(key: Key, meta: Meta, blobs: map<string, string>) {
    && key.entity != "" && key.scope != "" && meta.dim > 0
    && forall id :: id in blobs ==> id != "" && Decode(blobs[id], meta.dim).Some?
  }

  lemma AmongMore(blobs: map<string, string>, ids: set<string>, id: string, dim: nat)
    requires id in blobs && Decode(blobs[id], dim).Some?
    ensures Decoded(Among(blobs, ids + {id}), dim)
         == Decoded(Among(blobs, ids), dim)[id := Decode(blobs[id], dim).value]
  {
  }

  lemma {:induction false} ReplayStep(mem: Scopes, key: Key, meta: Meta, blobs: map<string, string>, ids: set<string>,
                                      id: string)
    requires BlobsOk(key, meta, blobs) && key !in mem && ids <= blobs.Keys && id in blobs && id !in ids
    ensures |Decode(blobs[id], meta.dim).value| == meta.dim
    ensures Inserted(Replayed(mem, key, meta, blobs, ids), key, id, Decode(blobs[id], meta.dim).value, meta.metric)
         == Replayed(mem, key, meta, blobs, ids + {id})
  {
    var vec := Decode(blobs[id], meta.dim).value;
    var was := Replayed(mem, key, meta, blobs, ids);
    DecodedLength(blobs[id], meta.dim);
    AmongMore(blobs, ids, id, meta.dim);
    var none: set<string> := {};
    assert none - {id} == none;
    if ids == {} {
      assert Among(blobs, ids) == map[];
      assert Decoded(Among(blobs, ids), meta.dim) == map[];
    } else {
      assert was[key].tombs - {id} == none;
    }
  }

  /** Replay one scope's blobs; false is a decode or insert error. */
  method RebuildScope(idx: Index, key: Key, meta: Meta, blobs: map<string, string>) returns (ok: bool)
    modifies idx
    ensures BlobsOk(key, meta, blobs) && key !in old(idx.scopes) ==>
              ok && idx.scopes == Replayed(old(idx.scopes), key, meta, blobs, blobs.Keys)
    ensures ok ==> forall id :: id in blobs ==> Decode(blobs[id], meta.dim).Some?
  {
    ghost var good := BlobsOk(key, meta, blobs) && key !in idx.scopes;
    var todo := blobs.Keys;
    while todo != {}
      invariant todo <= blobs.Keys && forall id :: id in blobs && id !in todo ==> Decode(blobs[id], meta.dim).Some?
      invariant good ==> idx.scopes == Replayed(old(idx.scopes), key, meta, blobs, blobs.Keys - todo)
    {
      var id :| id in todo;
      var vec := DecodeLoop(blobs[id], meta.dim);
      if vec.None? { return false; }
      if good {
        ReplayStep(old(idx.scopes), key, meta, blobs, blobs.Keys - todo, id);
        assert blobs.Keys - todo + {id} == blobs.Keys - (todo - {id});
      }
      var r := idx.Insert(key, id, vec.value, meta.metric);
      if !r.Done? { return false; }
      todo := todo - {id};
    }
    assert blobs.Keys - todo == blobs.Keys;
    ok := true;
  }

  ghost function RebuiltUpTo(disk: Disk, keys: set<Key>): Scopes {
    map key | key in keys && key in disk.registry && VectorsOf(disk, key) != map[] ::
      Scope(VectorsOf(disk, key), disk.registry[key].dim, disk.registry[key].metric, {})
  }

  lemma {:induction false} RebuildStep(disk: Disk, keys: set<Key>, key: Key)
    requires DiskOk(disk) && key in disk.registry && key !in keys
    ensures BlobsOk(key, disk.registry[key], BlobsOf(disk, key)) && key !in RebuiltUpTo(disk, keys)
    ensures Replayed(RebuiltUpTo(disk, keys), key, disk.registry[key], BlobsOf(disk, key), BlobsOf(disk, key).Keys)
         == RebuiltUpTo(disk, keys + {key})
  {
    var blobs, meta := BlobsOf(disk, key), disk.registry[key];
    assert KeyOk(disk, key);
    DecodedAll(disk, key);
    AmongAll(blobs);
    RebuiltMore(disk, keys, key);
    assert blobs.Keys == {} <==> VectorsOf(disk, key) == map[];
  }

  lemma AmongAll(blobs: map<string, string>)
    ensures Among(blobs, blobs.Keys) == blobs
  {
  }

  lemma {:induction false} RebuiltMore(disk: Disk, keys: set<Key>, key: Key)
    requires key in disk.registry && key !in keys
    ensures var vs, meta := VectorsOf(disk, key), disk.registry[key];
            RebuiltUpTo(disk, keys + {key}) ==
              if vs == map[] then RebuiltUpTo(disk, keys)
              else RebuiltUpTo(disk, keys)[key := Scope(vs, meta.dim, meta.metric, {})]
  {
  }

  ghost predicate Decodable(disk: Disk, key: Key) {
    key in disk.registry ==>
      forall id :: id in BlobsOf(disk, key) ==> Decode(BlobsOf(disk, key)[id], disk.registry[key].dim).Some?
  }

  class VectorStore {
    var registry: Registry
    var data: Data
    var index: Index
    var loaded: bool   // false once a rebuild has failed, until the store is opened again

    ghost function OnDisk(): Disk
      reads this
    {
      Disk(registry, data)
    }

    constructor ()
      ensures OnDisk() == Disk(map[], map[]) && fresh(index) && index.scopes == map[] && loaded
    {
      registry, data, loaded := map[], map[], true;
      index := new Index();
    }

    /** Open after a crash: replay every registered scope into a new index. */
    method Reopen() returns (ok: bool)
      modifies this`index, this`loaded
      ensures fresh(index) && loaded == ok
      ensures DiskOk(OnDisk()) ==> ok && index.scopes == Rebuilt(OnDisk())
      ensures ok ==> forall key :: key in registry ==> Decodable(OnDisk(), key)
    {
      index := new Index();
      loaded := false;
      var todo := registry.Keys;
      while todo != {}
        invariant todo <= registry.Keys && fresh(index) && !loaded && OnDisk() == old(OnDisk())
        invariant DiskOk(OnDisk()) ==> index.scopes == RebuiltUpTo(OnDisk(), registry.Keys - todo)
        invariant forall key :: key in registry && key !in todo ==> Decodable(OnDisk(), key)
      {
        var key :| key in todo;
        if DataName(key) in data {
          var done := RebuildKey(key, registry.Keys - todo);
          if !done { return false; }
        } else if DiskOk(OnDisk()) {
          RebuildStep(OnDisk(), registry.Keys - todo, key);
        }
        assert registry.Keys - todo + {key} == registry.Keys - (todo - {key});
        todo := todo - {key};
      }
      assert RebuiltUpTo(OnDisk(), registry.Keys - todo) == Rebuilt(OnDisk());
      ok, loaded := true, true;
    }

    method RebuildKey(key: Key, ghost done: set<Key>) returns (ok: bool)
      requires key in registry && key !in done && DataName(key) in data
      requires DiskOk(OnDisk()) ==> index.scopes == RebuiltUpTo(OnDisk(), done)
      modifies index
      ensures DiskOk(OnDisk()) ==> ok && index.scopes == RebuiltUpTo(OnDisk(), done + {key})
      ensures ok ==> Decodable(OnDisk(), key)
    {
      if DiskOk(OnDisk()) { RebuildStep(OnDisk(), done, key); }
      ok := RebuildScope(index, key, registry[key], data[DataName(key)]);
    }

    /** VectorInsert: commit, then mirror; the registry's metric wins over the caller's. */
    method Insert(key: Key, id: string, vec: Vec, metric: Metric) returns (r: InsertResult)
      modifies this, index
      ensures index == old(index) && loaded == old(loaded)
      ensures var refused := !loaded || !Named(key, id) || vec == [] || InsertRefused(old(OnDisk()), key, vec);
              if refused then !r.Done? && OnDisk() == old(OnDisk()) && index.scopes == old(index.scopes)
              else
                && OnDisk() == CommitInsert(old(OnDisk()), key, id, vec, metric)
                && index.scopes == Inserted(old(index.scopes), key, id, vec, OnDisk().registry[key].metric)
      ensures r.Done? <==> && loaded && Named(key, id) && vec != [] && !InsertRefused(old(OnDisk()), key, vec)
                           && (key in old(index.scopes) ==> old(index.scopes)[key].dim == |vec|)
      ensures loaded && Mirrors(old(index.scopes), old(OnDisk())) ==>
                (r.Done? <==> Named(key, id) && vec != [] && !InsertRefused(old(OnDisk()), key, vec))
    {
      if !Named(key, id) { return BadName; }
      if vec == [] { return EmptyVector; }
      if !loaded { return NotLoaded; }
      var meta := Meta(|vec|, metric);
      if key in registry {
        meta := registry[key];
        if meta.dim != |vec| { return DimensionMismatch; }
      }
      assert KeyMirrors(index.scopes, OnDisk(), key) ==> key in index.scopes ==> index.scopes[key].dim == |vec|;
      registry := registry[key := meta];
      var blob := EncodeLoop(vec);
      data := data[DataName(key) := (if DataName(key) in data then data[DataName(key)] else map[])[id := blob]];
      r := index.Insert(key, id, vec, meta.metric);
    }

    /** VectorDelete: false is ErrNotFound, or a refusal. */
    method Delete(key: Key, id: string) returns (found: bool)
      modifies this, index
      ensures index == old(index) && loaded == old(loaded)
      ensures found <==> loaded && Named(key, id) && id in BlobsOf(old(OnDisk()), key)
      ensures found ==>
                OnDisk() == CommitDelete(old(OnDisk()), key, id) && index.scopes == Buried(old(index.scopes), key, id)
      ensures !found ==> OnDisk() == old(OnDisk()) && index.scopes == old(index.scopes)
    {
      if !Named(key, id) || !loaded || DataName(key) !in data || id !in data[DataName(key)] { return false; }
      data := data[DataName(key) := data[DataName(key)] - {id}];
      var existed := index.Delete(key, id);
      found := true;
    }

    /** VectorDropScope: the data bucket goes even when the registry does not know the scope. */
    method DropScope(key: Key) returns (found: bool)
      modifies this, index
      ensures index == old(index) && loaded == old(loaded)
      ensures found <==> loaded && key.entity != "" && key.scope != "" && key in old(registry)
      ensures OnDisk() == if !loaded || key.entity == "" ||
              key.scope == "" then old(OnDisk()) else CommitDrop(old(OnDisk()), key)
      ensures index.scopes == if found then old(index.scopes) - {key} else old(index.scopes)
    {
      if key.entity == "" || key.scope == "" || !loaded { return false; }
      found := key in registry;
      registry := registry - {key};
      data := data - {DataName(key)};
      if !found { return; }
      var existed := index.DropScope(key);
    }
  }
}
