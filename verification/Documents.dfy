/**
 Documents as the index hooks see them, and the term extractor. A document is a byte string; what the
 engine can observe of it is whether it is empty (a zero-length document decodes to nil), whether it
 is a JSON object, and that object's fields.
 */
module Documents {
  import opened Order
  import opened Float64

  datatype Option<+T> = None | Some(value: T)

  datatype Json =
    | Null
    | Bool(flag: bool)
    | Num(num: Float)
    | Str(text: string)
    | Arr(elems: seq<Json>)
    | Obj(fields: map<string, Json>)

  datatype Doc =
    | Blank
    | Opaque(raw: string)
    | Object(fields: map<string, Json>)

  /** Library functions the engine calls and this model does not look into. */
  datatype Host = Host(
    formatFloat: Float -> string,        // strconv.FormatFloat(x, 'g', -1, 64)
    toInt64: Float -> int,               // int64(x)
    parseTime: string -> Option<int>,    // time.Parse, in Unix nanoseconds
    parseInt: string -> Option<Float>,   // strconv.ParseInt, as a float64
    lower: string -> string,             // strings.ToLower
    sprint: Json -> string)              // fmt.Sprintf("%v", x)

  // ---------- what a document contributes to the inverted and numeric indexes ----------

  ghost function LeafTerms(path: seq<string>, v: string): set<string> {
    (if v == "" then {} else {v}) + (if path == [] then {} else {path[|path| - 1] + ":" + v})
  }

  function BoolText(b: bool): string { if b then "true" else "false" }

  ghost function ValueTerms(h: Host, path: seq<string>, v: Json): set<string>
    decreases v, 1
  {
    match v
    case Null => {}
    case Bool(b) => LeafTerms(path, BoolText(b))
    case Str(s) => LeafTerms(path, s)
    case Num(f) => LeafTerms(path, h.formatFloat(f))
    case Arr(es) => ElemTerms(h, path, es, |es|)
    case Obj(m) => FieldTerms(h, path, m, m.Keys)
  }

  ghost function ElemTerms(h: Host, path: seq<string>, es: seq<Json>, n: nat): set<string>
    requires n <= |es|
    decreases Arr(es), 0
  {
    set i, t | 0 <= i < n && t in ValueTerms(h, path, es[i]) :: t
  }

  ghost function FieldTerms(h: Host, path: seq<string>, m: map<string, Json>, keys: set<string>): set<string>
    requires keys <= m.Keys
    decreases Obj(m), 0
  {
    set k, t | k in keys && t in ValueTerms(h, path + [k], m[k]) :: t
  }

  ghost function Terms(h: Host, doc: Doc): set<string> {
    if doc.Object? then ValueTerms(h, [], Obj(doc.fields)) else {}
  }

  ghost function ValueNums(path: seq<string>, v: Json): set<(string, Float)>
    decreases v, 1
  {
    match v
    case Num(f) => if Finite(f) && path != [] then {(path[|path| - 1], f)} else {}
    case Arr(es) => ElemNums(path, es, |es|)
    case Obj(m) => FieldNums(path, m, m.Keys)
    case _ => {}
  }

  ghost function ElemNums(path: seq<string>, es: seq<Json>, n: nat): set<(string, Float)>
    requires n <= |es|
    decreases Arr(es), 0
  {
    set i, p | 0 <= i < n && p in ValueNums(path, es[i]) :: p
  }

  ghost function FieldNums(path: seq<string>, m: map<string, Json>, keys: set<string>): set<(string, Float)>
    requires keys <= m.Keys
    decreases Obj(m), 0
  {
    set k, p | k in keys && p in ValueNums(path + [k], m[k]) :: p
  }

  ghost function NumsOf(doc: Doc): set<(string, Float)> {
    if doc.Object? then ValueNums([], Obj(doc.fields)) else {}
  }

  lemma {:induction false} NumsFinite(path: seq<string>, v: Json)
    ensures forall p :: p in ValueNums(path, v) ==> Finite(p.1)
    decreases v
  {
    match v
    case Arr(es) =>
      forall i | 0 <= i < |es| ensures forall p :: p in ValueNums(path, es[i]) ==> Finite(p.1) {
        NumsFinite(path, es[i]);
      }
    case Obj(m) =>
      forall k | k in m ensures forall p :: p in ValueNums(path + [k], m[k]) ==> Finite(p.1) {
        NumsFinite(path + [k], m[k]);
      }
    case _ =>
  }

  lemma DocNumsFinite(doc: Doc)
    ensures forall p :: p in NumsOf(doc) ==> Finite(p.1)
  {
    if doc.Object? { NumsFinite([], Obj(doc.fields)); }
  }

  // ---------- the same, read off the document's paths ----------

  /** Following the keys through objects, and any element of arrays, leads to the leaf. */
  ghost predicate Leads(v: Json, keys: seq<string>, leaf: Json)
    decreases v
  {
    match v
    case Obj(m) => keys != [] && keys[0] in m && Leads(m[keys[0]], keys[1..], leaf)
    case Arr(es) => exists i :: 0 <= i < |es| && Leads(es[i], keys, leaf)
    case _ => keys == [] && leaf == v
  }

  /** How a scalar prints. */
  ghost predicate Prints(h: Host, leaf: Json, text: string) {
    || leaf == Str(text)
    || (leaf == Bool(true) && text == "true")
    || (leaf == Bool(false) && text == "false")
    || (leaf.Num? && text == h.formatFloat(leaf.num))
  }

  /** The last key on the way, counting those already behind us. */
  ghost predicate EndsIn(path: seq<string>, keys: seq<string>, k: string) {
    if keys != [] then keys[|keys| - 1] == k else path != [] && path[|path| - 1] == k
  }

  /** The term is a printed leaf, or a leaf's last key, a colon and the printed leaf. */
  ghost predicate Spelled(h: Host, path: seq<string>, keys: seq<string>, leaf: Json, t: string) {
    exists text :: Prints(h, leaf, text) &&
        ((t == text && t != "") || exists k :: EndsIn(path, keys, k) && t == k + ":" + text)
  }

  lemma {:induction false} LeafSpelled(h: Host, path: seq<string>, v: Json, t: string)
    requires !v.Obj? && !v.Arr?
    ensures t in ValueTerms(h, path, v) <==> Spelled(h, path, [], v, t)
  {
    if path != [] { assert EndsIn(path, [], path[|path| - 1]); }
    match v
    case Null =>
    case Bool(b) => assert Prints(h, v, BoolText(b));
    case Str(s) => assert Prints(h, v, s);
    case Num(x) => assert Prints(h, v, h.formatFloat(x));
  }

  lemma EndsInside(path: seq<string>, k: string, rest: seq<string>, last: string)
    ensures EndsIn(path + [k], rest, last) <==> EndsIn(path, [k] + rest, last)
  {
  }

  lemma {:induction false} SpelledInside(h: Host, path: seq<string>, k: string, rest: seq<string>, leaf: Json,
                                         t: string)
    ensures Spelled(h, path + [k], rest, leaf, t) <==> Spelled(h, path, [k] + rest, leaf, t)
  {
    forall last ensures EndsIn(path + [k], rest, last) <==> EndsIn(path, [k] + rest, last) {
      EndsInside(path, k, rest, last);
    }
  }

  /** The term is spelled by some leaf of the value. */
  ghost predicate SomeLeafSpells(h: Host, path: seq<string>, v: Json, t: string) {
    exists keys, leaf :: Leads(v, keys, leaf) && Spelled(h, path, keys, leaf, t)
  }

  lemma {:induction false} FieldSpells(h: Host, path: seq<string>, m: map<string, Json>, t: string)
    ensures SomeLeafSpells(h, path, Obj(m), t) <==> exists k :: k in m && SomeLeafSpells(h, path + [k], m[k], t)
  {
    if SomeLeafSpells(h, path, Obj(m), t) {
      var keys, leaf :| Leads(Obj(m), keys, leaf) && Spelled(h, path, keys, leaf, t);
      assert keys == [keys[0]] + keys[1..];
      SpelledInside(h, path, keys[0], keys[1..], leaf, t);
      assert SomeLeafSpells(h, path + [keys[0]], m[keys[0]], t);
    }
    if k :| k in m && SomeLeafSpells(h, path + [k], m[k], t) {
      var rest, leaf :| Leads(m[k], rest, leaf) && Spelled(h, path + [k], rest, leaf, t);
      SpelledInside(h, path, k, rest, leaf, t);
      assert ([k] + rest)[1..] == rest;
      assert Leads(Obj(m), [k] + rest, leaf);
    }
  }

  lemma {:induction false} ElemSpells(h: Host, path: seq<string>, es: seq<Json>, t: string)
    ensures SomeLeafSpells(h, path, Arr(es), t) <==> exists i :: 0 <= i < |es| && SomeLeafSpells(h, path, es[i], t)
  {
    if SomeLeafSpells(h, path, Arr(es), t) {
      var keys, leaf :| Leads(Arr(es), keys, leaf) && Spelled(h, path, keys, leaf, t);
      var i :| 0 <= i < |es| && Leads(es[i], keys, leaf);
      assert SomeLeafSpells(h, path, es[i], t);
    }
    if i :| 0 <= i < |es| && SomeLeafSpells(h, path, es[i], t) {
      var keys, leaf :| Leads(es[i], keys, leaf) && Spelled(h, path, keys, leaf, t);
      assert Leads(Arr(es), keys, leaf);
    }
  }

  lemma {:induction false} ValueTermsSpelled(h: Host, path: seq<string>, v: Json, t: string)
    ensures t in ValueTerms(h, path, v) <==> SomeLeafSpells(h, path, v, t)
    decreases v
  {
    match v
    case Obj(m) =>
      FieldSpells(h, path, m, t);
      forall k | k in m ensures t in ValueTerms(h, path + [k], m[k]) <==> SomeLeafSpells(h, path + [k], m[k], t) {
        ValueTermsSpelled(h, path + [k], m[k], t);
      }
    case Arr(es) =>
      ElemSpells(h, path, es, t);
      forall i | 0 <= i < |es| ensures t in ValueTerms(h, path, es[i]) <==> SomeLeafSpells(h, path, es[i], t) {
        ValueTermsSpelled(h, path, es[i], t);
      }
    case _ =>
      LeafSpelled(h, path, v, t);
      assert Leads(v, [], v);
  }

  /**
   The document has a scalar leaf, at the end of a path whose last key is k, such that t is the leaf's
   printed form, if not empty, or k, a colon and the printed form.
   */
  ghost predicate Carries(h: Host, doc: Doc, t: string) {
    doc.Object? &&
    exists keys, leaf, text :: keys != [] && Leads(Obj(doc.fields), keys, leaf) && Prints(h, leaf, text) &&
      ((t == text && t != "") || t == keys[|keys| - 1] + ":" + text)
  }

  /** The extracted terms are exactly those the document's leaves spell. */
  lemma {:induction false} TermsSpelled(h: Host, doc: Doc, t: string)
    ensures t in Terms(h, doc) <==> Carries(h, doc, t)
  {
    if doc.Object? {
      var v := Obj(doc.fields);
      ValueTermsSpelled(h, [], v, t);
      if SomeLeafSpells(h, [], v, t) {
        var keys, leaf :| Leads(v, keys, leaf) && Spelled(h, [], keys, leaf, t);
        var text :| Prints(h, leaf, text) &&
                    ((t == text && t != "") || exists k :: EndsIn([], keys, k) && t == k + ":" + text);
        assert keys != [];
      }
      if Carries(h, doc, t) {
        var keys, leaf, text :| keys != [] && Leads(v, keys, leaf) && Prints(h, leaf, text) &&
                                ((t == text && t != "") || t == keys[|keys| - 1] + ":" + text);
        assert EndsIn([], keys, keys[|keys| - 1]);
        assert Spelled(h, [], keys, leaf, t);
      }
    }
  }

  /** The number is a leaf of the value at the end of a path whose last key is k. */
  ghost predicate SomeLeafIs(path: seq<string>, v: Json, k: string, x: Float) {
    exists keys :: Leads(v, keys, Num(x)) && EndsIn(path, keys, k)
  }

  lemma {:induction false} FieldIs(path: seq<string>, m: map<string, Json>, last: string, x: Float)
    ensures SomeLeafIs(path, Obj(m), last, x) <==> exists k :: k in m && SomeLeafIs(path + [k], m[k], last, x)
  {
    if SomeLeafIs(path, Obj(m), last, x) {
      var keys :| Leads(Obj(m), keys, Num(x)) && EndsIn(path, keys, last);
      assert keys == [keys[0]] + keys[1..];
      EndsInside(path, keys[0], keys[1..], last);
      assert SomeLeafIs(path + [keys[0]], m[keys[0]], last, x);
    }
    if k :| k in m && SomeLeafIs(path + [k], m[k], last, x) {
      var rest :| Leads(m[k], rest, Num(x)) && EndsIn(path + [k], rest, last);
      EndsInside(path, k, rest, last);
      assert ([k] + rest)[1..] == rest;
      assert Leads(Obj(m), [k] + rest, Num(x));
    }
  }

  lemma {:induction false} ElemIs(path: seq<string>, es: seq<Json>, last: string, x: Float)
    ensures SomeLeafIs(path, Arr(es), last, x) <==> exists i :: 0 <= i < |es| && SomeLeafIs(path, es[i], last, x)
  {
    if SomeLeafIs(path, Arr(es), last, x) {
      var keys :| Leads(Arr(es), keys, Num(x)) && EndsIn(path, keys, last);
      var i :| 0 <= i < |es| && Leads(es[i], keys, Num(x));
      assert SomeLeafIs(path, es[i], last, x);
    }
    if i :| 0 <= i < |es| && SomeLeafIs(path, es[i], last, x) {
      var keys :| Leads(es[i], keys, Num(x)) && EndsIn(path, keys, last);
      assert Leads(Arr(es), keys, Num(x));
    }
  }

  lemma {:induction false} ValueNumsRead(path: seq<string>, v: Json, k: string, x: Float)
    ensures (k, x) in ValueNums(path, v) <==> Finite(x) && SomeLeafIs(path, v, k, x)
    decreases v
  {
    match v
    case Obj(m) =>
      FieldIs(path, m, k, x);
      forall j | j in m ensures (k, x) in ValueNums(path + [j], m[j]) <==>
            Finite(x) && SomeLeafIs(path + [j], m[j], k, x) {
        ValueNumsRead(path + [j], m[j], k, x);
      }
    case Arr(es) =>
      ElemIs(path, es, k, x);
      forall i | 0 <= i < |es| ensures (k, x) in ValueNums(path, es[i]) <==>
            Finite(x) && SomeLeafIs(path, es[i], k, x) {
        ValueNumsRead(path, es[i], k, x);
      }
    case _ =>
      assert Leads(v, [], v);
      if path != [] { assert EndsIn(path, [], path[|path| - 1]); }
  }

  /** The document has the number as a leaf, at the end of a path whose last key is k. */
  ghost predicate HasNumber(doc: Doc, k: string, x: Float) {
    doc.Object? && Finite(x) &&
    exists keys :: keys != [] && Leads(Obj(doc.fields), keys, Num(x)) && keys[|keys| - 1] == k
  }

  /** The numeric contributions are exactly the finite number leaves under their last keys. */
  lemma {:induction false} NumsRead(doc: Doc, k: string, x: Float)
    ensures (k, x) in NumsOf(doc) <==> HasNumber(doc, k, x)
  {
    if doc.Object? {
      ValueNumsRead([], Obj(doc.fields), k, x);
      if HasNumber(doc, k, x) {
        var keys :| keys != [] && Leads(Obj(doc.fields), keys, Num(x)) && keys[|keys| - 1] == k;
        assert EndsIn([], keys, k);
      }
    }
  }

  // ---------- the extractor ----------

  /** The recursive walker: appends to its slices, drops repeats through `seen`. */
  class Walker {
    var terms: seq<string>
    var numerics: seq<(string, Float)>
    var seen: set<string>

    ghost predicate Valid()
      reads this
    {
      seen == Elems(terms) && Distinct(terms)
    }

    constructor ()
      ensures Valid() && terms == [] && numerics == []
    {
      terms, numerics, seen := [], [], {};
    }

    method Emit(s: string)
      requires Valid()
      modifies this`terms, this`seen
      ensures Valid() && seen == old(seen) + (if s == "" then {} else {s})
    {
      if s == "" || s in seen { return; }
      seen := seen + {s};
      terms := terms + [s];
    }

    method EmitLeaf(path: seq<string>, value: string)
      requires Valid()
      modifies this`terms, this`seen
      ensures Valid() && seen == old(seen) + LeafTerms(path, value)
    {
      Emit(value);
      if path != [] {
        Emit(path[|path| - 1] + ":" + value);
      }
    }

    /** Go visits a map in no particular order. */
    method WalkObject(h: Host, path: seq<string>, obj: map<string, Json>)
      requires Valid()
      modifies this
      ensures Valid() && seen == old(seen) + ValueTerms(h, path, Obj(obj))
      ensures Elems(numerics) == old(Elems(numerics)) + ValueNums(path, Obj(obj))
      decreases Obj(obj), 0
    {
      var todo := obj.Keys;
      while todo != {}
        invariant Valid() && todo <= obj.Keys
        invariant seen == old(seen) + FieldTerms(h, path, obj, obj.Keys - todo)
        invariant Elems(numerics) == old(Elems(numerics)) + FieldNums(path, obj, obj.Keys - todo)
      {
        var k :| k in todo;
        WalkValue(h, path + [k], obj[k]);
        todo := todo - {k};
      }
      assert obj.Keys - todo == obj.Keys;
    }

    method WalkArray(h: Host, path: seq<string>, es: seq<Json>)
      requires Valid()
      modifies this
      ensures Valid() && seen == old(seen) + ValueTerms(h, path, Arr(es))
      ensures Elems(numerics) == old(Elems(numerics)) + ValueNums(path, Arr(es))
      decreases Arr(es), 0
    {
      for n := 0 to |es|
        invariant Valid()
        invariant seen == old(seen) + ElemTerms(h, path, es, n)
        invariant Elems(numerics) == old(Elems(numerics)) + ElemNums(path, es, n)
      {
        WalkValue(h, path, es[n]);
      }
    }

    method WalkValue(h: Host, path: seq<string>, v: Json)
      requires Valid()
      modifies this
      ensures Valid() && seen == old(seen) + ValueTerms(h, path, v)
      ensures Elems(numerics) == old(Elems(numerics)) + ValueNums(path, v)
      decreases v, 1
    {
      match v
      case Null =>
      case Bool(b) => EmitLeaf(path, BoolText(b));
      case Str(s) => EmitLeaf(path, s);
      case Num(f) =>
        EmitLeaf(path, h.formatFloat(f));
        if Finite(f) && path != [] {
          numerics := numerics + [(path[|path| - 1], f)];
        }
      case Arr(es) => WalkArray(h, path, es);
      case Obj(m) => WalkObject(h, path, m);
    }
  }

  /** Extract behind extractTerms: a document that is not a JSON object yields nothing, never an error. */
  method Extract(h: Host, doc: Doc) returns (terms: seq<string>, numerics: seq<(string, Float)>)
    ensures Sorted(terms) && Elems(terms) == Terms(h, doc)
    ensures Elems(numerics) == NumsOf(doc)
  {
    if !doc.Object? {
      return [], [];
    }
    var w := new Walker();
    w.WalkObject(h, [], doc.fields);
    terms := SortStrings(w.terms);
    numerics := w.numerics;
  }

  // ---------- what a document contributes to the field-based indexes ----------

  datatype Event = Event(item: string, kind: string, at: int)

  predicate HasText(doc: Doc, name: string) {
    doc.Object? && name in doc.fields && doc.fields[name].Str?
  }

  /** temporalFields: string "item_id" and "type", and "at" a number or a parseable time. */
  function EventOf(h: Host, doc: Doc): Option<Event> {
    if !HasText(doc, "item_id") || !HasText(doc, "type") || "at" !in doc.fields then None
    else
      var item, kind := doc.fields["item_id"].text, doc.fields["type"].text;
      match doc.fields["at"]
      case Num(f) => Some(Event(item, kind, h.toInt64(f)))
      case Str(s) =>
        (match h.parseTime(s)
         case Some(at) => Some(Event(item, kind, at))
         case None => None)
      case _ => None
  }

  /** closureParent: a non-empty string "parent". */
  function ParentOf(doc: Doc): Option<string> {
    if HasText(doc, "parent") && doc.fields["parent"].text != "" then Some(doc.fields["parent"].text) else None
  }

  predicate Scalar(v: Json) { v.Str? || v.Bool? || v.Num? }

  function ScalarText(h: Host, v: Json): string
    requires Scalar(v)
  {
    match v
    case Str(s) => s
    case Bool(b) => BoolText(b)
    case Num(f) => h.formatFloat(f)
  }

  /** groupByFields: every scalar field but "item_id", stringified; nothing without a string "item_id". */
  function ScalarsOf(h: Host, doc: Doc): map<string, string> {
    if !HasText(doc, "item_id") then map[]
    else map a | a in doc.fields && a != "item_id" && Scalar(doc.fields[a]) :: ScalarText(h, doc.fields[a])
  }

  function ItemOf(doc: Doc): string
    requires HasText(doc, "item_id")
  {
    doc.fields["item_id"].text
  }

  /** A top-level scalar field always contributes the composite term `name:value`. */
  lemma TopLevelTerm(h: Host, doc: Doc, name: string)
    requires doc.Object? && name in doc.fields && Scalar(doc.fields[name])
    ensures name + ":" + ScalarText(h, doc.fields[name]) in Terms(h, doc)
  {
    var v, t := doc.fields[name], name + ":" + ScalarText(h, doc.fields[name]);
    assert ([] + [name])[|[] + [name]| - 1] == name;
    assert t in ValueTerms(h, [] + [name], v);
    assert t in FieldTerms(h, [], doc.fields, doc.fields.Keys);
  }

  // ---------- the fields, one by one ----------

  /** The document is an object with that value under that name. */
  predicate FieldHas(doc: Doc, name: string, v: Json) {
    doc.Object? && name in doc.fields && doc.fields[name] == v
  }

  /** The time a document's "at" gives: a number converted, or a string that parses. */
  ghost predicate TimeGiven(h: Host, doc: Doc, at: int) {
    || (exists x :: FieldHas(doc, "at", Num(x)) && at == h.toInt64(x))
    || (exists s :: FieldHas(doc, "at", Str(s)) && h.parseTime(s) == Some(at))
  }

  /** The document says that the item had an occurrence of the type at the time. */
  ghost predicate Happens(h: Host, doc: Doc, item: string, kind: string, at: int) {
    FieldHas(doc, "item_id", Str(item)) && FieldHas(doc, "type", Str(kind)) && TimeGiven(h, doc, at)
  }

  /** A document is an event exactly with a string item, a string type and a time; then it is that event. */
  lemma {:induction false} EventRead(h: Host, doc: Doc, item: string, kind: string, at: int)
    ensures EventOf(h, doc) == Some(Event(item, kind, at)) <==> Happens(h, doc, item, kind, at)
  {
    if doc.Object? && "at" in doc.fields {
      var v := doc.fields["at"];
      if v.Num? { assert FieldHas(doc, "at", Num(v.num)); }
      if v.Str? { assert FieldHas(doc, "at", Str(v.text)); }
    }
  }

  /** A document's parent is its "parent" string, unless that is empty. */
  lemma ParentRead(doc: Doc, p: string)
    ensures ParentOf(doc) == Some(p) <==> FieldHas(doc, "parent", Str(p)) && p != ""
  {
  }

  /** The grouped attributes are the other scalar fields of a document with a string item, printed. */
  lemma {:induction false} ScalarRead(h: Host, doc: Doc, attr: string, text: string)
    ensures attr in ScalarsOf(h, doc) && ScalarsOf(h, doc)[attr] == text <==>
              && (exists item :: FieldHas(doc, "item_id", Str(item))) && attr != "item_id"
              && (exists v :: FieldHas(doc, attr, v) && Prints(h, v, text))
  {
    if HasText(doc, "item_id") {
      assert FieldHas(doc, "item_id", Str(doc.fields["item_id"].text));
      if attr in doc.fields { assert FieldHas(doc, attr, doc.fields[attr]); }
    }
  }
}
