/**
 The structured query composer: index anchors narrow the candidates, then every clause is evaluated on
 each candidate (bboltstore/query.go).
 */
module Queries {
  import opened Order
  import opened Float64
  import opened Documents
  import opened Numeric
  import opened Engine
  import opened Runs
  import opened Stores

  /**
   A variable (non-empty name), a literal (anything but Null), or neither: a wildcard. A literal of Go type
   int or int64 compares as the number it converts to but prints its own digits, kept in `digits`.
   */
  datatype Term = Term(name: string, literal: Json, digits: Option<string>)

  datatype Clause =
    | Pattern(entity: Term, attr: string, value: Term)
    | Predicate(op: string, left: Term, right: Term)
    | Or(branches: seq<Branch>)
    | Not(body: seq<Clause>)
    | FullText(subject: Term, query: string, field: string)
    | NoClause

  datatype Branch = Branch(clauses: seq<Clause>)

  type Bindings = map<string, Json>
  type Attrs = map<string, Json>

  predicate IsLiteral(t: Term) { t.literal != Null }
  predicate IsVar(t: Term) { t.name != "" }

  // ---------- values ----------

  predicate FloatEq(x: Float, y: Float) { !IsNaN(x) && !IsNaN(y) && Value(x) == Value(y) }

  /** equalQueryValues; two lists or two objects are never equal here (comparing them panics in Go). */
  predicate EqualValues(a: Json, b: Json) {
    match (a, b)
    case (Null, Null) => true
    case (Bool(x), Bool(y)) => x == y
    case (Str(x), Str(y)) => x == y
    case (Num(x), Num(y)) => FloatEq(x, y)
    case _ => false
  }

  predicate Contains(s: string, part: string) {
    exists i :: 0 <= i <= |s| && part <= s[i..]
  }

  predicate Compare(op: string, l: Float, r: Float) {
    if op == "<" then Value(l) < Value(r)
    else if op == "<=" then Value(l) <= Value(r)
    else if op == ">" then Value(l) > Value(r)
    else Value(l) >= Value(r)
  }

  /** evalQueryPredicate. */
  predicate EvalPredicate(op: string, left: Json, right: Json) {
    if op == "==" then EqualValues(left, right)
    else if op == "!=" then !EqualValues(left, right)
    else if op in ["<", "<=", ">", ">="] then
      left.Num? && right.Num? && !IsNaN(left.num) && !IsNaN(right.num) && Compare(op, left.num, right.num)
    else if op == "starts_with" then left.Str? && right.Str? && right.text <= left.text
    else if op == "ends_with" then
      left.Str? && right.Str? && |right.text| <= |left.text| && left.text[|left.text| - |right.text|..] == right.text
    else op == "contains" && left.Str? && right.Str? && Contains(left.text, right.text)
  }

  function Resolve(t: Term, b: Bindings): Json {
    if IsVar(t) then (if t.name in b then b[t.name] else Null) else t.literal
  }

  predicate TextMatches(h: Host, v: Json, query: string) {
    v.Str? && Contains(h.lower(v.text), h.lower(query))
  }

  predicate FullTextMatches(h: Host, query: string, field: string, attrs: Attrs) {
    query != "" &&
    if field != "" then field in attrs && TextMatches(h, attrs[field], query)
    else exists a :: a in attrs && TextMatches(h, attrs[a], query)
  }

  // ---------- the pure evaluator: the bindings a clause list leaves, or None when it does not match ----------

  function All(h: Host, cs: seq<Clause>, attrs: Attrs, b: Bindings): Option<Bindings>
    decreases cs
  {
    if cs == [] then Some(b)
    else
      match One(h, cs[0], attrs, b)
      case Some(b') => All(h, cs[1..], attrs, b')
      case None => None
  }

  function One(h: Host, c: Clause, attrs: Attrs, b: Bindings): Option<Bindings>
    decreases c
  {
    match c
    case Pattern(_, attr, value) => Pat(attr, value, attrs, b)
    case Predicate(op, l, r) => if EvalPredicate(op, Resolve(l, b), Resolve(r, b)) then Some(b) else None
    case Or(branches) => First(h, branches, attrs, b)
    case Not(body) => if All(h, body, attrs, b).None? then Some(b) else None
    case FullText(_, q, field) => if FullTextMatches(h, q, field, attrs) then Some(b) else None
    case NoClause => None
  }

  function Pat(attr: string, value: Term, attrs: Attrs, b: Bindings): Option<Bindings> {
    if attr == "" || attr !in attrs then None
    else if IsLiteral(value) then (if EqualValues(attrs[attr], value.literal) then Some(b) else None)
    else if IsVar(value) then
      if value.name !in b then Some(b[value.name := attrs[attr]])
      else if EqualValues(b[value.name], attrs[attr]) then Some(b) else None
    else Some(b)
  }

  /** The first branch that matches, each tried from the same bindings. */
  function First(h: Host, bs: seq<Branch>, attrs: Attrs, b: Bindings): Option<Bindings>
    decreases bs
  {
    if bs == [] then None
    else
      var r := All(h, bs[0].clauses, attrs, b);
      if r.Some? then r else First(h, bs[1..], attrs, b)
  }

  ghost predicate Grows(b: Bindings, b': Bindings) {
    b.Keys <= b'.Keys && forall k :: k in b ==> b'[k] == b[k]
  }

  /** Matching never rebinds or drops a variable. */
  lemma {:induction false} AllGrows(h: Host, cs: seq<Clause>, attrs: Attrs, b: Bindings)
    ensures All(h, cs, attrs, b).Some? ==> Grows(b, All(h, cs, attrs, b).value)
    decreases cs
  {
    if cs != [] {
      OneGrows(h, cs[0], attrs, b);
      var r := One(h, cs[0], attrs, b);
      if r.Some? { AllGrows(h, cs[1..], attrs, r.value); }
    }
  }

  lemma {:induction false} OneGrows(h: Host, c: Clause, attrs: Attrs, b: Bindings)
    ensures One(h, c, attrs, b).Some? ==> Grows(b, One(h, c, attrs, b).value)
    decreases c
  {
    if c.Or? { FirstGrows(h, c.branches, attrs, b); }
  }

  lemma {:induction false} FirstGrows(h: Host, bs: seq<Branch>, attrs: Attrs, b: Bindings)
    ensures First(h, bs, attrs, b).Some? ==> Grows(b, First(h, bs, attrs, b).value)
    decreases bs
  {
    if bs != [] {
      AllGrows(h, bs[0].clauses, attrs, b);
      FirstGrows(h, bs[1..], attrs, b);
    }
  }

  /** Or answers with the first branch that matches on its own. */
  lemma {:induction false} FirstIsFirst(h: Host, bs: seq<Branch>, attrs: Attrs, b: Bindings)
    ensures First(h, bs, attrs, b).None? <==> forall i :: 0 <= i < |bs| ==> All(h, bs[i].clauses, attrs, b).None?
    ensures First(h, bs, attrs, b).Some? ==>
              exists i :: 0 <= i < |bs| && All(h, bs[i].clauses, attrs, b) == First(h, bs, attrs, b) &&
                          forall j :: 0 <= j < i ==> All(h, bs[j].clauses, attrs, b).None?
    decreases bs
  {
    if bs != [] {
      FirstIsFirst(h, bs[1..], attrs, b);
      assert forall i :: 0 < i < |bs| ==> bs[i] == bs[1..][i - 1];
      if All(h, bs[0].clauses, attrs, b).None? && First(h, bs, attrs, b).Some? {
        var i :| 0 <= i < |bs[1..]| && All(h, bs[1..][i].clauses, attrs, b) == First(h, bs, attrs, b) &&
                 forall j :: 0 <= j < i ==> All(h, bs[1..][j].clauses, attrs, b).None?;
        assert bs[i + 1] == bs[1..][i];
      }
    }
  }

  // ---------- what the clauses mean ----------

  /** The ordering operators compare numbers as their sortable patterns do, the two zeros being equal. */
  lemma {:induction false} OrderingMeans(l: Float, r: Float)
    requires !IsNaN(l) && !IsNaN(r)
    ensures EvalPredicate("<", Num(l), Num(r)) <==> Sortable(l) < Sortable(r) && !(l == NEG_ZERO && r == POS_ZERO)
    ensures EvalPredicate(">", Num(l), Num(r)) <==> Sortable(r) < Sortable(l) && !(r == NEG_ZERO && l == POS_ZERO)
    ensures EvalPredicate("<=", Num(l), Num(r)) <==> Sortable(l) <= Sortable(r) || (l == POS_ZERO && r == NEG_ZERO)
    ensures EvalPredicate(">=", Num(l), Num(r)) <==> Sortable(r) <= Sortable(l) || (r == POS_ZERO && l == NEG_ZERO)
  {
    SortableOrder(l, r);
    SortableOrder(r, l);
    SortableRoundTrip(l);
    SortableRoundTrip(r);
    assert Magnitude(POS_ZERO) == 0 && Magnitude(NEG_ZERO) == 0;
  }

  /** A numeric range is the two comparisons with its bounds. */
  lemma {:induction false} RangeIsComparisons(v: Float, min: Float, max: Float, minEx: bool, maxEx: bool)
    requires !IsNaN(v) && !IsNaN(min) && !IsNaN(max)
    ensures InRange(v, min, max, minEx, maxEx) <==>
              && EvalPredicate(if minEx then ">" else ">=", Num(v), Num(min))
              && EvalPredicate(if maxEx then "<" else "<=", Num(v), Num(max))
  {
  }

  predicate IsNumber(v: Json) { v.Num? && !IsNaN(v.num) }

  lemma OrderingNeedsNumbers(op: string, a: Json, b: Json)
    requires op == "<" || op == "<=" || op == ">" || op == ">="
    requires !IsNumber(a) || !IsNumber(b)
    ensures !EvalPredicate(op, a, b)
  {
  }

  /** The same scalar, or the two zeros; a list, an object or a NaN equals nothing. */
  predicate SameValue(a: Json, b: Json) {
    || (a == b && !a.Arr? && !a.Obj? && (a.Num? ==> IsNumber(a)))
    || (a == Num(POS_ZERO) && b == Num(NEG_ZERO)) || (a == Num(NEG_ZERO) && b == Num(POS_ZERO))
  }

  lemma {:induction false} EqualityMeans(a: Json, b: Json)
    ensures EqualValues(a, b) <==> SameValue(a, b)
    ensures EvalPredicate("==", a, b) <==> SameValue(a, b)
    ensures EvalPredicate("!=", a, b) <==> !SameValue(a, b)
  {
    assert Magnitude(POS_ZERO) == 0 && Magnitude(NEG_ZERO) == 0;
    if a.Num? && b.Num? && a != b && Value(a.num) == Value(b.num) { ValueInjective(a.num, b.num); }
  }

  /** The text operators: a prefix, a suffix, a part. */
  lemma {:induction false} TextMeans(s: string, p: string)
    ensures EvalPredicate("starts_with", Str(s), Str(p)) <==> exists rest :: s == p + rest
    ensures EvalPredicate("ends_with", Str(s), Str(p)) <==> exists rest :: s == rest + p
    ensures EvalPredicate("contains", Str(s), Str(p)) <==> HasPart(s, p)
  {
    PrefixMeans(s, p);
    SuffixMeans(s, p);
    ContainsPart(s, p);
  }

  lemma PrefixMeans(s: string, p: string)
    ensures p <= s <==> exists rest :: s == p + rest
  {
    if p <= s { assert s == p + s[|p|..]; }
  }

  lemma SuffixMeans(s: string, p: string)
    ensures |p| <= |s| && s[|s| - |p|..] == p <==> exists rest :: s == rest + p
  {
    if |p| <= |s| && s[|s| - |p|..] == p { assert s == s[..|s| - |p|] + p; }
  }

  lemma TextNeedsStrings(op: string, a: Json, b: Json)
    requires op == "starts_with" || op == "ends_with" || op == "contains"
    requires !a.Str? || !b.Str?
    ensures !EvalPredicate(op, a, b)
  {
  }

  lemma UnknownOperator(op: string, a: Json, b: Json)
    requires op !in ["==", "!=", "<", "<=", ">", ">=", "starts_with", "ends_with", "contains"]
    ensures !EvalPredicate(op, a, b)
  {
  }

  ghost predicate HasPart(s: string, part: string) {
    exists before, after :: s == before + part + after
  }

  lemma {:induction false} ContainsPart(s: string, part: string)
    ensures Contains(s, part) <==> HasPart(s, part)
  {
    if Contains(s, part) {
      var i :| 0 <= i <= |s| && part <= s[i..];
      PartAt(s, part, i);
    }
    if HasPart(s, part) {
      var before, after :| s == before + part + after;
      AfterPart(before, part, after);
    }
  }

  lemma PartAt(s: string, part: string, i: int)
    requires 0 <= i <= |s| && part <= s[i..]
    ensures s == s[..i] + part + s[i..][|part|..]
  {
  }

  lemma AfterPart(before: string, part: string, after: string)
    ensures part <= (before + part + after)[|before|..]
  {
    assert (before + part + after)[|before|..] == part + after;
  }

  /** Full text: some string field, or the one named, contains the query when both are folded. */
  lemma {:induction false} FullTextMeans(h: Host, query: string, field: string, attrs: Attrs)
    ensures FullTextMatches(h, query, field, attrs) <==>
              query != "" && exists a, s :: (field == "" || a == field) && a in attrs && attrs[a] == Str(s) &&
                                            HasPart(h.lower(s), h.lower(query))
  {
    forall a | a in attrs ensures TextMatches(h, attrs[a], query) <==>
      exists s :: attrs[a] == Str(s) && HasPart(h.lower(s), h.lower(query))
    {
      if attrs[a].Str? { ContainsPart(h.lower(attrs[a].text), h.lower(query)); }
    }
  }

  /** A clause list and its negation never both match, and one of them always does. */
  lemma {:induction false} NotMeans(h: Host, body: seq<Clause>, attrs: Attrs, b: Bindings)
    ensures All(h, [Not(body)], attrs, b).Some? <==> All(h, body, attrs, b).None?
    ensures All(h, [Not(body)], attrs, b).Some? ==> All(h, [Not(body)], attrs, b).value == b
    ensures All(h, [Or([Branch(body), Branch([Not(body)])])], attrs, b).Some?
  {
    var not := Not(body);
    OneClause(h, not, attrs, b);
    var bs := [Branch(body), Branch([not])];
    OneClause(h, Or(bs), attrs, b);
    assert bs[1..] == [Branch([not])] && bs[0].clauses == body;
    assert First(h, bs[1..], attrs, b).Some? <==> All(h, [not], attrs, b).Some?;
  }

  lemma OneClause(h: Host, c: Clause, attrs: Attrs, b: Bindings)
    ensures All(h, [c], attrs, b) == One(h, c, attrs, b)
  {
    assert [c][1..] == [];
  }

  /** What a match says of a pattern in it: the field is there, equal to the literal or to the variable's binding. */
  ghost predicate PatternHolds(c: Clause, attrs: Attrs, b: Bindings)
    requires c.Pattern?
  {
    && c.attr != "" && c.attr in attrs
    && (c.value.literal != Null ==> SameValue(attrs[c.attr], c.value.literal))
    && (c.value.literal == Null && c.value.name != "" ==>
          c.value.name in b && (b[c.value.name] == attrs[c.attr] || SameValue(b[c.value.name], attrs[c.attr])))
  }

  /** Every pattern of a matching list holds under the bindings the match leaves. */
  lemma {:induction false} PatternsHold(h: Host, cs: seq<Clause>, attrs: Attrs, b: Bindings, i: int)
    requires 0 <= i < |cs| && cs[i].Pattern? && All(h, cs, attrs, b).Some?
    ensures PatternHolds(cs[i], attrs, All(h, cs, attrs, b).value)
    decreases cs
  {
    var mid := One(h, cs[0], attrs, b).value;
    if i == 0 {
      AllGrows(h, cs[1..], attrs, mid);
      var c := cs[0];
      EqualityMeans(attrs[c.attr], c.value.literal);
      if IsVar(c.value) && c.value.name in b { EqualityMeans(b[c.value.name], attrs[c.attr]); }
    } else {
      PatternsHold(h, cs[1..], attrs, mid, i - 1);
      assert cs[1..][i - 1] == cs[i];
    }
  }

  /** A variable nothing has bound is nil: it equals no literal and orders with none. */
  lemma {:induction false} UnboundIsNil(h: Host, op: string, x: string, t: Term, attrs: Attrs, b: Bindings)
    requires x != "" && x !in b && t.name == "" && t.literal != Null
    requires op == "==" || op == "<" || op == "<=" || op == ">" || op == ">=" || op == "starts_with" || op == "contains"
    ensures One(h, Predicate(op, Term(x, Null, None), t), attrs, b).None?
  {
    EqualityMeans(Null, t.literal);
  }

  /** Bind a number field to a fresh variable and compare it: the document passes as its number compares. */
  lemma {:induction false} FilterMeans(h: Host, entity: Term, attr: string, x: string, op: string, f: Float, r: Float,
                                       attrs: Attrs, b: Bindings)
    requires attr != "" && attr in attrs && attrs[attr] == Num(f) && x != "" && x !in b
    ensures var variable := Term(x, Null, None);
            var cs := [Pattern(entity, attr, variable), Predicate(op, variable, Term("", Num(r), None))];
            All(h, cs, attrs, b) == if EvalPredicate(op, Num(f), Num(r)) then Some(b[x := Num(f)]) else None
  {
    var p := Pattern(entity, attr, Term(x, Null, None));
    var q := Predicate(op, Term(x, Null, None), Term("", Num(r), None));
    var b' := b[x := Num(f)];
    assert One(h, p, attrs, b) == Some(b');
    assert [p, q][1..] == [q];
    OneClause(h, q, attrs, b');
    assert Resolve(Term(x, Null, None), b') == Num(f) && Resolve(Term("", Num(r), None), b') == Num(r);
  }

  // ---------- the mutating evaluator ----------

  /** A Go map of bindings, shared by reference. */
  class Scope {
    var m: Bindings
    constructor (m: Bindings)
      ensures this.m == m
    {
      this.m := m;
    }
  }

  method MatchAll(h: Host, cs: seq<Clause>, attrs: Attrs, b: Scope) returns (ok: bool)
    modifies b
    ensures ok <==> All(h, cs, attrs, old(b.m)).Some?
    ensures ok ==> b.m == All(h, cs, attrs, old(b.m)).value
    decreases cs, 1
  {
    for n := 0 to |cs|
      invariant All(h, cs[n..], attrs, b.m) == All(h, cs, attrs, old(b.m))
    {
      assert cs[n..][0] == cs[n] && cs[n..][1..] == cs[n + 1..];
      ok := MatchOne(h, cs[n], attrs, b);
      if !ok { return; }
    }
    assert cs[|cs|..] == [];
    ok := true;
  }

  method MatchOne(h: Host, c: Clause, attrs: Attrs, b: Scope) returns (ok: bool)
    modifies b
    ensures ok <==> One(h, c, attrs, old(b.m)).Some?
    ensures ok ==> b.m == One(h, c, attrs, old(b.m)).value
    ensures !ok || c.Not? ==> b.m == old(b.m)   // a failed clause and a negation leak nothing
    decreases c, 1
  {
    match c
    case Pattern(_, attr, value) => ok := MatchPattern(attr, value, attrs, b);
    case Predicate(op, l, r) => ok := EvalPredicate(op, Resolve(l, b.m), Resolve(r, b.m));
    case Or(branches) => ok := MatchOr(h, branches, attrs, b);
    case Not(body) =>
      var scratch := new Scope(b.m);
      var matched := MatchAll(h, body, attrs, scratch);
      ok := !matched;
    case FullText(_, q, field) => ok := MatchFullText(h, q, field, attrs);
    case NoClause => ok := false;
  }

  method MatchPattern(attr: string, value: Term, attrs: Attrs, b: Scope) returns (ok: bool)
    modifies b
    ensures ok <==> Pat(attr, value, attrs, old(b.m)).Some?
    ensures ok ==> b.m == Pat(attr, value, attrs, old(b.m)).value
    ensures !ok ==> b.m == old(b.m)
  {
    if attr == "" || attr !in attrs { return false; }
    var docVal := attrs[attr];
    if IsLiteral(value) { return EqualValues(docVal, value.literal); }
    if IsVar(value) {
      if value.name in b.m { return EqualValues(b.m[value.name], docVal); }
      b.m := b.m[value.name := docVal];
    }
    ok := true;
  }

  method MatchOr(h: Host, bs: seq<Branch>, attrs: Attrs, b: Scope) returns (ok: bool)
    modifies b
    ensures ok <==> First(h, bs, attrs, old(b.m)).Some?
    ensures ok ==> b.m == First(h, bs, attrs, old(b.m)).value
    ensures !ok ==> b.m == old(b.m)
    decreases bs, 0
  {
    for n := 0 to |bs|
      invariant b.m == old(b.m)
      invariant First(h, bs[n..], attrs, b.m) == First(h, bs, attrs, old(b.m))
    {
      assert bs[n..][0] == bs[n] && bs[n..][1..] == bs[n + 1..];
      var scratch := new Scope(b.m);
      var matched := MatchAll(h, bs[n].clauses, attrs, scratch);
      if matched {
        AllGrows(h, bs[n].clauses, attrs, b.m);
        Merge(b, scratch.m);
        return true;
      }
    }
    assert bs[|bs|..] == [];
    ok := false;
  }

  /** Copy back the variables the parent had not bound. */
  method Merge(b: Scope, scratch: Bindings)
    requires Grows(b.m, scratch)
    modifies b
    ensures b.m == scratch
  {
    var todo := scratch.Keys;
    while todo != {}
      invariant todo <= scratch.Keys && Grows(b.m, scratch) && scratch.Keys - todo <= b.m.Keys
    {
      var k :| k in todo;
      if k !in b.m {
        b.m := b.m[k := scratch[k]];
      }
      todo := todo - {k};
    }
    assert scratch.Keys - todo == scratch.Keys;
  }

  method MatchFullText(h: Host, query: string, field: string, attrs: Attrs) returns (ok: bool)
    ensures ok <==> FullTextMatches(h, query, field, attrs)
  {
    if query == "" { return false; }
    if field != "" {
      return field in attrs && TextMatches(h, attrs[field], query);
    }
    var todo := attrs.Keys;
    while todo != {}
      invariant todo <= attrs.Keys
      invariant forall a :: a in attrs && a !in todo ==> !TextMatches(h, attrs[a], query)
    {
      var a :| a in todo;
      if TextMatches(h, attrs[a], query) { return true; }
      todo := todo - {a};
    }
    ok := false;
  }

  // ---------- rows ----------

  type Row = seq<Json>

  function AttrsOf(doc: Doc): Attrs {
    if doc.Object? then doc.fields else map[]
  }

  function RecordId(h: Host, d: string): Json {
    match h.parseInt(d)
    case Some(n) => Num(n)
    case None => Str(d)
  }

  /** Evaluate every clause on one document, from the record-id binding. */
  function Eval(h: Host, where: seq<Clause>, d: string, doc: Doc): Option<Bindings> {
    All(h, where, AttrsOf(doc), map["?e" := RecordId(h, d)])
  }

  /** Every match binds ?e to the document: its id as a number if it reads as one, else as it is. */
  lemma {:induction false} EntityBound(h: Host, where: seq<Clause>, d: string, doc: Doc)
    requires Eval(h, where, d, doc).Some?
    ensures var b := Eval(h, where, d, doc).value;
            && "?e" in b
            && (forall n :: h.parseInt(d) == Some(n) ==> b["?e"] == Num(n))
            && (h.parseInt(d) == None ==> b["?e"] == Str(d))
  {
    AllGrows(h, where, AttrsOf(doc), map["?e" := RecordId(h, d)]);
  }

  function Project(b: Bindings, find: seq<string>): Row {
    seq(|find|, i requires 0 <= i < |find| => if find[i] in b then b[find[i]] else Null)
  }

  /** The bindings of the matching documents of a list, in list order. */
  function MatchesOf(h: Host, docs: map<string, Doc>, ids: seq<string>, where: seq<Clause>): seq<Bindings> {
    if ids == [] then []
    else
      var r := Eval(h, where, ids[0], DocAt(docs, ids[0]));
      (if r.Some? then [r.value] else []) + MatchesOf(h, docs, ids[1..], where)
  }

  function RowsOf(ms: seq<Bindings>, find: seq<string>): seq<Row> {
    seq(|ms|, i requires 0 <= i < |ms| => Project(ms[i], find))
  }

  /** Plain scan: the matches of every live document in docID order. */
  ghost predicate IsScan(h: Host, docs: map<string, Doc>, where: seq<Clause>, ms: seq<Bindings>) {
    forall ids :: Sorted(ids) && Elems(ids) == docs.Keys ==> ms == MatchesOf(h, docs, ids, where)
  }

  /** Row by row and column by column: the binding of the column's variable, nil where there is none. */
  ghost predicate RowsShow(rows: seq<Row>, ms: seq<Bindings>, find: seq<string>) {
    && |rows| == |ms|
    && (forall i :: 0 <= i < |rows| ==> |rows[i]| == |find|)
    && (forall i, j :: 0 <= i < |rows| && 0 <= j < |find| && find[j] in ms[i] ==> rows[i][j] == ms[i][find[j]])
    && (forall i, j :: 0 <= i < |rows| && 0 <= j < |find| && find[j] !in ms[i] ==> rows[i][j] == Null)
  }

  lemma RowsOfShow(ms: seq<Bindings>, find: seq<string>)
    ensures RowsShow(RowsOf(ms, find), ms, find)
  {
  }

  ghost predicate IsRowScan(h: Host, docs: map<string, Doc>, where: seq<Clause>, find: seq<string>, rows: seq<Row>) {
    exists ms :: IsScan(h, docs, where, ms) && RowsShow(rows, ms, find)
  }

  /** There is exactly one plain scan. */
  lemma {:induction false} OneScan(h: Host, docs: map<string, Doc>, where: seq<Clause>) returns (ms: seq<Bindings>)
    ensures forall other :: IsScan(h, docs, where, other) <==> other == ms
  {
    var ids := InByteOrder(docs.Keys);
    ms := MatchesOf(h, docs, ids, where);
    forall others | Sorted(others) && Elems(others) == docs.Keys ensures others == ids {
      SortedUnique(others, ids);
    }
    assert IsScan(h, docs, where, ms);
  }

  /** Leaving out documents that do not match leaves the matches alone. */
  lemma {:induction false} NarrowingKeepsMatches(
      h: Host, docs: map<string, Doc>, few: seq<string>, all: seq<string>, where: seq<Clause>)
    requires Sorted(few) && Sorted(all) && Elems(few) <= Elems(all)
    requires forall d :: d in Elems(all) && d !in Elems(few) ==> Eval(h, where, d, DocAt(docs, d)).None?
    ensures MatchesOf(h, docs, few, where) == MatchesOf(h, docs, all, where)
    decreases |all|
  {
    assert few != [] ==> few[0] in Elems(few);
    if all != [] {
      TailElems(all);
      if few != [] { TailElems(few); }
      assert all[0] in Elems(all);
      if few != [] && few[0] == all[0] {
        NarrowingKeepsMatches(h, docs, few[1..], all[1..], where);
      } else {
        FirstNotIn(few, all);
        NarrowingKeepsMatches(h, docs, few, all[1..], where);
      }
    }
  }

  lemma {:induction false} NarrowingAddsNone(h: Host, docs: map<string, Doc>, few: seq<string>, all: seq<string>,
                                             where: seq<Clause>)
    requires Sorted(few) && Sorted(all) && Elems(few) <= Elems(all)
    ensures |MatchesOf(h, docs, few, where)| <= |MatchesOf(h, docs, all, where)|
    decreases |all|
  {
    assert few != [] ==> few[0] in Elems(few);
    if all != [] {
      TailElems(all);
      if few != [] && few[0] == all[0] {
        TailElems(few);
        NarrowingAddsNone(h, docs, few[1..], all[1..], where);
      } else {
        FirstNotIn(few, all);
        NarrowingAddsNone(h, docs, few, all[1..], where);
      }
    }
  }

  /** Leaving out a document that does match loses a match. */
  lemma {:induction false} NarrowingLosesMatch(h: Host, docs: map<string, Doc>, few: seq<string>, all: seq<string>,
                                               where: seq<Clause>, d: string)
    requires Sorted(few) && Sorted(all) && Elems(few) <= Elems(all)
    requires d in Elems(all) && d !in Elems(few) && Eval(h, where, d, DocAt(docs, d)).Some?
    ensures |MatchesOf(h, docs, few, where)| < |MatchesOf(h, docs, all, where)|
    decreases |all|
  {
    assert few != [] ==> few[0] in Elems(few);
    TailElems(all);
    if few != [] && few[0] == all[0] {
      TailElems(few);
      NarrowingLosesMatch(h, docs, few[1..], all[1..], where, d);
    } else {
      FirstNotIn(few, all);
      if all[0] == d {
        NarrowingAddsNone(h, docs, few, all[1..], where);
      } else {
        NarrowingLosesMatch(h, docs, few, all[1..], where, d);
      }
    }
  }

  lemma FirstNotIn(few: seq<string>, all: seq<string>)
    requires Sorted(few) && Sorted(all) && Elems(few) <= Elems(all) && all != []
    requires few == [] || few[0] != all[0]
    ensures all[0] !in Elems(few)
  {
    forall i | 0 <= i < |few| ensures few[i] != all[0] {
      assert few[0] in Elems(all);
      var k :| 0 <= k < |all| && all[k] == few[0];
      assert Less(all[0], few[0]);
      Irreflexive(all[0]);
      if i > 0 { Transitive(all[0], few[0], few[i]); }
    }
  }

  // ---------- anchors ----------

  predicate IsAnchor(c: Clause) {
    c.Pattern? && c.attr != "" && IsLiteral(c.value)
  }

  /** stringifyQueryValue. */
  function LiteralText(h: Host, t: Term): string {
    if t.digits.Some? then t.digits.value
    else if Scalar(t.literal) then ScalarText(h, t.literal) else h.sprint(t.literal)
  }

  /** composeQueryTerm. */
  function AnchorTerm(h: Host, c: Clause): string
    requires c.Pattern?
  {
    c.attr + ":" + LiteralText(h, c.value)
  }

  /** The stored value and the literal are equal as values and different as text. */
  predicate TextClash(h: Host, c: Clause, doc: Doc)
    requires c.Pattern?
  {
    c.attr in AttrsOf(doc) &&
    var v := AttrsOf(doc)[c.attr];
    EqualValues(v, c.value.literal) && Scalar(v) && ScalarText(h, v) != LiteralText(h, c.value)
  }

  /** The index misses the document: its text clashes, and no other field supplies the anchor's term. */
  ghost predicate Missed(h: Host, c: Clause, doc: Doc) {
    IsAnchor(c) && TextClash(h, c, doc) && AnchorTerm(h, c) !in Terms(h, doc)
  }

  /** Some live document that matches every clause is missed through one of the anchors. */
  ghost predicate Hides(h: Host, docs: map<string, Doc>, where: seq<Clause>) {
    exists d, i :: d in docs && 0 <= i < |where| && Missed(h, where[i], docs[d]) && Eval(h, where, d, docs[d]).Some?
  }

  predicate HasNegativeZero(fields: Attrs) {
    exists a :: a in fields && fields[a] == Num(NEG_ZERO)
  }

  /** The literal prints as a float64 literal of its value would. */
  predicate PrintsAsFloat(h: Host, t: Term) {
    t.digits.Some? ==> t.literal.Num? && t.digits.value == h.formatFloat(t.literal.num)
  }

  /** With no negative zero stored or queried, and integers that print as floats do, nothing is hidden. */
  lemma {:induction false} NoNegativeZeroHidesNothing(h: Host, docs: map<string, Doc>, where: seq<Clause>)
    requires forall d :: d in docs ==> !HasNegativeZero(AttrsOf(docs[d]))
    requires forall i :: 0 <= i < |where| && IsAnchor(where[i]) ==>
               where[i].value.literal != Num(NEG_ZERO) && PrintsAsFloat(h, where[i].value)
    ensures !Hides(h, docs, where)
  {
    forall d, i | d in docs && 0 <= i < |where| ensures !Missed(h, where[i], docs[d]) {
      if Missed(h, where[i], docs[d]) { MissedByNegativeZero(h, where[i], docs[d]); }
    }
  }

  lemma {:induction false} MissedByNegativeZero(h: Host, c: Clause, doc: Doc)
    requires Missed(h, c, doc)
    ensures !PrintsAsFloat(h, c.value) || c.value.literal == Num(NEG_ZERO) || HasNegativeZero(AttrsOf(doc))
  {
    if PrintsAsFloat(h, c.value) {
      ClashIsZero(h, c, doc);
      assert NEG_ZERO in {c.value.literal.num, AttrsOf(doc)[c.attr].num};
    }
  }

  /** A clash with a literal that prints as a float is always between the two zeros. */
  lemma ClashIsZero(h: Host, c: Clause, doc: Doc)
    requires c.Pattern? && TextClash(h, c, doc) && PrintsAsFloat(h, c.value)
    ensures c.value.literal.Num? && AttrsOf(doc)[c.attr].Num?
    ensures {c.value.literal.num, AttrsOf(doc)[c.attr].num} == {POS_ZERO, NEG_ZERO}
  {
    if c.value.literal.Num? {
      ValueInjective(c.value.literal.num, AttrsOf(doc)[c.attr].num);
    }
  }

  /** A document on which an anchor clause holds has the anchor's term, so the index finds it. */
  lemma {:induction false} AnchorFinds(h: Host, c: Clause, doc: Doc, b: Bindings)
    requires IsAnchor(c) && !Missed(h, c, doc)
    requires One(h, c, AttrsOf(doc), b).Some?
    ensures AnchorTerm(h, c) in Terms(h, doc)
  {
    if TextClash(h, c, doc) { return; }
    assert doc.Object? && EqualValues(doc.fields[c.attr], c.value.literal);
    assert ScalarText(h, doc.fields[c.attr]) == LiteralText(h, c.value);
    TopLevelTerm(h, doc, c.attr);
  }

  /** A match of the whole list is a match of each clause, under some bindings. */
  lemma {:induction false} EachMatches(h: Host, cs: seq<Clause>, attrs: Attrs, b: Bindings, i: int)
    requires 0 <= i < |cs| && All(h, cs, attrs, b).Some?
    ensures exists b' :: One(h, cs[i], attrs, b').Some?
    decreases cs
  {
    var r := One(h, cs[0], attrs, b);
    if i > 0 {
      EachMatches(h, cs[1..], attrs, r.value, i - 1);
      assert cs[1..][i - 1] == cs[i];
    }
  }

  ghost predicate HasAnchor(h: Host, c: Clause, doc: Doc) {
    c.Pattern? && AnchorTerm(h, c) in Terms(h, doc)
  }

  ghost function Anchored(h: Host, docs: map<string, Doc>, anchors: seq<Clause>): set<string> {
    set d | d in docs && forall i :: 0 <= i < |anchors| ==> HasAnchor(h, anchors[i], docs[d])
  }

  method CollectAnchors(where: seq<Clause>) returns (out: seq<Clause>)
    ensures forall c :: c in out <==> c in where && IsAnchor(c)
  {
    out := [];
    for n := 0 to |where|
      invariant forall c :: c in out <==> c in where[..n] && IsAnchor(c)
    {
      assert where[..n + 1] == where[..n] + [where[n]];
      var c := where[n];
      if c.Pattern? && c.attr != "" && c.value.literal != Null {
        out := out + [where[n]];
      }
    }
    assert where[..|where|] == where;
  }

  /** intersectSortedQueryIDs. */
  method IntersectSorted(a: seq<string>, b: seq<string>) returns (out: seq<string>)
    requires Sorted(a) && Sorted(b)
    ensures Sorted(out) && Elems(out) == Elems(a) * Elems(b)
  {
    out := [];
    var i, j := 0, 0;
    while i < |a| && j < |b|
      invariant 0 <= i <= |a| && 0 <= j <= |b| && Sorted(out)
      invariant forall x, y :: 0 <= x < |out| && i <= y < |a| ==> Less(out[x], a[y])
      invariant forall x, y :: 0 <= x < i && j <= y < |b| ==> Less(a[x], b[y])
      invariant forall x, y :: i <= x < |a| && 0 <= y < j ==> Less(b[y], a[x])
      invariant Elems(out) == Elems(a[..i]) * Elems(b)
      decreases |a| - i + |b| - j
    {
      ElemsAppend(a, i);
      if Less(a[i], b[j]) {
        NotAmong(a[i], b, j);
        i := i + 1;
      } else if Less(b[j], a[i]) {
        NotAmong(b[j], a, i);
        j := j + 1;
      } else {
        Total(a[i], b[j]);
        assert a[i] in Elems(b);
        ElemsConcat(out, [a[i]]);
        out := out + [a[i]];
        i, j := i + 1, j + 1;
      }
    }
    TailFresh(a, i, b, j);
    assert a == a[..i] + a[i..];
    ElemsConcat(a[..i], a[i..]);
  }

  /** gatherQueryCandidates: one lookup per anchor, intersected; empty as soon as one intersection is. */
  method GatherCandidates(store: Store, anchors: seq<Clause>) returns (out: seq<string>)
    requires Inv(store.host, store.Contents())
    requires anchors != [] && forall i :: 0 <= i < |anchors| ==> IsAnchor(anchors[i])
    ensures Sorted(out) && Elems(out) == Anchored(store.host, store.docs, anchors)
  {
    var h := store.host;
    out := [];
    for n := 0 to |anchors|
      invariant Sorted(out)
      invariant n > 0 ==> Elems(out) == Anchored(h, store.docs, anchors[..n])
    {
      var found := store.Lookup(AnchorTerm(h, anchors[n]));
      var got := SortStrings(found.value);
      AnchoredStep(h, store.docs, anchors, n);
      if n == 0 {
        out := got;
      } else {
        out := IntersectSorted(out, got);
      }
      if out == [] {
        AnchoredEmpty(h, store.docs, anchors, n + 1);
        return;
      }
    }
    assert anchors[..|anchors|] == anchors;
  }

  lemma AnchoredStep(h: Host, docs: map<string, Doc>, anchors: seq<Clause>, n: int)
    requires 0 <= n < |anchors| && forall i :: 0 <= i < |anchors| ==> anchors[i].Pattern?
    ensures n == 0 ==> Anchored(h, docs, anchors[..1]) == Containing(h, docs, AnchorTerm(h, anchors[0]))
    ensures Anchored(h, docs, anchors[..n + 1])
         == Anchored(h, docs, anchors[..n]) * Containing(h, docs, AnchorTerm(h, anchors[n]))
  {
    var more := anchors[..n + 1];
    assert more[n] == anchors[n] && forall i :: 0 <= i < n ==> more[i] == anchors[..n][i];
    if n == 0 { assert anchors[..1][0] == anchors[0]; }
  }

  lemma AnchoredEmpty(h: Host, docs: map<string, Doc>, anchors: seq<Clause>, n: int)
    requires 0 <= n <= |anchors|
    requires Anchored(h, docs, anchors[..n]) == {}
    ensures Anchored(h, docs, anchors) == {}
  {
    assert forall i :: 0 <= i < n ==> anchors[..n][i] == anchors[i];
    assert Anchored(h, docs, anchors) <= Anchored(h, docs, anchors[..n]);
  }

  /** A matching document is always among the candidates. */
  lemma {:induction false} MatchesAreAnchored(h: Host, docs: map<string, Doc>, where: seq<Clause>,
                                              anchors: seq<Clause>, d: string)
    requires !Hides(h, docs, where) && d in docs && Eval(h, where, d, docs[d]).Some?
    requires forall c :: c in anchors <==> c in where && IsAnchor(c)
    ensures d in Anchored(h, docs, anchors)
  {
    forall i | 0 <= i < |anchors| ensures HasAnchor(h, anchors[i], docs[d]) {
      assert anchors[i] in anchors;
      var k :| 0 <= k < |where| && where[k] == anchors[i];
      EachMatches(h, where, AttrsOf(docs[d]), map["?e" := RecordId(h, d)], k);
      var b :| One(h, where[k], AttrsOf(docs[d]), b).Some?;
      AnchorFinds(h, where[k], docs[d], b);
    }
  }

  lemma {:induction false} CandidatesSuffice(h: Host, docs: map<string, Doc>, where: seq<Clause>,
                                             anchors: seq<Clause>, candidates: seq<string>)
    requires !Hides(h, docs, where) && Sorted(candidates)
    requires forall c :: c in anchors <==> c in where && IsAnchor(c)
    requires Elems(candidates) == Anchored(h, docs, anchors)
    ensures IsScan(h, docs, where, MatchesOf(h, docs, candidates, where))
  {
    forall ids | Sorted(ids) && Elems(ids) == docs.Keys
      ensures MatchesOf(h, docs, candidates, where) == MatchesOf(h, docs, ids, where)
    {
      forall d | d in docs && d !in Elems(candidates) ensures Eval(h, where, d, DocAt(docs, d)).None? {
        if Eval(h, where, d, docs[d]).Some? { MatchesAreAnchored(h, docs, where, anchors, d); }
      }
      NarrowingKeepsMatches(h, docs, candidates, ids, where);
    }
  }

  /** A hidden document costs the query a match of the plain scan. */
  lemma {:induction false} HiddenIsLost(h: Host, docs: map<string, Doc>, where: seq<Clause>, anchors: seq<Clause>,
                                        candidates: seq<string>, all: seq<string>)
    requires Hides(h, docs, where) && Sorted(candidates) && Sorted(all) && Elems(all) == docs.Keys
    requires forall c :: c in anchors <==> c in where && IsAnchor(c)
    requires Elems(candidates) == Anchored(h, docs, anchors)
    ensures |MatchesOf(h, docs, candidates, where)| < |MatchesOf(h, docs, all, where)|
  {
    var d, i :| d in docs && 0 <= i < |where| && Missed(h, where[i], docs[d]) && Eval(h, where, d, docs[d]).Some?;
    assert where[i] in anchors;
    var k :| 0 <= k < |anchors| && anchors[k] == where[i];
    assert !HasAnchor(h, anchors[k], docs[d]);
    NarrowingLosesMatch(h, docs, candidates, all, where, d);
  }

  /** One literal pattern on one document with that one field: equal values, different texts, so it is hidden. */
  lemma {:induction false} ClashHides(h: Host, docs: map<string, Doc>, d: string, name: string, v: Json, t: Term)
    requires docs == map[d := Object(map[name := v])] && name != "" && Scalar(v) && IsLiteral(t)
    requires EqualValues(v, t.literal) && ScalarText(h, v) != LiteralText(h, t) &&
             ScalarText(h, v) != name + ":" + LiteralText(h, t)
    ensures var where := [Pattern(Term("?e", Null, None), name, t)];
            Hides(h, docs, where) && Eval(h, where, d, docs[d]).Some?
  {
    var c := Pattern(Term("?e", Null, None), name, t);
    var doc := docs[d];
    var b := map["?e" := RecordId(h, d)];
    assert One(h, c, AttrsOf(doc), b) == Some(b) && [c][1..] == [];
    assert All(h, [c], AttrsOf(doc), b) == All(h, [], AttrsOf(doc), b);
    OneFieldTerms(h, name, v);
    DifferentComposite(name, ScalarText(h, v), LiteralText(h, t));
    assert Missed(h, [c][0], docs[d]);
  }

  lemma OneFieldTerms(h: Host, name: string, v: Json)
    requires Scalar(v)
    ensures Terms(h, Object(map[name := v])) == LeafTerms([name], ScalarText(h, v))
  {
    var m := map[name := v];
    assert [] + [name] == [name];
    assert ValueTerms(h, [], Obj(m)) == FieldTerms(h, [], m, m.Keys);
    assert ValueTerms(h, [name], v) == LeafTerms([name], ScalarText(h, v));
    assert forall k :: k in m ==> k == name;
    forall t | t in ValueTerms(h, [name], v) ensures t in FieldTerms(h, [], m, m.Keys) {
      assert name in m && t in ValueTerms(h, [] + [name], m[name]);
    }
    forall t | t in FieldTerms(h, [], m, m.Keys) ensures t in ValueTerms(h, [name], v) {
    }
  }

  lemma DifferentComposite(name: string, a: string, b: string)
    requires a != b
    ensures name + ":" + a != name + ":" + b
  {
    assert (name + ":" + a)[|name| + 1..] == a && (name + ":" + b)[|name| + 1..] == b;
  }

  /** The candidates' matches, and their rows, are the plain scan's if and only if nothing is hidden. */
  lemma {:induction false} ScanExactly(h: Host, docs: map<string, Doc>, where: seq<Clause>, anchors: seq<Clause>,
                                       candidates: seq<string>, find: seq<string>)
    requires Sorted(candidates) && Elems(candidates) == Anchored(h, docs, anchors)
    requires forall c :: c in anchors <==> c in where && IsAnchor(c)
    ensures var ms := MatchesOf(h, docs, candidates, where);
            && (IsScan(h, docs, where, ms) <==> !Hides(h, docs, where))
            && (IsRowScan(h, docs, where, find, RowsOf(ms, find)) <==> !Hides(h, docs, where))
  {
    var ms := MatchesOf(h, docs, candidates, where);
    if Hides(h, docs, where) {
      var all := InByteOrder(docs.Keys);
      HiddenIsLost(h, docs, where, anchors, candidates, all);
      forall other | IsScan(h, docs, where, other) ensures |other| != |RowsOf(ms, find)| {
        assert other == MatchesOf(h, docs, all, where);
      }
    } else {
      CandidatesSuffice(h, docs, where, anchors, candidates);
      RowsOfShow(ms, find);
    }
  }

  lemma {:induction false} MatchesStep(h: Host, docs: map<string, Doc>, ids: seq<string>, n: int, where: seq<Clause>,
                                       ms: seq<Bindings>)
    requires 0 <= n < |ids|
    ensures ms + MatchesOf(h, docs, ids[n..], where)
         == (match Eval(h, where, ids[n], DocAt(docs, ids[n]))
             case Some(b) => ms + [b]
             case None => ms) + MatchesOf(h, docs, ids[n + 1..], where)
  {
    assert ids[n..][0] == ids[n] && ids[n..][1..] == ids[n + 1..];
  }

  lemma RowsGrow(ms: seq<Bindings>, b: Bindings, find: seq<string>)
    ensures RowsOf(ms + [b], find) == RowsOf(ms, find) + [Project(b, find)]
  {
  }

  /** The candidate loop: raw bindings for aggregates, projected rows otherwise. */
  method EvaluateAll(h: Host, docs: map<string, Doc>, ids: seq<string>, where: seq<Clause>, find: seq<string>)
    returns (matches: seq<Bindings>, rows: seq<Row>)
    ensures matches == MatchesOf(h, docs, ids, where) && rows == RowsOf(matches, find)
  {
    matches, rows := [], [];
    for n := 0 to |ids|
      invariant matches + MatchesOf(h, docs, ids[n..], where) == MatchesOf(h, docs, ids, where)
      invariant rows == RowsOf(matches, find)
    {
      MatchesStep(h, docs, ids, n, where, matches);
      var bindings := new Scope(map["?e" := RecordId(h, ids[n])]);
      var ok := MatchAll(h, where, AttrsOf(DocAt(docs, ids[n])), bindings);
      if ok {
        RowsGrow(matches, bindings.m, find);
        matches, rows := matches + [bindings.m], rows + [Project(bindings.m, find)];
      }
    }
    assert ids[|ids|..] == [];
  }

  /**
   Query without aggregates: None is the missing-anchor error. In every state that keeps the store's
   invariant, narrowing through the index returns exactly the rows of the plain scan, in docID order,
   if and only if no matching document is hidden by a value that prints unlike the literal.
   */
  method Query(store: Store, where: seq<Clause>, find: seq<string>) returns (rows: Option<seq<Row>>)
    requires Inv(store.host, store.Contents())
    ensures rows.None? <==> forall c :: c in where ==> !IsAnchor(c)
    ensures rows.Some? ==>
              (IsRowScan(store.host, store.docs, where, find, rows.value) <==> !Hides(store.host, store.docs, where))
  {
    var anchors := CollectAnchors(where);
    if anchors == [] { return None; }
    assert anchors[0] in anchors;
    var candidates := GatherCandidates(store, anchors);
    var _, out := EvaluateAll(store.host, store.docs, candidates, where, find);
    ScanExactly(store.host, store.docs, where, anchors, candidates, find);
    rows := Some(out);
  }
}
