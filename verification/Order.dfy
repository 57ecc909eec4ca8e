/**
 Byte order on strings: the order of bbolt keys, of `sort.Strings` and of Go's `<` on strings.
 A Go string is a byte string; it is a `string` here, compared character by character.
 */
module Order {

  predicate Less(a: string, b: string) {
    if b == "" then false
    else if a == "" then true
    else a[0] < b[0] || (a[0] == b[0] && Less(a[1..], b[1..]))
  }

  ghost predicate Sorted(s: seq<string>) {
    forall i, j :: 0 <= i < j < |s| ==> Less(s[i], s[j])
  }

  ghost predicate Distinct<T>(s: seq<T>) {
    forall i, j :: 0 <= i < j < |s| ==> s[i] != s[j]
  }

  ghost function Elems<T>(s: seq<T>): set<T> {
    set x | x in s
  }

  lemma ElemsAppend<T>(s: seq<T>, n: int)
    requires 0 <= n < |s|
    ensures Elems(s[..n + 1]) == Elems(s[..n]) + {s[n]}
  {
    assert s[..n + 1] == s[..n] + [s[n]];
  }

  lemma SplitLast<T>(s: seq<T>)
    requires s != []
    ensures s == s[..|s| - 1] + [s[|s| - 1]]
  {
  }

  lemma ElemsConcat<T>(a: seq<T>, b: seq<T>)
    ensures Elems(a + b) == Elems(a) + Elems(b)
  {
  }

  lemma {:induction false} DistinctSize<T>(s: seq<T>)
    requires Distinct(s)
    ensures |Elems(s)| == |s|
    decreases |s|
  {
    if s != [] {
      var init, last := s[..|s| - 1], s[|s| - 1];
      DistinctSize(init);
      SplitLast(s);
      ElemsConcat(init, [last]);
      assert Elems([last]) == {last};
      assert last !in Elems(init);
    }
  }

  lemma SubsetSize<T>(a: set<T>, b: set<T>)
    requires a <= b
    ensures |a| <= |b| && (|a| == |b| ==> a == b) && |b - a| == |b| - |a|
  {
    assert b == a + (b - a);
  }

  /** Strings cut at their first separator: equal strings have equal heads and equal tails. */
  lemma {:induction false} CutEqual(c: char, a: string, x: string, b: string, y: string)
    requires c !in a && c !in b && (x == "" || x[0] == c) && (y == "" || y[0] == c) && a + x == b + y
    ensures a == b && x == y
  {
    assert x != "" ==> (a + x)[|a|] == c;
    assert y != "" ==> (b + y)[|b|] == c;
    assert forall i :: 0 <= i < |a| ==> (a + x)[i] == a[i];
    assert forall i :: 0 <= i < |b| ==> (b + y)[i] == b[i];
    assert |a| == |b|;
    assert (a + x)[|a|..] == x && (b + y)[|b|..] == y;
  }

  lemma {:induction false} SeparatedEqual(c: char, a: string, x: string, b: string, y: string)
    requires c !in a && c !in b && a + [c] + x == b + [c] + y
    ensures a == b && x == y
  {
    assert a + [c] + x == a + ([c] + x) && b + [c] + y == b + ([c] + y);
    CutEqual(c, a, [c] + x, b, [c] + y);
    assert ([c] + x)[1..] == x && ([c] + y)[1..] == y;
  }

  lemma Irreflexive(a: string)
    ensures !Less(a, a)
  {
  }

  lemma Transitive(a: string, b: string, c: string)
    requires Less(a, b) && Less(b, c)
    ensures Less(a, c)
  {
  }

  lemma Asymmetric(a: string, b: string)
    requires Less(a, b)
    ensures !Less(b, a)
  {
    if Less(b, a) {
      Transitive(a, b, a);
      Irreflexive(a);
    }
  }

  lemma Total(a: string, b: string)
    ensures Less(a, b) || a == b || Less(b, a)
  {
    if a != "" && b != "" && a[0] == b[0] {
      Total(a[1..], b[1..]);
      assert a == [a[0]] + a[1..] && b == [b[0]] + b[1..];
    }
  }

  /** Two strictly sorted lists with the same elements are the same list. */
  lemma {:induction false} SortedUnique(a: seq<string>, b: seq<string>)
    requires Sorted(a) && Sorted(b) && Elems(a) == Elems(b)
    ensures a == b
    decreases |a|
  {
    if a == [] {
      assert forall i :: 0 <= i < |b| ==> b[i] in Elems(b);
    } else {
      assert a[0] in Elems(a);
      assert b != [];
      HeadsAgree(a, b);
      TailElems(a);
      TailElems(b);
      SortedUnique(a[1..], b[1..]);
      assert a == [a[0]] + a[1..] && b == [b[0]] + b[1..];
    }
  }

  lemma HeadsAgree(a: seq<string>, b: seq<string>)
    requires a != [] && b != [] && Sorted(a) && Sorted(b) && Elems(a) == Elems(b)
    ensures a[0] == b[0]
  {
    assert a[0] in Elems(b) && b[0] in Elems(a);
    var i :| 0 <= i < |b| && b[i] == a[0];
    var j :| 0 <= j < |a| && a[j] == b[0];
    if i != 0 && j != 0 {
      assert Less(b[0], b[i]) && Less(a[0], a[j]);
      Asymmetric(a[0], b[0]);
    }
  }

  lemma TailElems(a: seq<string>)
    requires a != [] && Sorted(a)
    ensures Elems(a[1..]) == Elems(a) - {a[0]} && Sorted(a[1..])
  {
    Irreflexive(a[0]);
    forall x | x in a[1..] ensures x in a && x != a[0] {
      var i :| 0 <= i < |a[1..]| && a[1..][i] == x;
      assert a[i + 1] == x && Less(a[0], a[i + 1]);
    }
    forall x | x in a && x != a[0] ensures x in a[1..] {
      var i :| 0 <= i < |a| && a[i] == x;
      assert a[1..][i - 1] == x;
    }
  }

  /** A key never precedes one of its own prefixes. */
  lemma PrefixNotAfter(p: string, k: string)
    requires p <= k
    ensures !Less(k, p)
    decreases p
  {
    if p != "" {
      assert k[0] == p[0] && p[1..] <= k[1..];
      PrefixNotAfter(p[1..], k[1..]);
    }
  }

  /**
   The keys with a given prefix are contiguous: once a cursor positioned at or past `p` meets a
   key without the prefix, no later key has it.
   */
  lemma {:induction false} PrefixBlock(p: string, k: string, later: string)
    requires !Less(k, p) && !(p <= k) && Less(k, later)
    ensures !(p <= later)
    decreases p
  {
    if p <= later {
      assert p != "" && later != "";
      assert later[0] == p[0];
      if k != "" && k[0] == p[0] {
        assert p[1..] <= later[1..];
        assert p == [p[0]] + p[1..] && k == [k[0]] + k[1..];
        assert p[1..] <= k[1..] ==> p <= k;
        PrefixBlock(p[1..], k[1..], later[1..]);
      }
    }
  }

  /** Past the seek position no key precedes the one sought. */
  lemma NotBefore(keys: seq<string>, p: string, start: int, n: int)
    requires Sorted(keys) && 0 <= start <= n < |keys| && !Less(keys[start], p)
    ensures !Less(keys[n], p)
  {
    if Less(keys[n], p) && start < n {
      Transitive(keys[start], keys[n], p);
    }
  }

  lemma NotAmong(x: string, s: seq<string>, j: int)
    requires 0 <= j < |s| && Sorted(s) && Less(x, s[j])
    requires forall b :: 0 <= b < j ==> Less(s[b], x)
    ensures x !in s && forall b :: j <= b < |s| ==> Less(x, s[b])
  {
    forall b | 0 <= b < |s| ensures s[b] != x && (j <= b ==> Less(x, s[b])) {
      Irreflexive(x);
      if b > j { Transitive(x, s[j], s[b]); }
    }
  }

  lemma TailFresh(a: seq<string>, i: int, b: seq<string>, j: int)
    requires 0 <= i <= |a| && 0 <= j <= |b| && (i == |a| || j == |b|)
    requires forall x, y :: i <= x < |a| && 0 <= y < j ==> Less(b[y], a[x])
    ensures forall x :: x in a[i..] ==> x !in b
  {
    forall x, y | i <= x < |a| && 0 <= y < |b| ensures a[x] != b[y] {
      Irreflexive(a[x]);
    }
  }

  /** `sort.Strings`, by insertion. */
  method SortStrings(xs: seq<string>) returns (r: seq<string>)
    requires Distinct(xs)
    ensures Sorted(r) && Elems(r) == Elems(xs) && |r| == |xs|
  {
    r := [];
    for n := 0 to |xs|
      invariant |r| == n && Sorted(r)
      invariant Elems(r) == Elems(xs[..n])
    {
      ElemsAppend(xs, n);
      assert xs[n] !in Elems(r);
      r := InsertSorted(r, xs[n]);
    }
    assert xs[..|xs|] == xs;
  }

  method InsertSorted(s: seq<string>, x: string) returns (r: seq<string>)
    requires Sorted(s) && x !in s
    ensures Sorted(r) && Elems(r) == Elems(s) + {x} && |r| == |s| + 1
  {
    var k := 0;
    while k < |s| && Less(s[k], x)
      invariant 0 <= k <= |s|
      invariant forall i :: 0 <= i < k ==> Less(s[i], x)
    {
      k := k + 1;
    }
    r := s[..k] + [x] + s[k..];
    forall i | k <= i < |s| ensures Less(x, s[i]) {
      Total(s[k], x);
      if i > k { Transitive(x, s[k], s[i]); }
    }
    assert s == s[..k] + s[k..];
  }

  /** Every set of keys has its list in byte order. */
  lemma {:induction false} InByteOrder(keys: set<string>) returns (r: seq<string>)
    ensures Sorted(r) && Elems(r) == keys
    decreases keys
  {
    r := [];
    if keys != {} {
      var k := Least(keys);
      var rest := InByteOrder(keys - {k});
      r := [k] + rest;
      forall i | 0 <= i < |rest| ensures Less(k, rest[i]) { assert rest[i] in Elems(rest); }
      ElemsConcat([k], rest);
    }
  }

  lemma {:induction false} Least(keys: set<string>) returns (k: string)
    requires keys != {}
    ensures k in keys && forall x :: x in keys && x != k ==> Less(k, x)
    decreases keys
  {
    var first :| first in keys;
    var rest := keys - {first};
    assert keys == rest + {first};
    k := first;
    if rest != {} {
      var m := Least(rest);
      Total(k, m);
      if Less(m, k) {
        k := m;
      } else {
        forall x | x in rest ensures Less(k, x) {
          if x != m { Transitive(k, m, x); }
        }
      }
    }
  }

  /** A bbolt cursor: the keys of a bucket in byte order. */
  method Cursor(keys: set<string>) returns (r: seq<string>)
    ensures Sorted(r) && Elems(r) == keys
  {
    r := [];
    var rest := keys;
    while rest != {}
      invariant Sorted(r) && Elems(r) == keys - rest && rest <= keys
    {
      var k :| k in rest;
      assert k !in r by { assert k !in Elems(r); }
      r := InsertSorted(r, k);
      rest := rest - {k};
    }
  }
}
