/**
 binary64 values as bit patterns (section 3.4 of IEEE 754-2019) and the byte-sortable key encoding
 of the numeric index. Magnitudes are integers in units of 2^-1074, so every finite value, subnormal
 or not, is an integer and the order proof is integer arithmetic. Shifts, complement and xor on 64-bit
 words are written out as arithmetic on 0 .. 2^64 - 1.
 */
module Float64 {
  import opened Order

  const TWO_32: int := 0x1_0000_0000
  const TWO_52: int := 0x10_0000_0000_0000
  const TWO_63: int := 0x8000_0000_0000_0000
  const TWO_64: int := 0x1_0000_0000_0000_0000

  type Float = b: int | 0 <= b < TWO_64
  type Id = n: int | 0 <= n < TWO_32

  const POS_ZERO: Float := 0
  const NEG_ZERO: Float := TWO_63

  predicate Negative(f: Float) { f >= TWO_63 }
  function Payload(f: Float): nat { f % TWO_63 }
  function Exponent(f: Float): nat { Payload(f) / TWO_52 }
  function Mantissa(f: Float): nat { Payload(f) % TWO_52 }
  predicate Finite(f: Float) { Exponent(f) != 2047 }
  predicate IsNaN(f: Float) { Exponent(f) == 2047 && Mantissa(f) != 0 }

  function Pow2(n: nat): nat
    ensures Pow2(n) > 0
  {
    if n == 0 then 1 else 2 * Pow2(n - 1)
  }

  /** |f| in units of 2^-1074. */
  function Magnitude(f: Float): nat {
    if Exponent(f) == 0 then Mantissa(f)
    else (TWO_52 + Mantissa(f)) * Pow2(Exponent(f) - 1)
  }

  /** The value of a finite float in units of 2^-1074; both zeros have value 0. */
  function Value(f: Float): int {
    var m: int := Magnitude(f);
    if Negative(f) then -m else m
  }

  /** The same as a real, still in units of 2^-1074, for exact statistics. */
  function RealValue(f: Float): real { Value(f) as real }

  // ---------- order of magnitudes ----------

  lemma Pow2Monotone(a: nat, b: nat)
    requires a <= b
    ensures Pow2(a) <= Pow2(b)
  {
  }

  lemma ScaledLess(x: nat, y: nat, p: nat)
    requires x < y && p > 0
    ensures x * p < y * p
  {
  }

  lemma ScaledAtMost(x: nat, y: nat, p: nat)
    requires x <= y
    ensures x * p <= y * p && p * x <= p * y
  {
  }

  /** A larger payload is a larger magnitude, across exponents and across the subnormal boundary. */
  lemma {:induction false} MagnitudeMonotone(a: Float, b: Float)
    requires Payload(a) < Payload(b)
    ensures Magnitude(a) < Magnitude(b)
  {
    var ea, eb, ma, mb := Exponent(a), Exponent(b), Mantissa(a), Mantissa(b);
    assert Payload(a) == ea * TWO_52 + ma && Payload(b) == eb * TWO_52 + mb;
    assert ea <= eb;
    if ea == eb {
      assert ma < mb;
      if ea != 0 { ScaledLess(TWO_52 + ma, TWO_52 + mb, Pow2(ea - 1)); }
    } else {
      var pb := Pow2(eb - 1);
      assert Magnitude(b) >= TWO_52 * pb by {
        ScaledAtMost(TWO_52, TWO_52 + mb, pb);
      }
      if ea != 0 {
        var pa := Pow2(ea - 1);
        ScaledLess(TWO_52 + ma, 2 * TWO_52, pa);
        Pow2Monotone(ea, eb - 1);
        ScaledAtMost(2 * pa, pb, TWO_52);
      } else {
        ScaledAtMost(1, pb, TWO_52);
      }
    }
  }

  lemma MagnitudeInjective(a: Float, b: Float)
    requires Magnitude(a) == Magnitude(b)
    ensures Payload(a) == Payload(b)
  {
    if Payload(a) < Payload(b) { MagnitudeMonotone(a, b); }
    if Payload(b) < Payload(a) { MagnitudeMonotone(b, a); }
  }

  /** Equal values are equal bit patterns, except that the two zeros are equal. */
  lemma ValueInjective(a: Float, b: Float)
    requires Value(a) == Value(b) && a != b
    ensures {a, b} == {POS_ZERO, NEG_ZERO}
  {
    if Negative(a) == Negative(b) {
      MagnitudeInjective(a, b);
    } else {
      assert Magnitude(a) == 0 && Magnitude(b) == 0;
      assert Magnitude(POS_ZERO) == 0 && Magnitude(NEG_ZERO) == 0;
      MagnitudeInjective(a, POS_ZERO);
      MagnitudeInjective(b, POS_ZERO);
    }
  }

  // ---------- what the patterns are worth ----------

  lemma {:induction false} Pow2Add(a: nat, b: nat)
    ensures Pow2(a + b) == Pow2(a) * Pow2(b)
    decreases b
  {
    if b > 0 { Pow2Add(a, b - 1); }
  }

  lemma Pow2Of52()
    ensures Pow2(52) == TWO_52
  {
    assert Pow2(13) == 8192 by {
      assert Pow2(4) == 16 && Pow2(8) == 256 && Pow2(12) == 4096;
    }
    Pow2Add(13, 13);
    Pow2Add(26, 26);
  }

  /**
   From zero up, the next pattern is worth one unit in the last place more: 2^-1074 through the subnormals
   and the first binade, twice as much in each binade after that. So the values are those of the format.
   */
  lemma {:induction false} NextValue(f: Float)
    requires f + 1 < TWO_63
    ensures Value(POS_ZERO) == 0
    ensures Value(f + 1) - Value(f) == Pow2(if Exponent(f) <= 1 then 0 else Exponent(f) - 1)
  {
    var e, m := Exponent(f), Mantissa(f);
    assert f == e * TWO_52 + m;
    if m + 1 < TWO_52 {
      assert Exponent(f + 1) == e && Mantissa(f + 1) == m + 1;
      if e > 0 { Distribute(TWO_52 + m, Pow2(e - 1)); }
    } else {
      assert f + 1 == (e + 1) * TWO_52;
      assert Exponent(f + 1) == e + 1 && Mantissa(f + 1) == 0;
      if e > 0 { Carry(Pow2(e - 1)); }
    }
  }

  lemma Distribute(x: int, p: int)
    ensures (x + 1) * p - x * p == p
  {
  }

  lemma Carry(p: int)
    ensures TWO_52 * (2 * p) - (TWO_52 + (TWO_52 - 1)) * p == p
  {
  }

  /** One more in the exponent doubles a normal value. */
  lemma {:induction false} ValueDoubles(f: Float)
    requires !Negative(f) && 1 <= Exponent(f) < 2046
    ensures f + TWO_52 < TWO_63 && Value(f + TWO_52) == 2 * Value(f)
  {
    var e, m := Exponent(f), Mantissa(f);
    assert f == e * TWO_52 + m;
    assert f + TWO_52 == (e + 1) * TWO_52 + m;
    assert Exponent(f + TWO_52) == e + 1 && Mantissa(f + TWO_52) == m;
    DoubleIt(TWO_52 + m, Pow2(e - 1));
  }

  lemma DoubleIt(x: int, p: int)
    ensures x * (2 * p) == 2 * (x * p)
  {
  }

  /** Beyond the largest finite pattern come infinity and then the NaNs, on either side. */
  lemma {:induction false} FiniteMeans(f: Float)
    ensures Finite(f) <==> f % TWO_63 < 0x7FF0_0000_0000_0000
    ensures IsNaN(f) <==> f % TWO_63 > 0x7FF0_0000_0000_0000
  {
    assert Payload(f) == Exponent(f) * TWO_52 + Mantissa(f) && Exponent(f) <= 2047;
    assert 0x7FF0_0000_0000_0000 == 2047 * TWO_52;
  }

  /** The sign bit negates. */
  lemma ValueNegates(f: Float)
    requires !Negative(f)
    ensures Value(f + TWO_63) == -Value(f)
  {
  }

  const ONE: Float := 0x3FF0_0000_0000_0000

  /** In the unit 2^-1074 the pattern of 1.0 is worth 2^1074. */
  lemma {:induction false} ValueOfOne()
    ensures Value(ONE) == Pow2(1074)
  {
    assert ONE == 1023 * TWO_52;
    assert Exponent(ONE) == 1023 && Mantissa(ONE) == 0;
    Pow2Of52();
    Pow2Add(52, 1022);
  }

  // ---------- the sortable transform ----------

  /** Flip every bit of a negative, the sign bit of the rest (numEncode and numEncodeBound). */
  function Sortable(f: Float): (s: Float) {
    if Negative(f) then TWO_64 - 1 - f else f + TWO_63
  }

  function Unsortable(s: Float): (f: Float) {
    if s >= TWO_63 then s - TWO_63 else TWO_64 - 1 - s
  }

  lemma SortableRoundTrip(f: Float)
    ensures Unsortable(Sortable(f)) == f && Sortable(Unsortable(f)) == f
  {
  }

  /**
   The transform is strictly increasing on values; the only pair it separates without a difference in
   value is -0 before +0 (totalOrder, section 5.10 of IEEE 754-2019). Infinities order as the largest
   magnitudes, NaNs beyond them.
   */
  lemma {:induction false} SortableOrder(a: Float, b: Float)
    ensures Sortable(a) < Sortable(b) <==> Value(a) < Value(b) || (a == NEG_ZERO && b == POS_ZERO)
  {
    SignAndPayload(a);
    SignAndPayload(b);
    PayloadOrder(a, b);
    PayloadOrder(b, a);
  }

  lemma SignAndPayload(f: Float)
    ensures f == Payload(f) + if Negative(f) then TWO_63 else 0
    ensures Magnitude(f) == 0 <==> f == POS_ZERO || f == NEG_ZERO
  {
    assert Magnitude(POS_ZERO) == 0;
    if Payload(f) > 0 { MagnitudeMonotone(POS_ZERO, f); }
  }

  lemma PayloadOrder(a: Float, b: Float)
    ensures Payload(a) < Payload(b) <==> Magnitude(a) < Magnitude(b)
  {
    if Payload(a) < Payload(b) {
      MagnitudeMonotone(a, b);
    } else if Payload(b) < Payload(a) {
      MagnitudeMonotone(b, a);
    }
  }

  // ---------- big-endian bytes ----------

  function Pow256(w: nat): nat
    ensures Pow256(w) > 0
  {
    if w == 0 then 1 else 256 * Pow256(w - 1)
  }

  /** binary.BigEndian.PutUint64 / PutUint32: w bytes, most significant first. */
  function BigEndian(n: nat, w: nat): (s: string)
    ensures |s| == w
  {
    if w == 0 then "" else BigEndian(n / 256, w - 1) + [(n % 256) as char]
  }

  /** binary.BigEndian.Uint64 / Uint32. */
  function FromBigEndian(s: string): nat {
    if s == "" then 0 else FromBigEndian(s[..|s| - 1]) * 256 + s[|s| - 1] as int
  }

  lemma {:induction false} BigEndianRoundTrip(n: nat, w: nat)
    requires n < Pow256(w)
    ensures FromBigEndian(BigEndian(n, w)) == n
  {
    if w != 0 {
      var s := BigEndian(n, w);
      BigEndianRoundTrip(n / 256, w - 1);
      assert s[..|s| - 1] == BigEndian(n / 256, w - 1);
    }
  }

  /** Byte order of two keys with same-length heads: heads first, then tails. */
  lemma {:induction false} LessConcat(a: string, x: string, b: string, y: string)
    requires |a| == |b|
    ensures Less(a + x, b + y) <==> Less(a, b) || (a == b && Less(x, y))
  {
    if a == "" {
      assert a + x == x && b + y == y;
    } else {
      assert (a + x)[1..] == a[1..] + x && (b + y)[1..] == b[1..] + y;
      LessConcat(a[1..], x, b[1..], y);
      assert a == [a[0]] + a[1..] && b == [b[0]] + b[1..];
    }
  }

  /** Big-endian bytes of equal width compare as the numbers do. */
  lemma {:induction false} BigEndianOrder(m: nat, n: nat, w: nat)
    requires m < Pow256(w) && n < Pow256(w)
    ensures Less(BigEndian(m, w), BigEndian(n, w)) <==> m < n
    ensures BigEndian(m, w) == BigEndian(n, w) <==> m == n
  {
    BigEndianRoundTrip(m, w);
    BigEndianRoundTrip(n, w);
    if w != 0 {
      BigEndianOrder(m / 256, n / 256, w - 1);
      var cm, cn := [(m % 256) as char], [(n % 256) as char];
      LessConcat(BigEndian(m / 256, w - 1), cm, BigEndian(n / 256, w - 1), cn);
      assert Less(cm, cn) <==> m % 256 < n % 256;
      BigEndianRoundTrip(m / 256, w - 1);
      BigEndianRoundTrip(n / 256, w - 1);
    }
  }

  // ---------- 12-byte keys ----------

  lemma Widths()
    ensures Pow256(8) == TWO_64 && Pow256(4) == TWO_32
  {
    assert Pow256(1) == 256 && Pow256(2) == 0x1_0000 && Pow256(3) == 0x100_0000;
    assert Pow256(4) == TWO_32;
    assert Pow256(5) == 256 * TWO_32 && Pow256(6) == 0x1_0000 * TWO_32 && Pow256(7) == 0x100_0000 * TWO_32;
  }

  /** numEncode: 8 sortable bytes of the value, then 4 bytes of the internal id. */
  function NumKey(f: Float, id: Id): (k: string)
    ensures |k| == 12
  {
    BigEndian(Sortable(f), 8) + BigEndian(id, 4)
  }

  /** decodeFloat on the first 8 bytes. */
  function KeyValue(k: string): Float
    requires |k| == 12 && FromBigEndian(k[..8]) < TWO_64
  {
    Unsortable(FromBigEndian(k[..8]))
  }

  function KeyId(k: string): nat
    requires |k| == 12
  {
    FromBigEndian(k[8..])
  }

  lemma {:induction false} NumKeyRoundTrip(f: Float, id: Id)
    ensures FromBigEndian(NumKey(f, id)[..8]) < TWO_64
    ensures KeyValue(NumKey(f, id)) == f && KeyId(NumKey(f, id)) == id
  {
    Widths();
    BigEndianRoundTrip(Sortable(f), 8);
    BigEndianRoundTrip(id, 4);
    assert NumKey(f, id)[..8] == BigEndian(Sortable(f), 8);
    assert NumKey(f, id)[8..] == BigEndian(id, 4);
    SortableRoundTrip(f);
  }

  lemma NumKeyInjective(f: Float, i: Id, g: Float, j: Id)
    requires NumKey(f, i) == NumKey(g, j)
    ensures f == g && i == j
  {
    NumKeyRoundTrip(f, i);
    NumKeyRoundTrip(g, j);
  }

  /** Keys sort by transformed value, ties by id. */
  lemma {:induction false} NumKeyOrder(f: Float, i: Id, g: Float, j: Id)
    ensures Less(NumKey(f, i), NumKey(g, j)) <==>
              Sortable(f) < Sortable(g) || (f == g && i < j)
  {
    Widths();
    BigEndianOrder(Sortable(f), Sortable(g), 8);
    BigEndianOrder(i, j, 4);
    LessConcat(BigEndian(Sortable(f), 8), BigEndian(i, 4), BigEndian(Sortable(g), 8), BigEndian(j, 4));
    SortableRoundTrip(f);
    SortableRoundTrip(g);
  }
}
