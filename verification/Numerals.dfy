/** Big-endian byte strings as numbers, and the arithmetic of bit slices. */
module Numerals {

  function Pow2(n: nat): (p: nat)
    ensures p > 0
  {
    if n == 0 then 1 else 2 * Pow2(n - 1)
  }

  /** The number a big-endian byte string denotes. */
  function Val(s: seq<bv8>): nat {
    if s == [] then 0 else Val(s[..|s| - 1]) * 256 + s[|s| - 1] as nat
  }

  /** The n-byte big-endian string of v modulo 256^n. */
  function ToBytes(v: nat, n: nat): (s: seq<bv8>)
    ensures |s| == n
  {
    if n == 0 then [] else ToBytes(v / 256, n - 1) + [(v % 256) as bv8]
  }

  /** The `size` bits of a byte string from bit `from` on, counted from its least significant end. */
  function Slice(s: seq<bv8>, from: nat, size: nat): (r: seq<bv8>)
    ensures |r| == (size + 7) / 8
  {
    ToBytes(Val(s) / Pow2(from) % Pow2(size), (size + 7) / 8)
  }

  // ---------- division ----------

  lemma MulStep(a: nat, b: nat, d: nat)
    requires a < b
    ensures a * d + d <= b * d
  {
    assert (b - a - 1) * d >= 0;
    assert b * d == a * d + d + (b - a - 1) * d;
  }

  /** Quotient and remainder are the only such pair. */
  lemma SplitUnique(d: nat, q: nat, r: nat, q': nat, r': nat)
    requires r < d && r' < d && q * d + r == q' * d + r'
    ensures q == q' && r == r'
  {
    if q < q' {
      MulStep(q, q', d);
    } else if q' < q {
      MulStep(q', q, d);
    }
  }

  lemma DivUnique(v: nat, d: nat, q: nat, r: nat)
    requires r < d && v == q * d + r
    ensures v / d == q && v % d == r
  {
    SplitUnique(d, q, r, v / d, v % d);
  }

  lemma Regroup(q: nat, x: nat, y: nat, q2: nat, r2: nat, r: nat)
    requires q == q2 * y + r2 && r2 < y && r < x
    ensures q * x + r == q2 * (x * y) + (r2 * x + r)
    ensures r2 * x + r < x * y
  {
    assert (q2 * y + r2) * x == q2 * (x * y) + r2 * x;
    MulStep(r2, y, x);
  }

  /** Splitting v by x * y: the quotient by x splits by y. */
  lemma DivTwice(v: nat, x: nat, y: nat)
    requires x > 0 && y > 0
    ensures x * y > 0
    ensures v / x / y == v / (x * y)
    ensures v % (x * y) / x == v / x % y
    ensures v % (x * y) % x == v % x
  {
    var q, r := v / x, v % x;
    var q2, r2 := q / y, q % y;
    Regroup(q, x, y, q2, r2, r);
    DivUnique(v, x * y, q2, r2 * x + r);
    DivUnique(r2 * x + r, x, r2, r);
  }

  lemma {:induction false} Pow2Add(a: nat, b: nat)
    ensures Pow2(a + b) == Pow2(a) * Pow2(b)
  {
    if a > 0 {
      Pow2Add(a - 1, b);
      DoubleProduct(Pow2(a - 1), Pow2(b));
    }
  }

  lemma DoubleProduct(x: nat, y: nat)
    ensures 2 * (x * y) == 2 * x * y
  {
  }

  lemma Pow2Small()
    ensures Pow2(0) == 1 && Pow2(1) == 2 && Pow2(2) == 4 && Pow2(3) == 8
    ensures Pow2(4) == 16 && Pow2(5) == 32 && Pow2(6) == 64 && Pow2(7) == 128 && Pow2(8) == 256
  {
  }

  lemma {:induction false} Pow2Monotone(a: nat, b: nat)
    requires a <= b
    ensures Pow2(a) <= Pow2(b)
    decreases b
  {
    if a < b {
      Pow2Monotone(a, b - 1);
    }
  }

  // ---------- bit slices of numbers ----------

  lemma QuotientIsNat(v: nat, d: nat)
    requires d > 0
    ensures v / d >= 0
  {
  }

  function High(v: nat, n: nat): nat {
    QuotientIsNat(v, Pow2(n));
    v / Pow2(n)
  }

  function Low(v: nat, n: nat): nat { v % Pow2(n) }

  /** Shifting and masking compose. */
  lemma ShiftShift(v: nat, a: nat, b: nat)
    ensures v / Pow2(a) / Pow2(b) == v / Pow2(a + b)
  {
    Pow2Add(a, b);
    DivTwice(v, Pow2(a), Pow2(b));
  }

  lemma MaskShift(v: nat, a: nat, b: nat)
    ensures v % Pow2(a + b) / Pow2(a) == v / Pow2(a) % Pow2(b)
  {
    Pow2Add(a, b);
    DivTwice(v, Pow2(a), Pow2(b));
  }

  lemma MaskMask(v: nat, a: nat, b: nat)
    requires a <= b
    ensures v % Pow2(b) % Pow2(a) == v % Pow2(a)
  {
    Pow2Add(a, b - a);
    DivTwice(v, Pow2(a), Pow2(b - a));
  }

  lemma HighHigh(v: nat, a: nat, b: nat)
    ensures High(High(v, a), b) == High(v, a + b)
  {
    ShiftShift(v, a, b);
  }

  lemma HighLow(v: nat, a: nat, b: nat)
    ensures High(Low(v, a + b), a) == Low(High(v, a), b)
  {
    MaskShift(v, a, b);
  }

  lemma LowLow(v: nat, a: nat, b: nat)
    requires a <= b
    ensures Low(Low(v, b), a) == Low(v, a)
  {
    MaskMask(v, a, b);
  }

  /** The slice of a slice is a slice. */
  lemma SliceOfSliceValue(v: nat, a: nat, s1: nat, b: nat, s2: nat)
    requires b + s2 <= s1
    ensures Low(High(Low(High(v, a), s1), b), s2) == Low(High(v, a + b), s2)
  {
    hide High, Low;
    var w := High(v, a);
    assert b + (s1 - b) == s1;
    HighLow(w, b, s1 - b);
    LowLow(High(w, b), s2, s1 - b);
    HighHigh(v, a, b);
  }

  // ---------- byte strings ----------

  lemma {:induction false} ValBound(s: seq<bv8>)
    ensures Val(s) < Pow2(8 * |s|)
  {
    if s != [] {
      var n := |s| - 1;
      ValBound(s[..n]);
      Pow2Add(8 * n, 8);
      Pow2Small();
      assert 8 * n + 8 == 8 * |s|;
    }
  }

  lemma Scale(x: nat, y: nat, z: nat, d: nat)
    ensures (x * y + z) * d == x * (y * d) + z * d
  {
  }

  lemma {:induction false} ValConcat(a: seq<bv8>, b: seq<bv8>)
    ensures Val(a + b) == Val(a) * Pow2(8 * |b|) + Val(b)
  {
    if b == [] {
      assert a + b == a;
    } else {
      var n := |b| - 1;
      ValConcat(a, b[..n]);
      assert (a + b)[..|a + b| - 1] == a + b[..n];
      Pow2Add(8 * n, 8);
      Pow2Small();
      assert 8 * n + 8 == 8 * |b|;
      Scale(Val(a), Pow2(8 * n), Val(b[..n]), 256);
    }
  }

  lemma {:induction false} ToBytesOfVal(s: seq<bv8>)
    ensures ToBytes(Val(s), |s|) == s
  {
    if s != [] {
      var n := |s| - 1;
      ToBytesOfVal(s[..n]);
      DivUnique(Val(s), 256, Val(s[..n]), s[n] as nat);
      assert s == s[..n] + [s[n]];
    }
  }

  lemma {:induction false} ValOfToBytes(v: nat, n: nat)
    requires v < Pow2(8 * n)
    ensures Val(ToBytes(v, n)) == v
  {
    if n > 0 {
      Pow2Add(8 * (n - 1), 8);
      Pow2Small();
      assert 8 * (n - 1) + 8 == 8 * n;
      hide Pow2;
      ValOfToBytes(v / 256, n - 1);
      ValPush(ToBytes(v / 256, n - 1), (v % 256) as bv8);
      ByteRoundTrip(v % 256);
    }
  }

  lemma ValPush(s: seq<bv8>, b: bv8)
    ensures Val(s + [b]) == Val(s) * 256 + b as nat
  {
    assert (s + [b])[..|s|] == s;
  }

  /** Every number below 256 is the value of a byte. */
  lemma {:induction false} ByteFor(x: nat) returns (b: bv8)
    requires x < 256
    ensures b as nat == x
  {
    if x == 0 {
      b := 0;
    } else {
      var c := ByteFor(x - 1);
      assert c != 0xFF;
      b := c + 1;
    }
  }

  lemma ByteBack(b: bv8)
    ensures (b as nat) as bv8 == b
  {
  }

  lemma ByteRoundTrip(x: nat)
    requires x < 256
    ensures (x as bv8) as nat == x
  {
    var b := ByteFor(x);
    ByteBack(b);
  }

  /** Byte strings of one length are determined by their value. */
  lemma SameValueSameBytes(s: seq<bv8>, t: seq<bv8>)
    requires |s| == |t| && Val(s) == Val(t)
    ensures s == t
  {
    ToBytesOfVal(s);
    ToBytesOfVal(t);
  }

  lemma SliceValue(s: seq<bv8>, from: nat, size: nat)
    ensures Val(Slice(s, from, size)) == Val(s) / Pow2(from) % Pow2(size)
  {
    Pow2Monotone(size, 8 * ((size + 7) / 8));
    ValOfToBytes(Val(s) / Pow2(from) % Pow2(size), (size + 7) / 8);
  }

  /** Nested slices fuse: cutting inside a cut is one cut. */
  lemma SliceOfSlice(s: seq<bv8>, a: nat, s1: nat, b: nat, s2: nat)
    requires b + s2 <= s1
    ensures Slice(Slice(s, a, s1), b, s2) == Slice(s, a + b, s2)
  {
    SliceValue(s, a, s1);
    SliceOfSliceValue(Val(s), a, s1, b, s2);
  }

  /** Whole bytes: the middle part of a byte string is a slice of it. */
  lemma MiddleIsSlice(s: seq<bv8>, from: nat, size: nat)
    requires from + size <= |s|
    ensures s[|s| - (from + size)..|s| - from] == Slice(s, 8 * from, 8 * size)
    ensures Val(s[|s| - (from + size)..|s| - from]) == Val(s) / Pow2(8 * from) % Pow2(8 * size)
  {
    var hi, mid, lo := s[..|s| - (from + size)], s[|s| - (from + size)..|s| - from], s[|s| - from..];
    assert s == hi + mid + lo;
    ValConcat(hi + mid, lo);
    ValConcat(hi, mid);
    ValBound(lo);
    ValBound(mid);
    DivUnique(Val(s), Pow2(8 * from), Val(hi + mid), Val(lo));
    DivUnique(Val(hi + mid), Pow2(8 * size), Val(hi), Val(mid));
    SliceValue(s, 8 * from, 8 * size);
    SameValueSameBytes(mid, Slice(s, 8 * from, 8 * size));
  }
}
