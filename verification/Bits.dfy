/** Shifts and masks on integers.  They are written as recursions on the number of bits, so that
    facts about them need linear arithmetic only; ShiftIsArithmetic ties them to powers of two. */
module Shifts {

  function Pow2(n: nat): (r: nat)
    ensures r > 0
  {
    if n == 0 then 1 else 2 * Pow2(n - 1)
  }

  /** x << k */
  function Shl(x: int, k: nat): (r: int)
    ensures x >= 0 ==> r >= 0
  {
    if k == 0 then x else 2 * Shl(x, k - 1)
  }

  /** x >> k; on negative numbers the sign is kept */
  function Shr(x: int, k: nat): (r: int)
    ensures x >= 0 ==> r >= 0
  {
    if k == 0 then x else Shr(x, k - 1) / 2
  }

  /** x & (2^k - 1): the k low-order bits of x (in two's complement) */
  function Low(x: int, k: nat): (r: nat)
    ensures r < Pow2(k)
    decreases k
  {
    if k == 0 then 0 else 2 * Low(x / 2, k - 1) + x % 2
  }

  lemma {:induction false} ShrHead(x: int, k: nat)
    requires k > 0
    ensures Shr(x, k) == Shr(x / 2, k - 1)
  {
    if k > 1 { ShrHead(x, k - 1); }
  }

  lemma {:induction false} ShlAdd(x: int, a: nat, b: nat)
    ensures Shl(Shl(x, a), b) == Shl(x, a + b)
  {
    if b > 0 { ShlAdd(x, a, b - 1); }
  }

  lemma {:induction false} ShlSum(x: int, y: int, k: nat)
    ensures Shl(x + y, k) == Shl(x, k) + Shl(y, k)
  {
    if k > 0 { ShlSum(x, y, k - 1); }
  }

  lemma {:induction false} ShrAdd(x: int, a: nat, b: nat)
    ensures Shr(Shr(x, a), b) == Shr(x, a + b)
  {
    if b > 0 { ShrAdd(x, a, b - 1); }
  }

  /** A number is its high bits followed by its low bits. */
  lemma {:induction false} HighLow(x: int, k: nat)
    ensures x == Shl(Shr(x, k), k) + Low(x, k)
    decreases k
  {
    if k > 0 {
      HighLow(x / 2, k - 1);
      ShrHead(x, k);
    }
  }

  /** ... and only those. */
  lemma {:induction false} HighLowUnique(x: int, k: nat, hi: int, lo: int)
    requires 0 <= lo < Pow2(k) && x == Shl(hi, k) + lo
    ensures Shr(x, k) == hi && Low(x, k) == lo
    decreases k
  {
    if k > 0 {
      assert x / 2 == Shl(hi, k - 1) + lo / 2 && x % 2 == lo % 2;
      HighLowUnique(x / 2, k - 1, hi, lo / 2);
      ShrHead(x, k);
    }
  }

  lemma LowSmall(x: int, k: nat)
    requires 0 <= x < Pow2(k)
    ensures Low(x, k) == x && Shr(x, k) == 0
  {
    ShlZero(k);
    HighLowUnique(x, k, 0, x);
  }

  lemma {:induction false} ShlZero(k: nat)
    ensures Shl(0, k) == 0
  {
    if k > 0 { ShlZero(k - 1); }
  }

  lemma {:induction false} LowLow(x: int, a: nat, b: nat)
    requires a <= b
    ensures Low(Low(x, b), a) == Low(x, a)
    decreases a
  {
    if a > 0 {
      var l := Low(x, b);
      assert l / 2 == Low(x / 2, b - 1) && l % 2 == x % 2;
      LowLow(x / 2, a - 1, b - 1);
    }
  }

  lemma {:induction false} ShrLow(x: int, a: nat, b: nat)
    ensures Shr(Low(x, a + b), b) == Low(Shr(x, b), a)
    decreases b
  {
    if b > 0 {
      ShrLow(x / 2, a, b - 1);
      ShrHead(x, b);
      ShrHead(Low(x, a + b), b);
    }
  }

  /** Bits above position k do not show in the low k bits. */
  lemma LowIgnoresHigh(x: int, t: int, k: nat)
    ensures Low(x + Shl(t, k), k) == Low(x, k)
  {
    HighLow(x, k);
    ShlSum(Shr(x, k), t, k);
    HighLowUnique(x + Shl(t, k), k, Shr(x, k) + t, Low(x, k));
  }

  lemma {:induction false} ShlBound(x: int, k: nat, n: nat)
    requires 0 <= x < Pow2(n)
    ensures 0 <= Shl(x, k) && Shl(x, k) + Pow2(k) <= Pow2(n + k)
  {
    if k > 0 { ShlBound(x, k - 1, n); }
  }

  lemma {:induction false} ShlOne(k: nat)
    ensures Shl(1, k) == Pow2(k)
  {
    if k > 0 { ShlOne(k - 1); }
  }

  lemma {:induction false} Pow2Monotone(a: nat, b: nat)
    requires a <= b
    ensures Pow2(a) <= Pow2(b)
  {
    if a < b { Pow2Monotone(a, b - 1); }
  }

  lemma ShlOctet(x: int)
    ensures Shl(x, 8) == 256 * x
  {
    assert Shl(x, 1) == 2 * x;
    assert Shl(x, 2) == 2 * Shl(x, 1);
    assert Shl(x, 4) == 4 * Shl(x, 2);
    assert Shl(x, 6) == 4 * Shl(x, 4);
  }

  lemma Octet(x: int)
    ensures Pow2(8) == 256 && Pow2(7) == 128 && Shl(x, 8) == 256 * x && Shr(x, 8) == x / 256 && Low(x, 8) == x % 256
  {
    assert Pow2(8) == 2 * Pow2(7) == 4 * Pow2(6) == 8 * Pow2(5) == 16 * Pow2(4) == 32 * Pow2(3);
    ShlOctet(x);
    ShlOctet(x / 256);
    HighLowUnique(x, 8, x / 256, x % 256);
  }

  /** The shifts in terms of multiplication, floor division and remainder. */
  lemma {:induction false} ShiftIsArithmetic(x: int, k: nat)
    ensures Shl(x, k) == x * Pow2(k) && Shr(x, k) == x / Pow2(k) && Low(x, k) == x % Pow2(k)
  {
    ShlIsMul(x, k);
    ShlIsMul(x / Pow2(k), k);
    HighLowUnique(x, k, x / Pow2(k), x % Pow2(k));
  }

  lemma {:induction false} ShlIsMul(x: int, k: nat)
    ensures Shl(x, k) == x * Pow2(k)
  {
    if k > 0 {
      ShlIsMul(x, k - 1);
      assert 2 * (x * Pow2(k - 1)) == x * (2 * Pow2(k - 1));
    }
  }
}

/** Octets, and the value of a run of consecutive bits (most significant bit first). */
module Bits {
  import opened Shifts

  type byte = x: int | 0 <= x < 256

  /** Bit k of a byte string; bit 0 is the most significant bit of the first byte. */
  function BitAt(p: seq<byte>, k: nat): (b: nat)
    requires k < 8 * |p|
    ensures b <= 1
  {
    Shr(p[k / 8], 7 - k % 8) % 2
  }

  /** The unsigned big-endian number held in bits s .. s+w of p. */
  function Field(p: seq<byte>, s: nat, w: nat): (v: nat)
    requires s + w <= 8 * |p|
    ensures v < Pow2(w)
  {
    if w == 0 then 0 else 2 * Field(p, s, w - 1) + BitAt(p, s + w - 1)
  }

  /** The number of bits of n values of w bits: n * w. */
  function BitCount(n: nat, w: nat): nat
  {
    if n == 0 then 0 else BitCount(n - 1, w) + w
  }

  lemma {:induction false} BitCountIsProduct(n: nat, w: nat)
    ensures BitCount(n, w) == n * w
  {
    if n > 0 {
      BitCountIsProduct(n - 1, w);
      assert (n - 1) * w + w == n * w;
    }
  }

  lemma {:induction false} BitCountAdd(n: nat, m: nat, w: nat)
    ensures BitCount(n + m, w) == BitCount(n, w) + BitCount(m, w)
  {
    if m > 0 { BitCountAdd(n, m - 1, w); }
  }

  lemma BitCountMonotone(n: nat, m: nat, w: nat)
    requires n <= m
    ensures BitCount(n, w) <= BitCount(m, w)
  {
    BitCountAdd(n, m - n, w);
  }

  /** n consecutive fields of w bits, the first one starting at bit s. */
  function Fields(p: seq<byte>, s: nat, w: nat, n: nat): (vals: seq<nat>)
    requires s + BitCount(n, w) <= 8 * |p|
    ensures |vals| == n
  {
    if n == 0 then [] else Fields(p, s, w, n - 1) + [Field(p, s + BitCount(n - 1, w), w)]
  }

  lemma {:induction false} FieldsAt(p: seq<byte>, s: nat, w: nat, n: nat, i: nat)
    requires s + BitCount(n, w) <= 8 * |p| && i < n
    ensures s + BitCount(i, w) + w <= 8 * |p|
    ensures Fields(p, s, w, n)[i] == Field(p, s + BitCount(i, w), w)
  {
    if i < n - 1 { FieldsAt(p, s, w, n - 1, i); }
  }

  /** A long field is a high part followed by a low part. */
  lemma {:induction false} FieldSplit(p: seq<byte>, s: nat, a: nat, b: nat)
    requires s + a + b <= 8 * |p|
    ensures Field(p, s, a + b) == Shl(Field(p, s, a), b) + Field(p, s + a, b)
    ensures Shr(Field(p, s, a + b), b) == Field(p, s, a)
    ensures Low(Field(p, s, a + b), b) == Field(p, s + a, b)
    decreases b
  {
    hide BitAt, Low, Shr;
    if b > 0 {
      FieldSplit(p, s, a, b - 1);
      assert Field(p, s, a + b) == 2 * Field(p, s, a + (b - 1)) + BitAt(p, s + a + b - 1);
    }
    HighLowUnique(Field(p, s, a + b), b, Field(p, s, a), Field(p, s + a, b));
  }

  lemma FieldOne(p: seq<byte>, s: nat)
    requires s < 8 * |p|
    ensures Field(p, s, 1) == BitAt(p, s)
  {
    assert Field(p, s, 1) == 2 * Field(p, s, 0) + BitAt(p, s);
  }

  /** The leading j bits of byte k. */
  lemma {:induction false} ByteHead(p: seq<byte>, k: nat, j: nat)
    requires k < |p| && j <= 8
    ensures Field(p, 8 * k, j) == Shr(p[k], 8 - j)
  {
    if j == 0 {
      Octet(p[k]);
    } else {
      ByteHead(p, k, j - 1);
      assert (8 * k + j - 1) / 8 == k && (8 * k + j - 1) % 8 == j - 1;
      assert Shr(p[k], 8 - (j - 1)) == Shr(p[k], 8 - j) / 2;
      assert Field(p, 8 * k, j) == 2 * Field(p, 8 * k, j - 1) + BitAt(p, 8 * k + j - 1);
    }
  }

  lemma ByteField(p: seq<byte>, k: nat)
    requires k < |p|
    ensures Field(p, 8 * k, 8) == p[k]
  {
    ByteHead(p, k, 8);
    assert Shr(p[k], 0) == p[k];
  }

  /** A field that ends on a byte boundary grows by one base-256 digit per byte. */
  lemma FieldByte(p: seq<byte>, s: nat, w: nat, k: nat)
    requires s + w == 8 * k && k < |p|
    ensures Field(p, s, w + 8) == 256 * Field(p, s, w) + p[k]
  {
    hide *;
    FieldSplit(p, s, w, 8);
    ShlOctet(Field(p, s, w));
    ByteField(p, k);
  }

  /** A field depends only on the bits it spans. */
  lemma {:induction false} FieldFrame(p: seq<byte>, q: seq<byte>, s: nat, t: nat, w: nat)
    requires s + w <= 8 * |p| && t + w <= 8 * |q|
    requires forall i :: s <= i < s + w ==> BitAt(p, i) == BitAt(q, i - s + t)
    ensures Field(p, s, w) == Field(q, t, w)
    decreases w
  {
    if w > 0 { FieldFrame(p, q, s, t, w - 1); }
  }

  /** A field of the middle part of a byte string. */
  lemma FieldInside(pre: seq<byte>, q: seq<byte>, post: seq<byte>, s: nat, w: nat)
    requires s + w <= 8 * |q|
    ensures Field(pre + q + post, 8 * |pre| + s, w) == Field(q, s, w)
  {
    var p := pre + q + post;
    forall i | 8 * |pre| + s <= i < 8 * |pre| + s + w
      ensures BitAt(p, i) == BitAt(q, i - (8 * |pre| + s) + s)
    {
      var j := i - 8 * |pre|;
      assert i / 8 == |pre| + j / 8 && i % 8 == j % 8;
      assert p[|pre| + j / 8] == q[j / 8];
    }
    FieldFrame(p, q, 8 * |pre| + s, s, w);
  }

  /** The same for a run of fields. */
  lemma {:induction false} FieldsInside(pre: seq<byte>, q: seq<byte>, post: seq<byte>, s: nat, w: nat, n: nat)
    requires s + BitCount(n, w) <= 8 * |q|
    ensures Fields(pre + q + post, 8 * |pre| + s, w, n) == Fields(q, s, w, n)
    decreases n
  {
    if n > 0 {
      FieldsInside(pre, q, post, s, w, n - 1);
      FieldInside(pre, q, post, s + BitCount(n - 1, w), w);
    }
  }

  /** The big-endian number of a whole byte string. */
  function NatOf(p: seq<byte>): (v: nat)
  {
    if p == [] then 0 else NatOf(p[..|p| - 1]) * 256 + p[|p| - 1]
  }

  lemma NatOfAppend(p: seq<byte>, b: byte)
    ensures NatOf(p + [b]) == NatOf(p) * 256 + b
  {
    assert (p + [b])[..|p|] == p;
  }

  lemma {:induction false} NatOfField(p: seq<byte>, n: nat)
    requires n <= |p|
    ensures NatOf(p[..n]) == Field(p, 0, 8 * n)
  {
    if n > 0 {
      NatOfField(p, n - 1);
      assert p[..n] == p[..n - 1] + [p[n - 1]];
      NatOfAppend(p[..n - 1], p[n - 1]);
      FieldByte(p, 0, 8 * (n - 1), n - 1);
    }
  }

  lemma NatOfWhole(p: seq<byte>)
    ensures NatOf(p) == Field(p, 0, 8 * |p|) < Pow2(8 * |p|)
  {
    NatOfField(p, |p|);
    assert p[..|p|] == p;
  }

  /** The len low-order bytes of v, most significant first. */
  function BytesOf(v: nat, len: nat): (p: seq<byte>)
    ensures |p| == len
  {
    if len == 0 then [] else BytesOf(v / 256, len - 1) + [v % 256]
  }

  lemma {:induction false} NatOfBytes(v: nat, len: nat)
    requires v < Pow2(8 * len)
    ensures NatOf(BytesOf(v, len)) == v
  {
    if len > 0 {
      var n := 8 * (len - 1);
      assert Pow2(n + 8) == 2 * Pow2(n + 7) == 4 * Pow2(n + 6) == 8 * Pow2(n + 5) == 16 * Pow2(n + 4);
      assert Pow2(n + 4) == 2 * Pow2(n + 3) == 4 * Pow2(n + 2) == 8 * Pow2(n + 1) == 16 * Pow2(n);
      NatOfBytes(v / 256, len - 1);
      NatOfAppend(BytesOf(v / 256, len - 1), v % 256);
    }
  }

  lemma DigitSplit(x: nat, b: byte)
    ensures (x * 256 + b) / 256 == x && (x * 256 + b) % 256 == b
  {
  }

  lemma {:induction false} BytesOfNat(p: seq<byte>)
    ensures BytesOf(NatOf(p), |p|) == p
  {
    if p != [] {
      var q, b := p[..|p| - 1], p[|p| - 1];
      assert p == q + [b];
      BytesOfNat(q);
      DigitSplit(NatOf(q), b);
    }
  }
}
