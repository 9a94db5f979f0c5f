/** The readers of packed values (src/grib_bits_any_endian_omp.cc and
    src/grib_bits_any_endian_simple.h), with the 64-bit accumulators they use. */
module Readers {
  import opened Shifts
  import opened Bits

  // ---------------------------------------------------------------- the accumulator

  /** What is left of x in a 64-bit integer: a signed one (long) or an unsigned one. */
  function Wrap(signed: bool, x: int): int {
    if signed && Low(x, 64) >= Pow2(63) then Low(x, 64) - Pow2(64) else Low(x, 64)
  }

  /** Low bits of a number and of its high-order bytes. */
  lemma LowByte(x: int, b: byte, k: nat)
    requires k >= 8
    ensures Low(256 * x + b, k) == 256 * Low(x, k - 8) + b
  {
    hide Shr, Low;
    HighLow(x, k - 8);
    var h, l := Shr(x, k - 8), Low(x, k - 8);
    ShlOctet(Shl(h, k - 8));
    ShlAdd(h, k - 8, 8);
    Pow2Octet(k - 8);
    HighLowUnique(256 * x + b, k, h, 256 * l + b);
  }

  lemma Pow2Octet(n: nat)
    ensures Pow2(n + 8) == 256 * Pow2(n)
  {
    assert Pow2(n + 4) == 2 * Pow2(n + 3) == 4 * Pow2(n + 2) == 8 * Pow2(n + 1) == 16 * Pow2(n);
    assert Pow2(n + 8) == 2 * Pow2(n + 7) == 4 * Pow2(n + 6) == 8 * Pow2(n + 5) == 16 * Pow2(n + 4);
  }

  /** What 64 bits make of a number: the one that differs by a multiple of 2^64 ... */
  lemma WrapIsLow(signed: bool, x: int)
    ensures Low(Wrap(signed, x), 64) == Low(x, 64)
    ensures exists t :: x == Wrap(signed, x) + Shl(t, 64)
  {
    hide Shl, Shr, Low, Pow2;
    var t := Shr(x, 64);
    HighLow(x, 64);
    if Wrap(signed, x) != Low(x, 64) {
      ShlSum(t, 1, 64);
      ShlOne(64);
      assert x == Wrap(signed, x) + Shl(t + 1, 64);
      LowIgnoresHigh(Wrap(signed, x), t + 1, 64);
    } else {
      LowIgnoresHigh(Wrap(signed, x), t, 64);
    }
  }

  /** ... and is in range. */
  lemma WrapRange(signed: bool, x: int)
    ensures if signed then 0 <= Wrap(signed, x) + Pow2(63) < Pow2(64) else 0 <= Wrap(signed, x) < Pow2(64)
  {
    hide Low;
    assert Pow2(64) == 2 * Pow2(63);
  }

  /** Shifting the accumulator by an octet and or-ing in the next one. */
  lemma WrapStep(signed: bool, x: int, b: byte)
    ensures Wrap(signed, Shl(Wrap(signed, x), 8)) + b == Wrap(signed, 256 * x + b)
  {
    hide Shl, Shr, Low, Pow2;
    var a := Wrap(signed, x);
    StepLow(signed, x, b);
    ShlOctet(a);
    Pow2Octet(55);
    assert Low(Shl(a, 8), 64) == 256 * Low(x, 56);
  }

  lemma StepLow(signed: bool, x: int, b: byte)
    ensures Low(256 * Wrap(signed, x), 64) == 256 * Low(x, 56)
    ensures Low(256 * x + b, 64) == 256 * Low(x, 56) + b
  {
    hide Shl, Shr, Low, Pow2, Wrap;
    var a := Wrap(signed, x);
    WrapIsLow(signed, x);
    LowByte(a, 0, 64);
    LowByte(x, b, 64);
    LowLow(a, 56, 64);
    LowLow(x, 56, 64);
  }

  // ---------------------------------------------------------------- one value

  /** Octets read for a value of w bits at bit s. */
  function Octets(s: nat, w: nat): nat {
    if w == 0 then 0 else (s % 8 + w + 7) / 8
  }

  /** Bits read past the value's end. */
  function Over(s: nat, w: nat): (over: nat)
    ensures over < 8 && (w > 0 ==> s % 8 + w + over == 8 * Octets(s, w))
  {
    if w == 0 then 0 else 8 * Octets(s, w) - s % 8 - w
  }

  /** The value a fast reader produces: the octets touched by the value are accumulated in 64
      bits, the excess is shifted out and the leading bits are masked away. */
  function Read(signed: bool, p: seq<byte>, s: nat, w: nat): nat
    requires s + w <= 8 * |p|
  {
    Low(Shr(Wrap(signed, Field(p, 8 * (s / 8), 8 * Octets(s, w))), Over(s, w)), w)
  }

  /** The value and the bits read past it still fit the accumulator. */
  predicate Fits(s: nat, w: nat) { w + Over(s, w) <= 64 }

  /** Without the accumulator's limit, shift and mask isolate the value. */
  lemma WindowIsField(p: seq<byte>, s: nat, w: nat)
    requires s + w <= 8 * |p|
    ensures Low(Shr(Field(p, 8 * (s / 8), 8 * Octets(s, w)), Over(s, w)), w) == Field(p, s, w)
  {
    hide Shl, Shr, Field;
    if w == 0 { return; }
    hide Low;
    var t, lead := 8 * (s / 8), s % 8;
    FieldSplit(p, t, lead + w, Over(s, w));
    FieldSplit(p, t, lead, w);
  }

  lemma WindowIgnoresHigh(x: int, t: int, over: nat, w: nat, n: nat)
    requires over + w <= n
    ensures Low(Shr(x + Shl(t, n), over), w) == Low(Shr(x, over), w)
  {
    hide Shl, Shr, Low;
    var u := Shl(t, n - over);
    ShlAdd(t, n - over, over);
    HighLow(x, over);
    ShlSum(Shr(x, over), u, over);
    HighLowUnique(x + Shl(t, n), over, Shr(x, over) + u, Low(x, over));
    ShlAdd(t, n - over - w, w);
    LowIgnoresHigh(Shr(x, over), Shl(t, n - over - w), w);
  }

  /** A value that fits is read exactly. */
  lemma ReadExact(signed: bool, p: seq<byte>, s: nat, w: nat)
    requires s + w <= 8 * |p| && Fits(s, w)
    ensures Read(signed, p, s, w) == Field(p, s, w)
  {
    hide Shl, Shr, Low, Field, Wrap;
    var x := Field(p, 8 * (s / 8), 8 * Octets(s, w));
    WrapIsLow(signed, x);
    var t :| x == Wrap(signed, x) + Shl(t, 64);
    WindowIgnoresHigh(Wrap(signed, x), t, Over(s, w), w, 64);
    WindowIsField(p, s, w);
  }

  /** A number with one bit set, out of the accumulator's reach but inside the value. */
  lemma LoneBit(signed: bool, over: nat, w: nat)
    requires 0 < w && 64 < over + w
    ensures Low(Shr(Pow2(over + w - 1), over), w) == Pow2(w - 1)
    ensures Wrap(signed, Pow2(over + w - 1)) == 0
  {
    hide Shl, Shr, Low;
    var x, high := Pow2(over + w - 1), over + w - 1 - 64;
    ShlOne(over + w - 1);
    ShlOne(w - 1);
    ShlAdd(1, w - 1, over);
    HighLowUnique(x, over, Pow2(w - 1), 0);
    LowSmall(Pow2(w - 1), w);
    ShlAdd(1, high, 64);
    HighLowUnique(x, 64, Shl(1, high), 0);
  }

  /** Octets of a number between zero octets. */
  lemma NumberAt(z: nat, x: nat, n: nat, tail: nat) returns (p: seq<byte>)
    requires x < Pow2(8 * n)
    ensures |p| == z + n + tail && Field(p, 8 * z, 8 * n) == x
  {
    hide Field, Pow2;
    var pre, post := seq(z, _ => 0), seq(tail, _ => 0);
    p := pre + BytesOf(x, n) + post;
    NatOfBytes(x, n);
    NatOfWhole(BytesOf(x, n));
    FieldInside(pre, BytesOf(x, n), post, 0, 8 * n);
  }

  /** When a value does not fit, some buffer (as long as you like) is misread: the value's first bit
      is lost. */
  lemma ReadLosesBit(signed: bool, s: nat, w: nat, tail: nat) returns (p: seq<byte>)
    requires !Fits(s, w) && w <= 64
    ensures |p| >= tail && s + w <= 8 * |p| && Read(signed, p, s, w) != Field(p, s, w)
  {
    hide Shl, Shr, Field, Low, Wrap;
    var n, over := Octets(s, w), Over(s, w);
    Pow2Monotone(over + w, 8 * n);
    p := NumberAt(s / 8, Pow2(over + w - 1), n, tail);
    WindowIsField(p, s, w);
    LoneBit(signed, over, w);
    LowSmall(0, over);
    LowSmall(0, w);
  }

  /** Reading a value of w bits at bit s is right for every buffer exactly when it fits. */
  lemma ReadExactIff(signed: bool, s: nat, w: nat)
    requires w <= 64
    ensures (forall p: seq<byte> | s + w <= 8 * |p| :: Read(signed, p, s, w) == Field(p, s, w))
        <==> Fits(s, w)
  {
    hide Read, Field;
    if Fits(s, w) {
      forall p: seq<byte> | s + w <= 8 * |p|
        ensures Read(signed, p, s, w) == Field(p, s, w)
      {
        ReadExact(signed, p, s, w);
      }
    } else {
      var p := ReadLosesBit(signed, s, w, 0);
    }
  }

  /** 57 is the largest width that fits from every bit position. */
  lemma FitsEverywhere(w: nat)
    ensures (forall s: nat :: Fits(s, w)) <==> w <= 57
  {
    if w > 57 {
      var s := 8 * w + 1 - w;
      assert (s + w) % 8 == 1 && (s % 8 + w) % 8 == 1;
      assert Over(s, w) == 7;
      assert !Fits(s, w);
    }
  }

  // ---------------------------------------------------------------- the reading loops

  /** n values of w bits, the first at bit s, as a fast reader produces them. */
  function Reads(signed: bool, p: seq<byte>, s: nat, w: nat, n: nat): (vals: seq<nat>)
    requires s + BitCount(n, w) <= 8 * |p|
    ensures |vals| == n
  {
    if n == 0 then []
    else Reads(signed, p, s, w, n - 1) + [Read(signed, p, s + BitCount(n - 1, w), w)]
  }

  ghost predicate AllFit(s: nat, w: nat, n: nat) {
    forall i :: 0 <= i < n ==> Fits(s + BitCount(i, w), w)
  }

  /** The fast readers refine the bit-by-bit reading wherever the values fit. */
  lemma {:induction false} ReadsExact(signed: bool, p: seq<byte>, s: nat, w: nat, n: nat)
    requires s + BitCount(n, w) <= 8 * |p| && AllFit(s, w, n)
    ensures Reads(signed, p, s, w, n) == Fields(p, s, w, n)
    decreases n
  {
    hide Read, Field, Fits;
    if n > 0 {
      ReadsExact(signed, p, s, w, n - 1);
      ReadExact(signed, p, s + BitCount(n - 1, w), w);
    }
  }

  lemma {:induction false} ReadsAt(signed: bool, p: seq<byte>, s: nat, w: nat, n: nat, i: nat)
    requires s + BitCount(n, w) <= 8 * |p| && i < n
    ensures s + BitCount(i, w) + w <= 8 * |p|
    ensures Reads(signed, p, s, w, n)[i] == Read(signed, p, s + BitCount(i, w), w)
  {
    hide Read;
    if i < n - 1 { ReadsAt(signed, p, s, w, n - 1, i); }
  }

  /** ... and only there: the fast reader agrees with the bit-by-bit one on every buffer exactly when
      every value fits. */
  lemma ReadsExactIff(signed: bool, s: nat, w: nat, n: nat)
    requires w <= 64
    ensures (forall p: seq<byte> | s + BitCount(n, w) <= 8 * |p| ::
               Reads(signed, p, s, w, n) == Fields(p, s, w, n))
        <==> AllFit(s, w, n)
  {
    hide Read, Field, Reads, Fields, Fits;
    if AllFit(s, w, n) {
      forall p: seq<byte> | s + BitCount(n, w) <= 8 * |p|
        ensures Reads(signed, p, s, w, n) == Fields(p, s, w, n)
      {
        ReadsExact(signed, p, s, w, n);
      }
    } else {
      var i :| 0 <= i < n && !Fits(s + BitCount(i, w), w);
      var p := ReadLosesBit(signed, s + BitCount(i, w), w, s + BitCount(n, w));
      ReadsAt(signed, p, s, w, n, i);
      FieldsAt(p, s, w, n, i);
    }
  }

  lemma NarrowFits(s: nat, w: nat, n: nat)
    requires w <= 57
    ensures AllFit(s, w, n)
  {
  }

  /** Decoding is resumable, whatever the bit position where it stops. */
  lemma {:induction false} ReadsResume(signed: bool, p: seq<byte>, s: nat, w: nat, n: nat, m: nat)
    requires s + BitCount(n + m, w) <= 8 * |p|
    ensures BitCount(n + m, w) == BitCount(n, w) + BitCount(m, w)
    ensures Reads(signed, p, s, w, n + m)
         == Reads(signed, p, s, w, n) + Reads(signed, p, s + BitCount(n, w), w, m)
    decreases m
  {
    hide Read;
    BitCountAdd(n, m, w);
    if m > 0 {
      BitCountAdd(n, m - 1, w);
      ReadsResume(signed, p, s, w, n, m - 1);
    }
  }

  /** The position of the readers' byte cursor: pi and usefulBitsInByte say where the next
      value starts (a value of no bits reads nothing, so any cursor serves it). */
  ghost predicate Cursor(pi: int, useful: int, s: nat, w: nat) {
    w > 0 ==> pi == s / 8 && useful == 8 - s % 8
  }

  /** The inner loop: octets are accumulated until at least w bits are read. */
  method ReadOctets(p: seq<byte>, pi0: int, useful0: int, w: nat, signed: bool, ghost s: nat)
    returns (acc: int, pi: int, bitsToRead: int)
    requires s + w <= 8 * |p| && Cursor(pi0, useful0, s, w)
    ensures acc == Wrap(signed, Field(p, 8 * (s / 8), 8 * Octets(s, w)))
    ensures bitsToRead + Over(s, w) == 0
    ensures pi == pi0 + Octets(s, w)
  {
    hide Wrap, Field, Shl;
    ghost var t := s / 8;
    acc, pi, bitsToRead := 0, pi0, w;
    var useful := useful0;
    WrapZero(signed, p, 8 * t);
    while bitsToRead > 0
      invariant 0 <= pi - pi0 <= Octets(s, w)
      invariant w > 0 ==> bitsToRead - useful == w + s % 8 - 8 - 8 * (pi - pi0) && useful <= 8
      invariant pi > pi0 ==> useful == 8
      invariant pi == pi0 ==> useful == useful0
      invariant w == 0 ==> bitsToRead == 0
      invariant bitsToRead > -8
      invariant acc == Wrap(signed, Field(p, 8 * t, 8 * (pi - pi0)))
      decreases bitsToRead
    {
      FieldByte(p, 8 * t, 8 * (pi - pi0), pi);
      WrapStep(signed, Field(p, 8 * t, 8 * (pi - pi0)), p[pi]);
      acc := Wrap(signed, Shl(acc, 8));
      acc := acc + p[pi];
      pi := pi + 1;
      bitsToRead := bitsToRead - useful;
      useful := 8;
    }
  }

  lemma WrapZero(signed: bool, p: seq<byte>, t: nat)
    requires t <= 8 * |p|
    ensures Wrap(signed, Field(p, t, 0)) == 0
  {
    LowSmall(0, 64);
  }

  /** One round of the outer loop: the value at bit s, and the cursor moved past it. */
  method ReadValue(p: seq<byte>, pi0: int, useful0: int, w: nat, signed: bool, ghost s: nat)
    returns (v: nat, pi: int, useful: int)
    requires s + w <= 8 * |p| && Cursor(pi0, useful0, s, w)
    ensures v == Read(signed, p, s, w)
    ensures Cursor(pi, useful, s + w, w)
  {
    hide Wrap, Field, Shr, Low;
    var acc, bitsToRead;
    acc, pi, bitsToRead := ReadOctets(p, pi0, useful0, w, signed, s);
    v := Low(Shr(acc, -1 * bitsToRead), w);
    useful := -1 * bitsToRead;
    if useful > 0 {
      pi := pi - 1;
    } else {
      useful := 8;
    }
  }

  /** Unsigned 64-bit results stored in signed ones. */
  function AsLongs(vals: seq<nat>): (r: seq<int>)
    ensures |r| == |vals|
  {
    seq(|vals|, i requires 0 <= i < |vals| => Wrap(true, vals[i]))
  }

  lemma {:induction false} NarrowLongs(p: seq<byte>, s: nat, w: nat, n: nat)
    requires s + BitCount(n, w) <= 8 * |p| && w < 64
    ensures AsLongs(Fields(p, s, w, n)) == Fields(p, s, w, n)
    decreases n
  {
    hide Field, Low, Pow2;
    if n > 0 {
      NarrowLongs(p, s, w, n - 1);
      Pow2Monotone(w, 63);
      Pow2Monotone(63, 64);
      LowSmall(Field(p, s + BitCount(n - 1, w), w), 64);
    }
  }

  /** grib_decode_long_array: the accumulator is a signed long. */
  method DecodeLongArray(p: seq<byte>, bitp: nat, bitsPerValue: nat, nVals: nat, val: array<int>)
    returns (bitp': nat)
    requires bitsPerValue <= 64 && bitp + BitCount(nVals, bitsPerValue) <= 8 * |p| && nVals <= val.Length
    modifies val
    ensures bitp' == bitp + BitCount(nVals, bitsPerValue)
    ensures val[..nVals] == AsLongs(Reads(true, p, bitp, bitsPerValue, nVals))
    ensures AllFit(bitp, bitsPerValue, nVals) && bitsPerValue < 64
        ==> val[..nVals] == Fields(p, bitp, bitsPerValue, nVals)
    ensures val[nVals..] == old(val[nVals..])
  {
    hide Read, Field, Wrap;
    bitp' := bitp;
    var pi, useful := bitp / 8, 8 - bitp % 8;
    for i := 0 to nVals
      invariant bitp' == bitp + BitCount(i, bitsPerValue) && Cursor(pi, useful, bitp', bitsPerValue)
      invariant bitp + BitCount(i, bitsPerValue) <= 8 * |p|
      invariant val[..i] == AsLongs(Reads(true, p, bitp, bitsPerValue, i))
      invariant forall k :: nVals <= k < val.Length ==> val[k] == old(val[k])
    {
      BitCountMonotone(i + 1, nVals, bitsPerValue);
      var v;
      v, pi, useful := ReadValue(p, pi, useful, bitsPerValue, true, bitp');
      bitp' := bitp' + bitsPerValue;
      val[i] := Wrap(true, v);
      assert val[..i + 1] == val[..i] + [Wrap(true, v)];
    }
    if AllFit(bitp, bitsPerValue, nVals) && bitsPerValue < 64 {
      ReadsExact(true, p, bitp, bitsPerValue, nVals);
      NarrowLongs(p, bitp, bitsPerValue, nVals);
    }
  }

  // ---------------------------------------------------------------- values scaled on the way

  function Scale(v: int, reference: real, s: real, d: real): real {
    (v as real * s + reference) * d
  }

  /** Y * 10^D = R + X * 2^E, with d for 10^-D and s for 2^E. */
  lemma ScaleLaw(v: int, reference: real, s: real, d: real, D: real)
    requires d * D == 1.0
    ensures Scale(v, reference, s, d) * D == reference + v as real * s
  {
    var y := v as real * s + reference;
    assert (y * d) * D == y * (d * D);
  }

  function ScaleAll(vals: seq<nat>, reference: real, s: real, d: real): (r: seq<real>)
    ensures |r| == |vals|
  {
    seq(|vals|, i requires 0 <= i < |vals| => Scale(vals[i], reference, s, d))
  }

  /** The unaligned loop shared by grib_decode_double_array and grib_decode_array: the
      accumulator is an unsigned long. */
  method DecodeDoubleArray(p: seq<byte>, bitp: nat, bitsPerValue: nat,
                           reference: real, s: real, d: real, nVals: nat, val: array<real>)
    returns (bitp': nat)
    requires bitsPerValue <= 64 && bitp + BitCount(nVals, bitsPerValue) <= 8 * |p| && nVals <= val.Length
    modifies val
    ensures bitp' == bitp + BitCount(nVals, bitsPerValue)
    ensures val[..nVals] == ScaleAll(Reads(false, p, bitp, bitsPerValue, nVals), reference, s, d)
    ensures AllFit(bitp, bitsPerValue, nVals)
        ==> val[..nVals] == ScaleAll(Fields(p, bitp, bitsPerValue, nVals), reference, s, d)
    ensures val[nVals..] == old(val[nVals..])
  {
    hide Read, Field, Scale;
    bitp' := bitp;
    var pi, useful := bitp / 8, 8 - bitp % 8;
    for i := 0 to nVals
      invariant bitp' == bitp + BitCount(i, bitsPerValue) && Cursor(pi, useful, bitp', bitsPerValue)
      invariant bitp + BitCount(i, bitsPerValue) <= 8 * |p|
      invariant val[..i] == ScaleAll(Reads(false, p, bitp, bitsPerValue, i), reference, s, d)
      invariant forall k :: nVals <= k < val.Length ==> val[k] == old(val[k])
    {
      BitCountMonotone(i + 1, nVals, bitsPerValue);
      var lvalue;
      lvalue, pi, useful := ReadValue(p, pi, useful, bitsPerValue, false, bitp');
      bitp' := bitp' + bitsPerValue;
      val[i] := Scale(lvalue, reference, s, d);
      assert val[..i + 1] == val[..i] + [Scale(lvalue, reference, s, d)];
    }
    if AllFit(bitp, bitsPerValue, nVals) {
      ReadsExact(false, p, bitp, bitsPerValue, nVals);
    }
  }

  /** The slow reference loop kept beside the fast readers: one bit at a time. */
  method DecodeSlow(p: seq<byte>, bitp: nat, bitsPerValue: nat,
                    reference: real, s: real, d: real, nVals: nat, val: array<real>)
    returns (bitp': nat)
    requires bitsPerValue <= 64 && bitp + BitCount(nVals, bitsPerValue) <= 8 * |p| && nVals <= val.Length
    modifies val
    ensures bitp' == bitp + BitCount(nVals, bitsPerValue)
    ensures val[..nVals] == ScaleAll(Fields(p, bitp, bitsPerValue, nVals), reference, s, d)
    ensures val[nVals..] == old(val[nVals..])
  {
    hide Scale, Field;
    bitp' := bitp;
    for i := 0 to nVals
      invariant bitp' == bitp + BitCount(i, bitsPerValue)
      invariant bitp + BitCount(i, bitsPerValue) <= 8 * |p|
      invariant val[..i] == ScaleAll(Fields(p, bitp, bitsPerValue, i), reference, s, d)
      invariant forall k :: nVals <= k < val.Length ==> val[k] == old(val[k])
    {
      BitCountMonotone(i + 1, nVals, bitsPerValue);
      var lvalue;
      lvalue, bitp' := SlowValue(p, bitp', bitsPerValue);
      val[i] := Scale(lvalue, reference, s, d);
      assert val[..i + 1] == val[..i] + [Scale(lvalue, reference, s, d)];
    }
  }

  method SlowValue(p: seq<byte>, bitp: nat, bitsPerValue: nat) returns (lvalue: nat, bitp': nat)
    requires bitsPerValue <= 64 && bitp + bitsPerValue <= 8 * |p|
    ensures lvalue == Field(p, bitp, bitsPerValue) && bitp' == bitp + bitsPerValue
  {
    hide Wrap, BitAt, Pow2, Shl;
    lvalue, bitp' := 0, bitp;
    for j := 0 to bitsPerValue
      invariant bitp' == bitp + j && lvalue == Field(p, bitp, j)
    {
      FieldSplit(p, bitp, j, 1);
      Pow2Monotone(j + 1, 64);
      ShlTwice(lvalue);
      WrapSmall(2 * lvalue);
      lvalue := Wrap(false, Shl(lvalue, 1));
      if BitAt(p, bitp') != 0 {
        lvalue := lvalue + 1;
      }
      bitp' := bitp' + 1;
    }
  }

  lemma ShlTwice(x: nat)
    ensures Shl(x, 1) == 2 * x
  {
  }

  lemma WrapSmall(x: nat)
    requires x < Pow2(64)
    ensures Wrap(false, x) == x
  {
    LowSmall(x, 64);
  }

  // ---------------------------------------------------------------- whole-byte values

  /** grib_decode_array.  Widths that are multiples of eight are read from the first octet of the
      buffer, whatever the bit position given, which is left as it was. */
  method DecodeArray(p: seq<byte>, bitp: nat, bitsPerValue: nat,
                     reference: real, s: real, d: real, nVals: nat, val: array<real>)
    returns (bitp': nat)
    requires bitsPerValue <= 64 && nVals <= val.Length
    requires if bitsPerValue % 8 == 0 then BitCount(nVals, AlignedWidth(bitsPerValue)) <= 8 * |p|
             else bitp + BitCount(nVals, bitsPerValue) <= 8 * |p|
    modifies val
    ensures bitp' == if bitsPerValue % 8 == 0 then bitp else bitp + BitCount(nVals, bitsPerValue)
    ensures bitsPerValue % 8 == 0 ==>
              val[..nVals] == ScaleAll(Fields(p, 0, AlignedWidth(bitsPerValue), nVals), reference, s, d)
    ensures bitsPerValue % 8 != 0 ==>
              val[..nVals] == ScaleAll(Reads(false, p, bitp, bitsPerValue, nVals), reference, s, d)
    ensures bitsPerValue % 8 != 0 && AllFit(bitp, bitsPerValue, nVals) ==>
              val[..nVals] == ScaleAll(Fields(p, bitp, bitsPerValue, nVals), reference, s, d)
    ensures val[nVals..] == old(val[nVals..])
  {
    hide Field, Scale, Read, Wrap;
    bitp' := bitp;
    if bitsPerValue % 8 == 0 {
      var l := bitsPerValue / 8;
      var o := 0;
      ghost var w := AlignedWidth(bitsPerValue);
      for i := 0 to nVals
        invariant 8 * o == BitCount(i, w) <= 8 * |p|
        invariant val[..i] == ScaleAll(Fields(p, 0, w, i), reference, s, d)
        invariant forall k :: nVals <= k < val.Length ==> val[k] == old(val[k])
      {
        BitCountMonotone(i + 1, nVals, w);
        var lvalue;
        lvalue, o := AssembleOctets(p, o, l);
        val[i] := Scale(lvalue, reference, s, d);
        assert val[..i + 1] == val[..i] + [Scale(lvalue, reference, s, d)];
      }
    } else {
      bitp' := DecodeDoubleArray(p, bitp, bitsPerValue, reference, s, d, nVals, val);
    }
  }

  /** Bits consumed per value by the aligned branch: at least one octet is always read. */
  function AlignedWidth(w: nat): nat { if w == 0 then 8 else w }

  /** Octets o, o + 1, ... most significant first: one, then l - 1 more. */
  method AssembleOctets(p: seq<byte>, o: nat, l: nat) returns (lvalue: nat, o': nat)
    requires l <= 8 && o + (if l == 0 then 1 else l) <= |p|
    ensures o' == o + (if l == 0 then 1 else l)
    ensures lvalue == Field(p, 8 * o, 8 * (o' - o))
  {
    hide Field, Wrap, Pow2, Shl;
    lvalue, o' := p[o], o + 1;
    ByteField(p, o);
    for bc := 1 to if l == 0 then 1 else l
      invariant o' == o + bc && lvalue == Field(p, 8 * o, 8 * bc)
    {
      FieldByte(p, 8 * o, 8 * bc, o');
      ShlOctet(lvalue);
      Pow2Monotone(8 * bc + 8, 64);
      WrapSmall(256 * lvalue);
      lvalue := Wrap(false, Shl(lvalue, 8)) + p[o'];
      o' := o' + 1;
    }
  }

  /** The aligned branch reads what the general reader would, for every buffer, exactly when it
      is given bit position zero and a positive width. */
  lemma AlignedAgreesIff(s: nat, w: nat, n: nat)
    requires w % 8 == 0 && n > 0
    ensures (forall p: seq<byte> | s + BitCount(n, w) <= 8 * |p| && BitCount(n, AlignedWidth(w)) <= 8 * |p| ::
               Fields(p, 0, AlignedWidth(w), n) == Fields(p, s, w, n))
        <==> s == 0 && w > 0
  {
    hide Field;
    if s != 0 || w == 0 {
      var p := AlignedDiffers(s, w, n);
      assert Fields(p, 0, AlignedWidth(w), n) != Fields(p, s, w, n);
    }
  }

  /** Only the first bit of the buffer is set: the aligned branch sees it, the general one not. */
  lemma AlignedDiffers(s: nat, w: nat, n: nat) returns (p: seq<byte>)
    requires w % 8 == 0 && n > 0 && (s != 0 || w == 0)
    ensures s + BitCount(n, w) <= 8 * |p| && BitCount(n, AlignedWidth(w)) <= 8 * |p|
    ensures Fields(p, 0, AlignedWidth(w), n) != Fields(p, s, w, n)
  {
    hide Fields, Field, Shl;
    var W := AlignedWidth(w);
    p := FirstBit(1 + s + BitCount(n, w) + BitCount(n, W));
    BitCountMonotone(1, n, w);
    BitCountMonotone(1, n, W);
    FieldSplit(p, 0, 1, W - 1);
    ShiftPositive(1, W - 1);
    NothingThere(p, s, w);
    FieldsAt(p, 0, W, n, 0);
    FieldsAt(p, s, w, n, 0);
  }

  lemma FirstBit(n: nat) returns (p: seq<byte>)
    requires n > 0
    ensures |p| == n && Field(p, 0, 1) == 1 && Field(p, 1, 8 * n - 1) == 0
  {
    hide Field, Shl, Shr, Low;
    assert Pow2(8 * n) == 2 * Pow2(8 * n - 1);
    p := NumberAt(0, Pow2(8 * n - 1), n, 0);
    ShlOne(8 * n - 1);
    HighLowUnique(Pow2(8 * n - 1), 8 * n - 1, 1, 0);
    FieldSplit(p, 0, 1, 8 * n - 1);
  }

  lemma NothingThere(p: seq<byte>, s: nat, w: nat)
    requires p != [] && s + w <= 8 * |p| && Field(p, 1, 8 * |p| - 1) == 0
    requires s > 0 || w == 0
    ensures Field(p, s, w) == 0
  {
    if w > 0 {
      hide Field, Shl, Shr, Low;
      var tail := 8 * |p| - s - w;
      assert s - 1 + w + tail == 8 * |p| - 1 && 1 + (s - 1) == s;
      FieldSplit(p, 1, s - 1 + w, tail);
      LowSmall(0, tail);
      FieldSplit(p, 1, s - 1, w);
      LowSmall(0, w);
    }
  }

  lemma {:induction false} ShiftPositive(x: int, k: nat)
    requires x > 0
    ensures Shl(x, k) > 0
  {
    if k > 0 { ShiftPositive(x, k - 1); }
  }
}
