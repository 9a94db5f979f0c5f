/** Writing single bits (src/grib_bits.cc), whole values (src/grib_bits_any_endian.cc) and arrays of
    values (src/grib_bits_any_endian_omp.cc); reading back what was packed; quantisation. */
module Writers {
  import opened Shifts
  import opened Bits
  import opened Packing
  import opened Readers

  // ---------------------------------------------------------------- single bits

  /** x | (1 << m) or x & ~(1 << m). */
  function PutBit(x: int, m: nat, on: bool): int {
    Shl(Shr(x, m + 1), m + 1) + (if on then Pow2(m) else 0) + Low(x, m)
  }

  lemma PutBitParts(x: int, m: nat, on: bool)
    ensures Shr(PutBit(x, m, on), m + 1) == Shr(x, m + 1)
    ensures Shr(PutBit(x, m, on), m) == 2 * Shr(x, m + 1) + (if on then 1 else 0)
    ensures Low(PutBit(x, m, on), m) == Low(x, m)
  {
    hide Shr, Low;
    var hi, b := Shr(x, m + 1), if on then 1 else 0;
    ShlSum(2 * hi, b, m);
    ShlAdd(hi, 1, m);
    assert Shl(hi, 1) == 2 * Shl(hi, 0);
    ShlOne(m);
    ShlZero(m);
    HighLowUnique(PutBit(x, m, on), m, 2 * hi + b, Low(x, m));
    HighLowUnique(PutBit(x, m, on), m + 1, hi, (if on then Pow2(m) else 0) + Low(x, m));
  }

  /** Bit m becomes on; every other bit stays. */
  lemma PutBitBits(x: int, m: nat, on: bool, j: nat)
    ensures Shr(PutBit(x, m, on), j) % 2 == if j == m then (if on then 1 else 0) else Shr(x, j) % 2
  {
    hide Shr, PutBit, Low, Shl;
    var y := PutBit(x, m, on);
    PutBitParts(x, m, on);
    if j > m {
      ShrAdd(x, m + 1, j - m - 1);
      ShrAdd(y, m + 1, j - m - 1);
    } else if j < m {
      ShrLow(x, m - j, j);
      ShrLow(y, m - j, j);
      LowParity(Shr(x, j), m - j);
      LowParity(Shr(y, j), m - j);
    }
  }

  lemma LowParity(x: int, k: nat)
    requires k > 0
    ensures Low(x, k) % 2 == x % 2
  {
  }

  lemma PutBitByte(x: byte, m: nat, on: bool)
    requires m < 8
    ensures 0 <= PutBit(x, m, on) < 256
  {
    hide Shr, Low, PutBit;
    var y := PutBit(x, m, on);
    Octet(x);
    PutBitParts(x, m, on);
    ShrAdd(x, m + 1, 7 - m);
    ShrAdd(y, m + 1, 7 - m);
    Octet(y);
    LowSmall(x, 8);
  }

  /** p with bit k set to on. */
  function WithBit(p: seq<byte>, k: nat, on: bool): (r: seq<byte>)
    requires k < 8 * |p|
    ensures |r| == |p|
  {
    PutBitByte(p[k / 8], 7 - k % 8, on);
    p[k / 8 := PutBit(p[k / 8], 7 - k % 8, on)]
  }

  lemma WithBitAt(p: seq<byte>, k: nat, on: bool, i: nat)
    requires k < 8 * |p| && i < 8 * |p|
    ensures BitAt(WithBit(p, k, on), i) == if i == k then (if on then 1 else 0) else BitAt(p, i)
  {
    hide PutBit, Shr;
    if i / 8 == k / 8 {
      PutBitBits(p[k / 8], 7 - k % 8, on, 7 - i % 8);
    }
  }

  method SetBitOn(p: array<byte>, bitp: nat) returns (bitp': nat)
    requires bitp < 8 * p.Length
    modifies p
    ensures p[..] == WithBit(old(p[..]), bitp, true) && bitp' == bitp + 1
  {
    PutBitByte(p[bitp / 8], 7 - bitp % 8, true);
    p[bitp / 8] := PutBit(p[bitp / 8], 7 - bitp % 8, true);
    bitp' := bitp + 1;
  }

  method SetBitOff(p: array<byte>, bitp: nat) returns (bitp': nat)
    requires bitp < 8 * p.Length
    modifies p
    ensures p[..] == WithBit(old(p[..]), bitp, false) && bitp' == bitp + 1
  {
    PutBitByte(p[bitp / 8], 7 - bitp % 8, false);
    p[bitp / 8] := PutBit(p[bitp / 8], 7 - bitp % 8, false);
    bitp' := bitp + 1;
  }

  /** No bit outside lo .. hi differs. */
  ghost predicate OnlyBits(was: seq<byte>, now: seq<byte>, lo: nat, hi: nat) {
    && |was| == |now|
    && forall i :: 0 <= i < 8 * |was| && (i < lo || hi <= i) ==> BitAt(now, i) == BitAt(was, i)
  }

  lemma OnlyBitsWithBit(was: seq<byte>, now: seq<byte>, lo: nat, hi: nat, on: bool)
    requires lo <= hi < 8 * |was| && OnlyBits(was, now, lo, hi)
    ensures OnlyBits(was, WithBit(now, hi, on), lo, hi + 1)
    ensures Field(WithBit(now, hi, on), lo, hi - lo + 1)
         == 2 * Field(now, lo, hi - lo) + (if on then 1 else 0)
  {
    hide BitAt, WithBit;
    var next := WithBit(now, hi, on);
    forall i: nat | i < 8 * |was|
      ensures BitAt(next, i) == if i == hi then (if on then 1 else 0) else BitAt(now, i)
    {
      WithBitAt(now, hi, on, i);
    }
    FieldFrame(now, next, lo, lo, hi - lo);
  }

  method SetBitsOn(p: array<byte>, bitp: nat, nbits: nat) returns (bitp': nat)
    requires bitp + nbits <= 8 * p.Length
    modifies p
    ensures bitp' == bitp + nbits
    ensures OnlyBits(old(p[..]), p[..], bitp, bitp')
    ensures Field(p[..], bitp, nbits) == Pow2(nbits) - 1
  {
    hide BitAt, WithBit;
    bitp' := bitp;
    for i := 0 to nbits
      invariant bitp' == bitp + i
      invariant OnlyBits(old(p[..]), p[..], bitp, bitp')
      invariant Field(p[..], bitp, i) == Pow2(i) - 1
    {
      OnlyBitsWithBit(old(p[..]), p[..], bitp, bitp', true);
      bitp' := SetBitOn(p, bitp');
    }
  }

  /** grib_encode_unsigned_longb: bit by bit, most significant first. */
  method EncodeUnsignedLongb(p: array<byte>, val: nat, bitp: nat, nb: nat) returns (bitp': nat)
    requires nb <= 64 && bitp + nb <= 8 * p.Length
    modifies p
    ensures bitp' == bitp + nb
    ensures OnlyBits(old(p[..]), p[..], bitp, bitp')
    ensures Field(p[..], bitp, nb) == Low(val, nb)
  {
    hide BitAt, WithBit, Low, Shr, Field;
    bitp' := bitp;
    BitsDone(p[..], bitp, val, nb);
    var i := nb - 1;
    while i >= 0
      invariant -1 <= i < nb && bitp' == bitp + (nb - 1 - i)
      invariant OnlyBits(old(p[..]), p[..], bitp, bitp')
      invariant Field(p[..], bitp, nb - 1 - i) == Shr(Low(val, nb), i + 1)
    {
      BitOfLow(val, nb, i);
      if Shr(val, i) % 2 == 1 {
        OnlyBitsWithBit(old(p[..]), p[..], bitp, bitp', true);
        bitp' := SetBitOn(p, bitp');
      } else {
        OnlyBitsWithBit(old(p[..]), p[..], bitp, bitp', false);
        bitp' := SetBitOff(p, bitp');
      }
      i := i - 1;
    }
  }

  lemma BitsDone(p: seq<byte>, s: nat, val: nat, nb: nat)
    requires s <= 8 * |p|
    ensures Field(p, s, 0) == Shr(Low(val, nb), nb) && Shr(Low(val, nb), 0) == Low(val, nb)
  {
    LowSmall(Low(val, nb), nb);
  }

  lemma BitOfLow(val: nat, nb: nat, i: nat)
    requires i < nb
    ensures Shr(Low(val, nb), i) == 2 * Shr(Low(val, nb), i + 1) + Shr(val, i) % 2
  {
    ShrLow(val, nb - i, i);
    assert Low(Shr(val, i), nb - i) % 2 == Shr(val, i) % 2;
  }

  // ---------------------------------------------------------------- arrays of values

  /** The branch for widths that are not multiples of eight: value after value at bit *off. */
  method EncodeLongsUnaligned(val: seq<int>, bitsPerValue: nat, p: array<byte>, off: nat) returns (off': nat)
    requires bitsPerValue <= 64 && off + BitCount(|val|, bitsPerValue) <= 8 * p.Length
    modifies p
    ensures off' == off + BitCount(|val|, bitsPerValue)
    ensures OnlyBits(old(p[..]), p[..], off, off')
    ensures Fields(p[..], off, bitsPerValue, |val|) == LowAll(val, bitsPerValue)
  {
    hide BitAt, Low, Field;
    off' := off;
    for i := 0 to |val|
      invariant off' == off + BitCount(i, bitsPerValue) <= 8 * p.Length
      invariant OnlyBits(old(p[..]), p[..], off, off')
      invariant Fields(p[..], off, bitsPerValue, i) == LowAll(val[..i], bitsPerValue)
    {
      BitCountMonotone(i + 1, |val|, bitsPerValue);
      ghost var was := p[..];
      off' := EncodeUnsignedLongb(p, Low(val[i], 64), off', bitsPerValue);
      FieldsFrame(was, p[..], off, bitsPerValue, i, off', off + BitCount(i, bitsPerValue));
      LowLow(val[i], bitsPerValue, 64);
      assert val[..i + 1] == val[..i] + [val[i]];
    }
    assert val[..|val|] == val;
  }

  /** Fields before the bits written stay what they were. */
  lemma {:induction false} FieldsFrame(was: seq<byte>, now: seq<byte>, s: nat, w: nat, n: nat, hi: nat, lo: nat)
    requires OnlyBits(was, now, lo, hi) && s + BitCount(n, w) <= lo <= 8 * |was|
    ensures Fields(now, s, w, n) == Fields(was, s, w, n)
    decreases n
  {
    hide BitAt, Field;
    if n > 0 {
      FieldsFrame(was, now, s, w, n - 1, hi, lo);
      FieldFrame(was, now, s + BitCount(n - 1, w), s + BitCount(n - 1, w), w);
    }
  }

  /** The octets of one value of a whole number of octets, most significant first. */
  method StoreOctets(w: nat, unsignedVal: nat, p: array<byte>, z0: nat, ghost acc: nat) returns (z: nat)
    requires w % 8 == 0 && w <= 64 && z0 + w / 8 <= p.Length
    requires InStream(NatOf(p[0..z0]), 8, 0, acc, unsignedVal, w, w)
    modifies p
    ensures z == z0 + w / 8
    ensures InStream(NatOf(p[0..z]), 8, 0, acc, unsignedVal, w, 0)
    ensures Untouched(old(p[..]), p[..], z0, z)
  {
    hide InStream, Low, Shr, NatOf;
    z := z0;
    var blen := w;
    while blen >= 8
      invariant 0 <= blen <= w && blen % 8 == 0 && z == z0 + (w - blen) / 8
      invariant InStream(NatOf(p[0..z]), 8, 0, acc, unsignedVal, w, blen)
      invariant Untouched(old(p[..]), p[..], z0, z)
    {
      WholeOctet(NatOf(p[0..z]), acc, unsignedVal, w, blen);
      blen := blen - 8;
      z := Put(p, 0, z, Low(Shr(unsignedVal, blen), 8));
    }
  }

  /** The branch for widths that are multiples of eight: from the first octet of p on, whatever
      *off; only *off is advanced by the bits written. */
  method EncodeLongsAligned(val: seq<int>, bitsPerValue: nat, p: array<byte>, off: nat) returns (off': nat)
    requires bitsPerValue % 8 == 0 && bitsPerValue <= 64 && PackedLen(|val|, bitsPerValue) <= p.Length
    modifies p
    ensures off' == off + BitCount(|val|, bitsPerValue)
    ensures p[..] == Stored(old(p[..]), 0, PackedBytes(val, bitsPerValue))
  {
    hide InStream, Streamed, Low, Shr, NatOf, PackedBytes;
    off' := off;
    var encoded := 0;
    StreamNothing(bitsPerValue, p[0..0]);
    for i := 0 to |val|
      invariant 8 * encoded == BitCount(i, bitsPerValue) && encoded <= PackedLen(|val|, bitsPerValue)
      invariant off' == off + 8 * encoded
      invariant Streamed(NatOf(p[0..encoded]), 8, 0, val[..i], bitsPerValue)
      invariant Untouched(old(p[..]), p[..], 0, encoded)
    {
      BitCountMonotone(i + 1, |val|, bitsPerValue);
      var unsignedVal := Low(val[i], 64);
      StreamStart(NatOf(p[0..encoded]), 8, 0, val[..i], unsignedVal, bitsPerValue);
      encoded := StoreOctets(bitsPerValue, unsignedVal, p, encoded, Concat(val[..i], bitsPerValue));
      StreamedNext(NatOf(p[0..encoded]), 8, 0, val[..i], val[i], bitsPerValue, 64);
      assert val[..i + 1] == val[..i] + [val[i]];
      off' := off' + bitsPerValue;
    }
    assert val[..|val|] == val;
    WholeDone(p[0..encoded], val, bitsPerValue);
    UntouchedStored(old(p[..]), p[..], 0, encoded);
    assert p[..][0..encoded] == p[0..encoded];
  }

  /** grib_encode_long_array */
  method EncodeLongArray(val: seq<int>, bitsPerValue: nat, p: array<byte>, off: nat) returns (off': nat)
    requires bitsPerValue <= 64
    requires if bitsPerValue % 8 == 0 then PackedLen(|val|, bitsPerValue) <= p.Length
             else off + BitCount(|val|, bitsPerValue) <= 8 * p.Length
    modifies p
    ensures off' == off + BitCount(|val|, bitsPerValue)
    ensures bitsPerValue % 8 == 0 ==> p[..] == Stored(old(p[..]), 0, PackedBytes(val, bitsPerValue))
    ensures bitsPerValue % 8 != 0 ==> OnlyBits(old(p[..]), p[..], off, off')
    ensures bitsPerValue % 8 != 0 ==> Fields(p[..], off, bitsPerValue, |val|) == LowAll(val, bitsPerValue)
  {
    if bitsPerValue % 8 != 0 {
      off' := EncodeLongsUnaligned(val, bitsPerValue, p, off);
    } else {
      off' := EncodeLongsAligned(val, bitsPerValue, p, off);
    }
  }

  /** grib_encode_double_array: decimal scaling first, then the same two ways of writing. */
  method EncodeDoubleArray(val: seq<real>, bitsPerValue: nat, reference: real, d: real, divisor: real,
                           p: array<byte>, off: nat)
    returns (off': nat)
    requires bitsPerValue <= 64
    requires if bitsPerValue % 8 == 0 then PackedLen(|val|, bitsPerValue) <= p.Length
             else off + BitCount(|val|, bitsPerValue) <= 8 * p.Length
    modifies p
    ensures off' == off + BitCount(|val|, bitsPerValue)
    ensures bitsPerValue % 8 == 0 ==>
              p[..] == Stored(old(p[..]), 0, PackedBytes(ScaledDown(val, reference, d, divisor), bitsPerValue))
    ensures bitsPerValue % 8 != 0 ==> OnlyBits(old(p[..]), p[..], off, off')
    ensures var quantised := ScaledDown(val, reference, d, divisor);
            && (bitsPerValue % 8 != 0 ==> Fields(p[..], off, bitsPerValue, |val|) == LowAll(quantised, bitsPerValue))
            && Holds(p[..], if bitsPerValue % 8 == 0 then 0 else off, quantised, bitsPerValue)
  {
    hide ScaledDown, Fields, PackedBytes, Stored, LowAll;
    ghost var was := p[..];
    off' := EncodeLongArray(ScaledDown(val, reference, d, divisor), bitsPerValue, p, off);
    if bitsPerValue % 8 == 0 { AlignedHolds(was, ScaledDown(val, reference, d, divisor), bitsPerValue); }
  }

  function Times(x: real, d: real): real { x * d }

  /** The integers written for real values. */
  function ScaledDown(val: seq<real>, reference: real, d: real, divisor: real): (r: seq<int>)
    ensures |r| == |val|
  {
    seq(|val|, i requires 0 <= i < |val| => Quantise(Times(val[i], d), reference, divisor))
  }

  // ---------------------------------------------------------------- reading back

  /** Codec round trip: whatever packer wrote the octets, the reader started at their first bit
      returns every value modulo 2^w, in order. */
  lemma PackedReadBack(signed: bool, buf: seq<byte>, start: nat, vals: seq<int>, w: nat)
    requires w <= 57 && start + PackedLen(|vals|, w) <= |buf|
    ensures 8 * start + BitCount(|vals|, w) <= 8 * |buf|
    ensures Reads(signed, Stored(buf, start, PackedBytes(vals, w)), 8 * start, w, |vals|) == LowAll(vals, w)
  {
    hide Fields, Reads, PackedBytes, LowAll, AllFit;
    var p := PackedBytes(vals, w);
    PackedFields(vals, w);
    FieldsInside(buf[..start], p, buf[start + |p|..], 0, w, |vals|);
    NarrowFits(8 * start, w, |vals|);
    ReadsExact(signed, Stored(buf, start, p), 8 * start, w, |vals|);
  }

  /** The same for values written at any bit position. */
  lemma WrittenReadBack(signed: bool, p: seq<byte>, s: nat, vals: seq<int>, w: nat)
    requires w <= 57 && s + BitCount(|vals|, w) <= 8 * |p|
    requires Fields(p, s, w, |vals|) == LowAll(vals, w)
    ensures Reads(signed, p, s, w, |vals|) == LowAll(vals, w)
  {
    hide AllFit;
    NarrowFits(s, w, |vals|);
    ReadsExact(signed, p, s, w, |vals|);
  }

  // ---------------------------------------------------------------- quantisation over the reals

  /** One value packed in w bits and unpacked with scale s = 1 / factor and decimal factor d. */
  function Repacked(x: real, zref: real, factor: real, s: real, d: real, w: nat): real {
    Scale(Low(Quantise(x, zref, factor), w), zref, s, d)
  }

  /** Packing loses at most half a step, exactly when the value is not more than half a step below
      the reference: below that, the conversion to an integer rounds towards zero. */
  lemma PackingErrorIff(x: real, zref: real, factor: real, s: real, d: real, D: real, w: nat)
    requires s > 0.0 && s * factor == 1.0 && d * D == 1.0
    requires 0 <= Quantise(x, zref, factor) < Pow2(w)
    ensures (-s / 2.0 <= Repacked(x, zref, factor, s, d, w) * D - x <= s / 2.0)
        <==> (x - zref) * factor + 0.5 >= 0.0
  {
    hide Scale, Trunc, Low;
    var y := (x - zref) * factor;
    var q := Quantise(x, zref, factor);
    LowSmall(q, w);
    ScaleLaw(q, zref, s, d, D);
    StepError(q, x, zref, factor, s);
    TruncError(y);
    var e := q as real - y;
    HalfStep(e, s);
    assert Repacked(x, zref, factor, s, d, w) * D - x == e * s;
  }

  /** A whole step below the reference is packed as the reference. */
  lemma BelowReference()
    ensures Quantise(-1.0, 0.0, 1.0) == 0 && Repacked(-1.0, 0.0, 1.0, 1.0, 1.0, 8) == 0.0
    ensures !(-0.5 <= Repacked(-1.0, 0.0, 1.0, 1.0, 1.0, 8) - -1.0 <= 0.5)
  {
    LowSmall(0, 8);
  }

  /** Rounding by adding a half and truncating is nearest-integer only from -1/2 up. */
  lemma TruncError(y: real)
    requires Trunc(y + 0.5) >= 0
    ensures (-0.5 <= Trunc(y + 0.5) as real - y <= 0.5) <==> y + 0.5 >= 0.0
  {
  }

  lemma StepError(q: nat, x: real, zref: real, factor: real, s: real)
    requires s * factor == 1.0
    ensures zref + q as real * s - x == (q as real - (x - zref) * factor) * s
  {
    var y := (x - zref) * factor;
    assert y * s == (x - zref) * (s * factor);
    assert q as real * s - y * s == (q as real - y) * s;
  }

  lemma HalfStep(e: real, s: real)
    requires s > 0.0
    ensures (-s / 2.0 <= e * s <= s / 2.0) <==> -0.5 <= e <= 0.5
  {
    if e > 0.5 { assert (e - 0.5) * s > 0.0; }
    if e < -0.5 { assert (-0.5 - e) * s > 0.0; }
    if -0.5 <= e <= 0.5 { assert (0.5 - e) * s >= 0.0 && (e + 0.5) * s >= 0.0; }
  }

  /** A value that came out of the reader packs to the integer it was read from. */
  lemma RequantiseExact(v: nat, zref: real, factor: real, s: real, d: real, D: real)
    requires s * factor == 1.0 && d * D == 1.0
    ensures Quantise(Times(Scale(v, zref, s, d), D), zref, factor) == v
  {
    hide Scale, Quantise;
    var x := Times(Scale(v, zref, s, d), D);
    ScaleLaw(v, zref, s, d, D);
    assert x - zref == v as real * s;
    assert (v as real * s) * factor == v as real * (s * factor);
    QuantiseNearest(x, zref, factor, v);
  }

  function TimesAll(vals: seq<real>, D: real): (r: seq<real>)
    ensures |r| == |vals|
  {
    seq(|vals|, i requires 0 <= i < |vals| => Times(vals[i], D))
  }

  /** Packing what was unpacked, multiplied by its decimal factor, writes the same octets again. */
  lemma RepackSameOctets(vals: seq<int>, w: nat, zref: real, factor: real, s: real, d: real, D: real)
    requires s * factor == 1.0 && d * D == 1.0
    ensures BitCount(|vals|, w) <= 8 * |PackedBytes(vals, w)|
    ensures var field := ScaleAll(Fields(PackedBytes(vals, w), 0, w, |vals|), zref, s, d);
            PackedBytes(QuantiseAll(TimesAll(field, D), zref, factor), w) == PackedBytes(vals, w)
  {
    hide QuantiseAll, TimesAll, ScaleAll, Fields, PackedBytes, LowAll;
    PackedFields(vals, w);
    RequantiseAll(LowAll(vals, w), zref, factor, s, d, D);
    LowPacked(vals, w);
  }

  lemma RequantiseAll(vals: seq<nat>, zref: real, factor: real, s: real, d: real, D: real)
    requires s * factor == 1.0 && d * D == 1.0
    ensures QuantiseAll(TimesAll(ScaleAll(vals, zref, s, d), D), zref, factor) == vals
  {
    hide Quantise, Scale, Times;
    var field := TimesAll(ScaleAll(vals, zref, s, d), D);
    forall i | 0 <= i < |vals|
      ensures QuantiseAll(field, zref, factor)[i] == vals[i]
    {
      RequantiseExact(vals[i], zref, factor, s, d, D);
    }
  }

  lemma LowPacked(vals: seq<int>, w: nat)
    ensures PackedBytes(LowAll(vals, w), w) == PackedBytes(vals, w)
  {
    LowConcat(vals, w);
  }

  lemma {:induction false} LowConcat(vals: seq<int>, w: nat)
    ensures Concat(LowAll(vals, w), w) == Concat(vals, w)
  {
    hide Low;
    if vals != [] {
      var n := |vals| - 1;
      LowConcat(vals[..n], w);
      assert LowAll(vals, w)[..n] == LowAll(vals[..n], w);
      LowLow(vals[n], w, w);
    }
  }

  // ---------------------------------------------------------------- grib_encode_double_array and back

  /** p holds the values from bit pos on. */
  ghost predicate Holds(p: seq<byte>, pos: nat, vals: seq<int>, w: nat) {
    pos + BitCount(|vals|, w) <= 8 * |p| && Fields(p, pos, w, |vals|) == LowAll(vals, w)
  }

  /** So do whole octets written to the start. */
  lemma AlignedHolds(was: seq<byte>, vals: seq<int>, w: nat)
    requires PackedLen(|vals|, w) <= |was|
    ensures Holds(Stored(was, 0, PackedBytes(vals, w)), 0, vals, w)
  {
    hide Fields, PackedBytes, LowAll;
    var p := PackedBytes(vals, w);
    PackedFields(vals, w);
    FieldsInside(was[..0], p, was[|p|..], 0, w, |vals|);
  }

  /** What is decoded where reals have been encoded is, before decimal scaling is undone, half a step away at
      most, exactly for values not more than half a step below the reference. */
  lemma EncodedErrorIff(val: seq<real>, reference: real, d: real, divisor: real, s: real, d': real, w: nat,
                        p: seq<byte>, pos: nat, i: nat)
    requires w <= 57 && i < |val| && s > 0.0 && s * divisor == 1.0 && d' * d == 1.0
    requires Holds(p, pos, ScaledDown(val, reference, d, divisor), w)
    requires 0 <= ScaledDown(val, reference, d, divisor)[i] < Pow2(w)
    ensures var back := ScaleAll(Reads(false, p, pos, w, |val|), reference, s, d');
            ((-s / 2.0 <= back[i] * d - val[i] * d <= s / 2.0) <==> (val[i] * d - reference) * divisor + 0.5 >= 0.0)
  {
    hide Fields, Reads, AllFit, Low, Scale, Quantise, ScaledDown, ScaleAll, Repacked, Holds;
    var x := Times(val[i], d);
    EncodedAt(val, reference, d, divisor, p, pos, s, d', w, i);
    PackingErrorIff(x, reference, divisor, s, d', d, w);
  }

  lemma EncodedAt(val: seq<real>, reference: real, d: real, divisor: real, p: seq<byte>, pos: nat, s: real, d': real,
                  w: nat, i: nat)
    requires w <= 57 && i < |val| && Holds(p, pos, ScaledDown(val, reference, d, divisor), w)
    ensures ScaledDown(val, reference, d, divisor)[i] == Quantise(Times(val[i], d), reference, divisor)
    ensures ScaleAll(Reads(false, p, pos, w, |val|), reference, s, d')[i]
         == Repacked(Times(val[i], d), reference, divisor, s, d', w)
  {
    hide Fields, Reads, AllFit, Low, Scale, Quantise, Times;
    WrittenReadBack(false, p, pos, ScaledDown(val, reference, d, divisor), w);
  }

  /** Reals that were decoded are encoded as the integers they came from. */
  lemma DecodedInts(vals: seq<nat>, reference: real, d: real, divisor: real, s: real, d': real)
    requires s * divisor == 1.0 && d' * d == 1.0
    ensures ScaledDown(ScaleAll(vals, reference, s, d'), reference, d, divisor) == vals
  {
    hide Scale, Quantise, Times;
    var val := ScaleAll(vals, reference, s, d');
    forall i | 0 <= i < |vals|
      ensures ScaledDown(val, reference, d, divisor)[i] == vals[i]
    {
      RequantiseExact(vals[i], reference, divisor, s, d', d);
    }
  }

  /** Encoding what was decoded leaves every octet as it was, at any bit position, ... */
  lemma ReencodedSame(p: seq<byte>, now: seq<byte>, off: nat, w: nat, n: nat, reference: real, d: real, divisor: real,
                      s: real, d': real)
    requires s * divisor == 1.0 && d' * d == 1.0 && off + BitCount(n, w) <= 8 * |p|
    requires OnlyBits(p, now, off, off + BitCount(n, w))
    requires var val := ScaleAll(Fields(p, off, w, n), reference, s, d');
             Fields(now, off, w, n) == LowAll(ScaledDown(val, reference, d, divisor), w)
    ensures now == p
  {
    hide Fields, ScaledDown, Scale, BitAt;
    DecodedInts(Fields(p, off, w, n), reference, d, divisor, s, d');
    LowFields(p, off, w, n);
    SameFields(p, now, off, w, n);
  }

  /** ... and from the start in whole octets. */
  lemma ReencodedAligned(p: seq<byte>, w: nat, n: nat, reference: real, d: real, divisor: real, s: real, d': real)
    requires s * divisor == 1.0 && d' * d == 1.0 && w % 8 == 0 && PackedLen(n, w) <= |p|
    ensures BitCount(n, w) <= 8 * |p|
    ensures var val := ScaleAll(Fields(p, 0, w, n), reference, s, d');
            Stored(p, 0, PackedBytes(ScaledDown(val, reference, d, divisor), w)) == p
  {
    hide Fields, ScaledDown, ScaleAll, PackedBytes, Stored;
    WholeCount(n, w);
    DecodedInts(Fields(p, 0, w, n), reference, d, divisor, s, d');
    RepackedAligned(p, w, n);
  }

  /** Packing the fields of whole octets leaves them as they were. */
  lemma RepackedAligned(p: seq<byte>, w: nat, n: nat)
    requires w % 8 == 0 && PackedLen(n, w) <= |p|
    ensures BitCount(n, w) <= 8 * |p| && Stored(p, 0, PackedBytes(Fields(p, 0, w, n), w)) == p
  {
    hide Fields, BitAt, PackedBytes, LowAll, PackedLen;
    WholeCount(n, w);
    var vals := Fields(p, 0, w, n);
    AlignedHolds(p, vals, w);
    var now := Stored(p, 0, PackedBytes(vals, w));
    forall i | BitCount(n, w) <= i < 8 * |p|
      ensures BitAt(now, i) == BitAt(p, i)
    {
      assert now[i / 8] == p[i / 8];
      SameOctetSameBit(p, now, i);
    }
    LowFields(p, 0, w, n);
    SameFields(p, now, 0, w, n);
  }

  lemma WholeCount(n: nat, w: nat)
    requires w % 8 == 0
    ensures BitCount(n, w) == 8 * PackedLen(n, w)
  {
    hide BitCount;
    EightTimes(n, w / 8);
    assert w == 8 * (w / 8);
  }

  lemma {:induction false} EightTimes(n: nat, b: nat)
    ensures BitCount(n, 8 * b) == 8 * BitCount(n, b)
    decreases n
  {
    if n > 0 { EightTimes(n - 1, b); }
  }

  lemma SameOctetSameBit(p: seq<byte>, q: seq<byte>, i: nat)
    requires i < 8 * |p| && |p| == |q| && p[i / 8] == q[i / 8]
    ensures BitAt(p, i) == BitAt(q, i)
  {
  }

  lemma {:induction false} LowFields(p: seq<byte>, s: nat, w: nat, n: nat)
    requires s + BitCount(n, w) <= 8 * |p|
    ensures LowAll(Fields(p, s, w, n), w) == Fields(p, s, w, n)
    decreases n
  {
    hide Field, Low;
    if n > 0 {
      LowFields(p, s, w, n - 1);
      LowSmall(Field(p, s + BitCount(n - 1, w), w), w);
    }
  }

  /** Octets that differ in a run of fields only, and hold the same fields, are the same. */
  lemma SameFields(p: seq<byte>, q: seq<byte>, s: nat, w: nat, n: nat)
    requires s + BitCount(n, w) <= 8 * |p| && OnlyBits(p, q, s, s + BitCount(n, w))
    requires Fields(p, s, w, n) == Fields(q, s, w, n)
    ensures p == q
  {
    hide BitAt, Fields;
    BitsOfFields(p, q, s, w, n);
    forall k | 0 <= k < |p|
      ensures p[k] == q[k]
    {
      ByteField(p, k);
      ByteField(q, k);
      FieldFrame(p, q, 8 * k, 8 * k, 8);
    }
  }

  lemma {:induction false} BitsOfFields(p: seq<byte>, q: seq<byte>, s: nat, w: nat, n: nat)
    requires s + BitCount(n, w) <= 8 * |p| && |p| == |q| && Fields(p, s, w, n) == Fields(q, s, w, n)
    ensures forall i :: s <= i < s + BitCount(n, w) ==> BitAt(p, i) == BitAt(q, i)
    decreases n
  {
    hide BitAt, Field;
    if n > 0 {
      var f, g := Fields(p, s, w, n), Fields(q, s, w, n);
      assert f[..n - 1] == Fields(p, s, w, n - 1) && g[..n - 1] == Fields(q, s, w, n - 1);
      assert f[n - 1] == g[n - 1];
      BitsOfFields(p, q, s, w, n - 1);
      BitsOfField(p, q, s + BitCount(n - 1, w), w);
    }
  }

  lemma {:induction false} BitsOfField(p: seq<byte>, q: seq<byte>, s: nat, w: nat)
    requires s + w <= 8 * |p| && |p| == |q| && Field(p, s, w) == Field(q, s, w)
    ensures forall i :: s <= i < s + w ==> BitAt(p, i) == BitAt(q, i)
    decreases w
  {
    hide BitAt;
    if w > 0 { BitsOfField(p, q, s, w - 1); }
  }
}
