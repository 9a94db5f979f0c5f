/** The simple-packing encoders (src/encode_double_array.cc): a streaming bit packer and the
    byte-width packers that must produce the same octets. */
module Packing {
  import opened Shifts
  import opened Bits

  // ---------------------------------------------------------------- specification

  /** A C conversion from floating point to integer drops the fraction. */
  function Trunc(x: real): int {
    if x >= 0.0 then x.Floor else -((-x).Floor)
  }

  /** A value in steps above the reference, and half a step more. */
  function Steps(x: real, zref: real, factor: real): real {
    (x - zref) * factor + 0.5
  }

  /** The integer stored for one value. */
  function Quantise(x: real, zref: real, factor: real): int {
    Trunc(Steps(x, zref, factor))
  }

  /** For values not more than half a step below the reference that is the number of the nearest step; of
      two that are equally near, the upper one. */
  lemma QuantiseNearest(x: real, zref: real, factor: real, n: int)
    requires (x - zref) * factor >= -0.5
    ensures Quantise(x, zref, factor) == n <==> n as real - 0.5 <= (x - zref) * factor < n as real + 0.5
  {
  }

  /** For others it is rounded towards zero. */
  lemma QuantiseBelow(x: real, zref: real, factor: real, n: int)
    requires (x - zref) * factor < -0.5
    ensures Quantise(x, zref, factor) == n <==> n as real - 1.5 < (x - zref) * factor <= n as real - 0.5
  {
  }

  function QuantiseAll(data: seq<real>, zref: real, factor: real): (vals: seq<int>)
    ensures |vals| == |data|
  {
    seq(|data|, i requires 0 <= i < |data| => Quantise(data[i], zref, factor))
  }

  /** The low w bits of every value, one after the other, read as one number. */
  function Concat(vals: seq<int>, w: nat): nat
  {
    if vals == [] then 0
    else Shl(Concat(vals[..|vals| - 1], w), w) + Low(vals[|vals| - 1], w)
  }

  /** Every value modulo 2^w. */
  function LowAll(vals: seq<int>, w: nat): (r: seq<nat>)
    ensures |r| == |vals|
  {
    seq(|vals|, i requires 0 <= i < |vals| => Low(vals[i], w))
  }

  /** Octets needed for n values of w bits. */
  function PackedLen(n: nat, w: nat): nat { (BitCount(n, w) + 7) / 8 }

  /** Unused low-order bits of the last octet. */
  function PaddingBits(n: nat, w: nat): (pad: nat)
    ensures pad < 8 && BitCount(n, w) + pad == 8 * PackedLen(n, w)
  {
    8 * PackedLen(n, w) - BitCount(n, w)
  }

  /** Values of w bits each, back to back, the last octet filled with zero bits. */
  function PackedBytes(vals: seq<int>, w: nat): (p: seq<byte>)
    ensures |p| == PackedLen(|vals|, w)
  {
    BytesOf(Shl(Concat(vals, w), PaddingBits(|vals|, w)), PackedLen(|vals|, w))
  }

  /** buf with the bytes at position z replaced by p. */
  function Stored(buf: seq<byte>, z: nat, p: seq<byte>): (r: seq<byte>)
    requires z + |p| <= |buf|
    ensures |r| == |buf|
  {
    buf[..z] + p + buf[z + |p|..]
  }

  // ---------------------------------------------------------------- what the packed octets mean

  lemma ConcatAppend(vals: seq<int>, v: int, w: nat)
    ensures Concat(vals + [v], w) == Shl(Concat(vals, w), w) + Low(v, w)
  {
    assert (vals + [v])[..|vals|] == vals;
  }

  /** If whole octets hold the concatenation followed by zero padding, they are the packed octets. */
  lemma PackedUnique(p: seq<byte>, vals: seq<int>, w: nat)
    requires |p| == PackedLen(|vals|, w)
    requires NatOf(p) == Shl(Concat(vals, w), PaddingBits(|vals|, w))
    ensures p == PackedBytes(vals, w)
  {
    BytesOfNat(p);
  }

  lemma {:induction false} ConcatBound(vals: seq<int>, w: nat)
    ensures Concat(vals, w) < Pow2(BitCount(|vals|, w))
  {
    if vals != [] {
      var n := |vals| - 1;
      ConcatBound(vals[..n], w);
      ShlBound(Concat(vals[..n], w), w, BitCount(n, w));
    }
  }

  /** The packed octets, read as one number: the concatenation, then zero bits. */
  lemma PackedContents(vals: seq<int>, w: nat)
    ensures NatOf(PackedBytes(vals, w)) == Shl(Concat(vals, w), PaddingBits(|vals|, w))
    ensures Field(PackedBytes(vals, w), 0, BitCount(|vals|, w)) == Concat(vals, w)
    ensures Field(PackedBytes(vals, w), BitCount(|vals|, w), PaddingBits(|vals|, w)) == 0
  {
    hide Shl, Low, Shr, Field, Pow2, NatOf, Concat, BitCount;
    var p, n, pad := PackedBytes(vals, w), BitCount(|vals|, w), PaddingBits(|vals|, w);
    ConcatBound(vals, w);
    ShlBound(Concat(vals, w), pad, n);
    NatOfBytes(Shl(Concat(vals, w), pad), |p|);
    NatOfWhole(p);
    FieldSplit(p, 0, n, pad);
    HighLowUnique(NatOf(p), pad, Concat(vals, w), 0);
  }

  /** Bits that hold a concatenation hold its values as fields. */
  lemma {:induction false} ConcatFields(p: seq<byte>, s: nat, vals: seq<int>, w: nat)
    requires s + BitCount(|vals|, w) <= 8 * |p|
    requires Field(p, s, BitCount(|vals|, w)) == Concat(vals, w)
    ensures Fields(p, s, w, |vals|) == LowAll(vals, w)
    decreases |vals|
  {
    hide Shl, Low, Shr, Field, Pow2;
    if vals != [] {
      var n := |vals| - 1;
      FieldSplit(p, s, BitCount(n, w), w);
      HighLowUnique(Concat(vals, w), w, Concat(vals[..n], w), Low(vals[n], w));
      ConcatFields(p, s, vals[..n], w);
    }
  }

  /** Reading the packed octets back gives every value modulo 2^w, in order; the rest is zero. */
  lemma PackedFields(vals: seq<int>, w: nat)
    ensures Fields(PackedBytes(vals, w), 0, w, |vals|) == LowAll(vals, w)
    ensures Field(PackedBytes(vals, w), BitCount(|vals|, w), PaddingBits(|vals|, w)) == 0
  {
    PackedContents(vals, w);
    ConcatFields(PackedBytes(vals, w), 0, vals, w);
  }

  // ---------------------------------------------------------------- the streaming packer

  /** One step of the stream: k more bits of v after its top bits down to bit j. */
  lemma {:induction false} StreamStep(acc: nat, v: int, w: nat, j: nat, k: nat)
    requires k <= j <= w
    ensures Shl(Shl(acc, w - j) + Shr(Low(v, w), j), k) + Low(Shr(v, j - k), k)
         == Shl(acc, w - (j - k)) + Shr(Low(v, w), j - k)
  {
    hide *;
    var u := Shr(Low(v, w), j - k);
    ShlSum(Shl(acc, w - j), Shr(Low(v, w), j), k);
    ShlAdd(acc, w - j, k);
    ShrAdd(Low(v, w), j - k, k);
    HighLow(u, k);
    ShrLow(v, w - (j - k), j - k);
    LowLow(Shr(v, j - k), k, w - (j - k));
  }

  /** The stream so far: out holds the whole octets, c the 8 - cbits bits of the open one, and
      together they are acc followed by the bits of ival above bit j. */
  ghost predicate InStream(out: nat, cbits: int, c: int, acc: nat, ival: int, w: nat, j: int) {
    && 1 <= cbits <= 8 && 0 <= c < Pow2(8 - cbits) && 0 <= j <= w
    && Shl(out, 8 - cbits) + c == Shl(acc, w - j) + Shr(Low(ival, w), j)
  }

  /** Adding k bits m behind the n pending bits c. */
  lemma PushBits(out: nat, c: nat, n: nat, k: nat, m: nat)
    requires c < Pow2(n) && m < Pow2(k)
    ensures 0 <= Shl(c, k) + m < Pow2(n + k)
    ensures Shl(out, n + k) + (Shl(c, k) + m) == Shl(Shl(out, n) + c, k) + m
  {
    ShlBound(c, k, n);
    ShlSum(Shl(out, n), c, k);
    ShlAdd(out, n, k);
  }

  /** Completing the open octet with the next cbits bits of ival. */
  lemma OctetDone(out: nat, cbits: nat, c: nat, acc: nat, ival: int, w: nat, j: nat)
    requires InStream(out, cbits, c, acc, ival, w, j) && cbits <= j
    ensures var b := Shl(c, cbits) + Low(Shr(ival, j - cbits), cbits);
            0 <= b < 256 && InStream(256 * out + b, 8, 0, acc, ival, w, j - cbits)
  {
    hide Shl, Shr, Low;
    var b := Shl(c, cbits) + Low(Shr(ival, j - cbits), cbits);
    StreamStep(acc, ival, w, j, cbits);
    PushBits(out, c, 8 - cbits, cbits, Low(Shr(ival, j - cbits), cbits));
    Octet(out);
    NoShift(256 * out + b);
  }

  lemma NoShift(x: int)
    ensures Shl(x, 0) == x && Shr(x, 0) == x && Pow2(0) == 1
  {
  }

  /** Keeping the last j bits of ival pending. */
  lemma BitsKept(out: nat, cbits: nat, c: nat, acc: nat, ival: int, w: nat, j: nat)
    requires InStream(out, cbits, c, acc, ival, w, j) && j < cbits
    ensures InStream(out, cbits - j, Shl(c, j) + Low(ival, j), acc, ival, w, 0)
  {
    hide Shl, Shr, Low;
    StreamStep(acc, ival, w, j, j);
    PushBits(out, c, 8 - cbits, j, Low(ival, j));
    NoShift(ival);
  }

  /** With eight free bits nothing is pending. */
  lemma OpenOctetEmpty(out: nat, c: int, acc: nat, ival: int, w: nat, j: nat)
    requires InStream(out, 8, c, acc, ival, w, j)
    ensures c == 0 && Shl(c, 8) == 0
  {
    assert Pow2(0) == 1;
    ShlOctet(c);
  }

  /** Only positions lo .. hi may differ. */
  ghost predicate Untouched(was: seq<byte>, now: seq<byte>, lo: nat, hi: nat) {
    && |was| == |now|
    && (forall k :: 0 <= k < |was| && (k < lo || hi <= k) ==> now[k] == was[k])
  }

  lemma UntouchedStored(was: seq<byte>, now: seq<byte>, lo: nat, hi: nat)
    requires lo <= hi <= |was| && Untouched(was, now, lo, hi)
    ensures now == Stored(was, lo, now[lo..hi])
  {
  }

  /** Appends one octet to the part of the buffer written so far. */
  method Put(lGrib: array<byte>, ghost gz: nat, z: nat, b: byte) returns (z': nat)
    requires gz <= z < lGrib.Length
    modifies lGrib
    ensures z' == z + 1
    ensures Untouched(old(lGrib[..]), lGrib[..], z, z + 1)
    ensures NatOf(lGrib[gz..z']) == 256 * old(NatOf(lGrib[gz..z])) + b
  {
    ghost var was := lGrib[gz..z];
    lGrib[z] := b;
    z' := z + 1;
    assert lGrib[gz..z'] == was + [b];
    NatOfAppend(was, b);
  }

  /** The body of the packer's loop: the low numBits bits of ival join a stream of done bits
      whose open octet has cbits free bits; len octets are reserved. */
  method AppendValue(numBits: nat, ival: nat, lGrib: array<byte>, ghost gz: nat,
                     z0: nat, cbits0: nat, c0: nat, ghost done: nat, ghost len: nat, ghost acc: nat)
    returns (z: nat, cbits: nat, c: nat)
    requires gz <= z0 && 1 <= cbits0 <= 8 && 8 * (z0 - gz) + (8 - cbits0) == done
    requires done + numBits <= 8 * len && gz + len <= lGrib.Length
    requires InStream(NatOf(lGrib[gz..z0]), cbits0, c0, acc, ival, numBits, numBits)
    modifies lGrib
    ensures z0 <= z <= gz + len && 1 <= cbits <= 8
    ensures 8 * (z - gz) + (8 - cbits) == done + numBits
    ensures InStream(NatOf(lGrib[gz..z]), cbits, c, acc, ival, numBits, 0)
    ensures Untouched(old(lGrib[..]), lGrib[..], gz, z)
  {
    hide InStream, Shl, Shr, Low, NatOf;
    z, cbits, c := z0, cbits0, c0;
    var jbits := numBits;
    while cbits <= jbits
      invariant z0 <= z <= gz + len && 1 <= cbits <= 8 && 0 <= jbits <= numBits
      invariant 8 * (z - gz) + (8 - cbits) == done + (numBits - jbits)
      invariant InStream(NatOf(lGrib[gz..z]), cbits, c, acc, ival, numBits, jbits)
      invariant Untouched(old(lGrib[..]), lGrib[..], gz, z)
      decreases jbits
    {
      OctetDone(NatOf(lGrib[gz..z]), cbits, c, acc, ival, numBits, jbits);
      if cbits == 8 {
        OpenOctetEmpty(NatOf(lGrib[gz..z]), c, acc, ival, numBits, jbits);
        jbits := jbits - 8;
        z := Put(lGrib, gz, z, Low(Shr(ival, jbits), 8));
      } else {
        jbits := jbits - cbits;
        z := Put(lGrib, gz, z, Shl(c, cbits) + Low(Shr(ival, jbits), cbits));
        cbits, c := 8, 0;
      }
    }
    if jbits != 0 {
      BitsKept(NatOf(lGrib[gz..z]), cbits, c, acc, ival, numBits, jbits);
      c := Shl(c, jbits) + Low(ival, jbits);
      cbits := cbits - jbits;
    }
  }

  /** The packer's state after the values vals. */
  ghost predicate Streamed(out: nat, cbits: int, c: int, vals: seq<int>, w: nat) {
    1 <= cbits <= 8 && 0 <= c < Pow2(8 - cbits) && Shl(out, 8 - cbits) + c == Concat(vals, w)
  }

  lemma StreamStart(out: nat, cbits: int, c: int, vals: seq<int>, ival: int, w: nat)
    requires Streamed(out, cbits, c, vals, w)
    ensures InStream(out, cbits, c, Concat(vals, w), ival, w, w)
  {
    LowSmall(Low(ival, w), w);
    assert Shl(Concat(vals, w), 0) == Concat(vals, w);
  }

  /** The accumulator type (m bits) is wide enough for the bits that are stored. */
  lemma StreamedNext(out: nat, cbits: int, c: int, vals: seq<int>, v: int, w: nat, m: nat)
    requires w <= m && InStream(out, cbits, c, Concat(vals, w), Low(v, m), w, 0)
    ensures Streamed(out, cbits, c, vals + [v], w)
  {
    ConcatAppend(vals, v, w);
    LowLow(v, w, m);
    assert Shr(Low(Low(v, m), w), 0) == Low(v, w);
  }

  /** Shifting the pending bits to the top of the last octet pads it with zeros. */
  lemma LastOctet(out: nat, cbits: nat, c: nat, vals: seq<int>, w: nat)
    requires Streamed(out, cbits, c, vals, w) && cbits < 8
    ensures 0 <= Shl(c, cbits) < 256
    ensures 256 * out + Shl(c, cbits) == Shl(Concat(vals, w), cbits)
  {
    PushBits(out, c, 8 - cbits, cbits, 0);
    Octet(out);
  }

  method EncodeCommon(numBits: nat, packStart: nat, datasize: nat, lGrib: array<byte>,
                      data: seq<real>, zref: real, factor: real, gz: nat)
    returns (gz': nat)
    requires numBits <= 32 && packStart <= datasize <= |data|
    requires gz + PackedLen(datasize - packStart, numBits) <= lGrib.Length
    modifies lGrib
    ensures gz' == gz + PackedLen(datasize - packStart, numBits)
    ensures lGrib[..] == Stored(old(lGrib[..]), gz,
                                PackedBytes(QuantiseAll(data[packStart..datasize], zref, factor), numBits))
  {
    hide Shl, Shr, Low, NatOf, Streamed, InStream, PackedBytes, Quantise, Stored, Concat;
    ghost var vals := QuantiseAll(data[packStart..datasize], zref, factor);
    ghost var len := PackedLen(|vals|, numBits);
    var z, cbits, c: nat := gz, 8, 0;
    StreamNothing(numBits, lGrib[gz..gz]);
    for i := packStart to datasize
      invariant 1 <= cbits <= 8 && gz <= z <= gz + len
      invariant 8 * (z - gz) + (8 - cbits) == BitCount(i - packStart, numBits)
      invariant Streamed(NatOf(lGrib[gz..z]), cbits, c, vals[..i - packStart], numBits)
      invariant Untouched(old(lGrib[..]), lGrib[..], gz, z)
    {
      var ival := Low(Quantise(data[i], zref, factor), 32);
      ghost var k := i - packStart;
      BitCountMonotone(k + 1, |vals|, numBits);
      StreamStart(NatOf(lGrib[gz..z]), cbits, c, vals[..k], ival, numBits);
      z, cbits, c := AppendValue(numBits, ival, lGrib, gz, z, cbits, c,
                                 BitCount(k, numBits), len, Concat(vals[..k], numBits));
      StreamedNext(NatOf(lGrib[gz..z]), cbits, c, vals[..k], vals[k], numBits, 32);
      assert vals[..k + 1] == vals[..k] + [vals[k]];
    }
    assert vals[..|vals|] == vals;
    gz' := WriteLastOctet(numBits, lGrib, gz, z, cbits, c, vals);
    UntouchedStored(old(lGrib[..]), lGrib[..], gz, gz');
    assert lGrib[..][gz..gz'] == lGrib[gz..gz'];
  }

  /** After the loop: an open octet is written out with its free bits zero. */
  method WriteLastOctet(numBits: nat, lGrib: array<byte>, ghost gz: nat, z: nat, cbits: nat, c: nat,
                        ghost vals: seq<int>)
    returns (z': nat)
    requires gz <= z <= gz + PackedLen(|vals|, numBits) <= lGrib.Length
    requires 1 <= cbits <= 8 && 8 * (z - gz) + (8 - cbits) == BitCount(|vals|, numBits)
    requires Streamed(NatOf(lGrib[gz..z]), cbits, c, vals, numBits)
    modifies lGrib
    ensures z' == gz + PackedLen(|vals|, numBits)
    ensures lGrib[gz..z'] == PackedBytes(vals, numBits)
    ensures Untouched(old(lGrib[..]), lGrib[..], z, z')
  {
    hide Shl, NatOf, PackedBytes;
    if cbits != 8 {
      LastOctet(NatOf(lGrib[gz..z]), cbits, c, vals, numBits);
      z' := Put(lGrib, gz, z, Shl(c, cbits));
    } else {
      StreamWhole(NatOf(lGrib[gz..z]), c, vals, numBits);
      z' := z;
    }
    PackedUnique(lGrib[gz..z'], vals, numBits);
  }

  lemma StreamNothing(w: nat, none: seq<byte>)
    requires none == []
    ensures Streamed(NatOf(none), 8, 0, [], w)
  {
  }

  lemma StreamWhole(out: nat, c: int, vals: seq<int>, w: nat)
    requires Streamed(out, 8, c, vals, w)
    ensures out == Shl(Concat(vals, w), 0)
  {
    assert Pow2(0) == 1;
  }

  // ---------------------------------------------------------------- the byte-width packers

  /** What an encoder of src/encode_double_array.cc writes; other widths are reported and skipped. */
  function Encoded(numBits: int, vals: seq<int>): seq<byte> {
    if 0 <= numBits <= 32 then PackedBytes(vals, numBits) else []
  }

  lemma {:induction false} NoBits(n: nat)
    ensures BitCount(n, 0) == 0
  {
    if n > 0 { NoBits(n - 1); }
  }

  predicate WholeBytes(numBits: int) {
    numBits == 8 || numBits == 16 || numBits == 24 || numBits == 32
  }

  /** One more whole octet of ival, with nothing pending before or after. */
  lemma WholeOctet(out: nat, acc: nat, ival: int, w: nat, j: nat)
    requires 8 <= j && InStream(out, 8, 0, acc, ival, w, j)
    ensures InStream(256 * out + Low(Shr(ival, j - 8), 8), 8, 0, acc, ival, w, j - 8)
    ensures Low(Shr(ival, j - 8), 8) < 256
  {
    hide Shr, Low, Shl, InStream;
    OctetDone(out, 8, 0, acc, ival, w, j);
    ShlZero(8);
    Octet(0);
  }

  /** The octets of one value, most significant first, each cut to an unsigned char. */
  method StoreValue(numBits: nat, ival: nat, lGrib: array<byte>, ghost gz: nat, z0: nat, ghost acc: nat)
    returns (z: nat)
    requires WholeBytes(numBits) && gz <= z0 && z0 + numBits / 8 <= lGrib.Length
    requires InStream(NatOf(lGrib[gz..z0]), 8, 0, acc, ival, numBits, numBits)
    modifies lGrib
    ensures z == z0 + numBits / 8
    ensures InStream(NatOf(lGrib[gz..z]), 8, 0, acc, ival, numBits, 0)
    ensures Untouched(old(lGrib[..]), lGrib[..], z0, z)
  {
    hide InStream, Low, Shr, NatOf;
    z := z0;
    if numBits >= 32 {
      WholeOctet(NatOf(lGrib[gz..z]), acc, ival, numBits, 32);
      z := Put(lGrib, gz, z, Low(Shr(ival, 24), 8));
    }
    if numBits >= 24 {
      WholeOctet(NatOf(lGrib[gz..z]), acc, ival, numBits, 24);
      z := Put(lGrib, gz, z, Low(Shr(ival, 16), 8));
    }
    if numBits >= 16 {
      WholeOctet(NatOf(lGrib[gz..z]), acc, ival, numBits, 16);
      z := Put(lGrib, gz, z, Low(Shr(ival, 8), 8));
    }
    WholeOctet(NatOf(lGrib[gz..z]), acc, ival, numBits, 8);
    z := Put(lGrib, gz, z, Low(Shr(ival, 0), 8));
  }

  /** Value k of a whole-byte packing: StoreValue extends the stream by vals[k]. */
  method StoreNext(numBits: nat, v: int, lGrib: array<byte>, ghost gz: nat, z: nat,
                   ghost vals: seq<int>, ghost k: nat)
    returns (z': nat)
    requires WholeBytes(numBits) && k < |vals| && v == vals[k]
    requires gz <= z <= gz + PackedLen(|vals|, numBits) <= lGrib.Length
    requires 8 * (z - gz) == BitCount(k, numBits)
    requires Streamed(NatOf(lGrib[gz..z]), 8, 0, vals[..k], numBits)
    modifies lGrib
    ensures 8 * (z' - gz) == BitCount(k + 1, numBits)
    ensures z <= z' <= gz + PackedLen(|vals|, numBits)
    ensures Streamed(NatOf(lGrib[gz..z']), 8, 0, vals[..k + 1], numBits)
    ensures Untouched(old(lGrib[..]), lGrib[..], z, z')
  {
    hide InStream, Streamed, Low, Shr, NatOf, Concat, Pow2;
    BitCountMonotone(k + 1, |vals|, numBits);
    StreamStart(NatOf(lGrib[gz..z]), 8, 0, vals[..k], Low(v, 64), numBits);
    z' := StoreValue(numBits, Low(v, 64), lGrib, gz, z, Concat(vals[..k], numBits));
    StreamedNext(NatOf(lGrib[gz..z']), 8, 0, vals[..k], v, numBits, 64);
    assert vals[..k + 1] == vals[..k] + [v];
  }

  /** All values stored: the octets are the packed ones. */
  lemma WholeDone(p: seq<byte>, vals: seq<int>, w: nat)
    requires 8 * |p| == BitCount(|vals|, w) && Streamed(NatOf(p), 8, 0, vals, w)
    ensures p == PackedBytes(vals, w)
  {
    StreamWhole(NatOf(p), 0, vals, w);
    PackedUnique(p, vals, w);
  }

  method EncodeByte(numBits: int, packStart: nat, datasize: nat, lGrib: array<byte>,
                    data: seq<real>, zref: real, factor: real, gz: nat)
    returns (gz': nat)
    requires packStart <= datasize <= |data|
    requires gz + |Encoded(numBits, QuantiseAll(data[packStart..datasize], zref, factor))| <= lGrib.Length
    modifies lGrib
    ensures var out := Encoded(numBits, QuantiseAll(data[packStart..datasize], zref, factor));
            gz' == gz + |out| && lGrib[..] == Stored(old(lGrib[..]), gz, out)
  {
    hide InStream, Streamed, Low, Shr, NatOf, PackedBytes, Quantise, Concat;
    var values := data[packStart..datasize];
    ghost var vals := QuantiseAll(values, zref, factor);
    var z := gz;
    if WholeBytes(numBits) {
      StreamNothing(numBits, lGrib[gz..gz]);
      for i := 0 to |values|
        invariant gz <= z <= gz + PackedLen(|vals|, numBits) && 8 * (z - gz) == BitCount(i, numBits)
        invariant Streamed(NatOf(lGrib[gz..z]), 8, 0, vals[..i], numBits)
        invariant Untouched(old(lGrib[..]), lGrib[..], gz, z)
      {
        z := StoreNext(numBits, Quantise(values[i], zref, factor), lGrib, gz, z, vals, i);
      }
      assert vals[..|vals|] == vals;
      WholeDone(lGrib[gz..z], vals, numBits);
      UntouchedStored(old(lGrib[..]), lGrib[..], gz, z);
      assert lGrib[..][gz..z] == lGrib[gz..z];
    } else if 0 < numBits <= 32 {
      assert values[0..|values|] == values;
      z := EncodeCommon(numBits, 0, |values|, lGrib, values, zref, factor, z);
    } else {
      NoBits(|vals|);
      assert lGrib[..] == Stored(old(lGrib[..]), gz, []);
    }
    gz' := z;
  }

  /** Values are quantised in blocks of eight, then stored; on a big-endian machine the 16- and
      32-bit values go through a typed pointer (its own cursor, g), as 8-bit ones always do. */
  method EncodeUnrolled(numBits: int, packStart: nat, datasize: nat, lGrib: array<byte>,
                        data: seq<real>, zref: real, factor: real, gz: nat, bigEndian: bool)
    returns (gz': nat)
    requires packStart <= datasize <= |data|
    requires gz + |Encoded(numBits, QuantiseAll(data[packStart..datasize], zref, factor))| <= lGrib.Length
    modifies lGrib
    ensures var out := Encoded(numBits, QuantiseAll(data[packStart..datasize], zref, factor));
            gz' == gz + |out| && lGrib[..] == Stored(old(lGrib[..]), gz, out)
  {
    hide InStream, Streamed, Low, Shr, NatOf, PackedBytes, Quantise, Concat;
    var values := data[packStart..datasize];
    ghost var vals := QuantiseAll(values, zref, factor);
    var z := gz;
    if WholeBytes(numBits) {
      z := EncodeBlocks(numBits, numBits == 8 || (bigEndian && numBits != 24), values, zref, factor,
                        lGrib, gz, vals);
      UntouchedStored(old(lGrib[..]), lGrib[..], gz, z);
      assert lGrib[..][gz..z] == lGrib[gz..z];
    } else if 0 < numBits <= 32 {
      assert values[0..|values|] == values;
      z := EncodeCommon(numBits, 0, |values|, lGrib, values, zref, factor, z);
    } else {
      NoBits(|vals|);
      assert lGrib[..] == Stored(old(lGrib[..]), gz, []);
    }
    gz' := z;
  }

  /** All whole blocks of eight, then the residual ones. */
  method EncodeBlocks(numBits: nat, typed: bool, values: seq<real>, zref: real, factor: real,
                      lGrib: array<byte>, gz: nat, ghost vals: seq<int>)
    returns (z: nat)
    requires WholeBytes(numBits) && vals == QuantiseAll(values, zref, factor)
    requires gz + PackedLen(|vals|, numBits) <= lGrib.Length
    modifies lGrib
    ensures z == gz + PackedLen(|vals|, numBits)
    ensures lGrib[gz..z] == PackedBytes(vals, numBits)
    ensures Untouched(old(lGrib[..]), lGrib[..], gz, z)
  {
    hide InStream, Streamed, Low, Shr, NatOf, PackedBytes, QuantiseAll, Concat;
    var residual := |values| % 8;
    z := gz;
    var g: nat := z;
    var i := 0;
    StreamNothing(numBits, lGrib[gz..gz]);
    while i < |values| - residual
      invariant 0 <= i <= |values| - residual && i % 8 == 0
      invariant gz <= z <= gz + PackedLen(|vals|, numBits) && 8 * (z - gz) == BitCount(i, numBits)
      invariant typed ==> g == z
      invariant Streamed(NatOf(lGrib[gz..z]), 8, 0, vals[..i], numBits)
      invariant Untouched(old(lGrib[..]), lGrib[..], gz, z)
    {
      QuantiseSlice(values, zref, factor, i, i + 8);
      g, z := EncodeBlock(numBits, typed, values[i..i + 8], zref, factor, lGrib, gz, g, z, vals, i);
      i := i + 8;
    }
    QuantiseSlice(values, zref, factor, i, |values|);
    assert values[i..|values|] == values[i..];
    g, z := EncodeBlock(numBits, typed, values[i..], zref, factor, lGrib, gz, g, z, vals, i);
    assert vals[..|vals|] == vals;
    WholeDone(lGrib[gz..z], vals, numBits);
  }

  lemma QuantiseSlice(values: seq<real>, zref: real, factor: real, i: nat, j: nat)
    requires i <= j <= |values|
    ensures QuantiseAll(values, zref, factor)[i..j] == QuantiseAll(values[i..j], zref, factor)
  {
    hide Quantise;
  }

  /** One block of up to eight values: all are scaled first (dval), then all are stored. */
  method EncodeBlock(numBits: nat, typed: bool, block: seq<real>, zref: real, factor: real,
                     lGrib: array<byte>, ghost gz: nat, g0: nat, z0: nat, ghost vals: seq<int>, ghost k: nat)
    returns (g: nat, z: nat)
    requires WholeBytes(numBits) && |block| <= 8 && k + |block| <= |vals|
    requires vals[k..k + |block|] == QuantiseAll(block, zref, factor)
    requires gz <= z0 <= gz + PackedLen(|vals|, numBits) <= lGrib.Length
    requires 8 * (z0 - gz) == BitCount(k, numBits) && (typed ==> g0 == z0)
    requires Streamed(NatOf(lGrib[gz..z0]), 8, 0, vals[..k], numBits)
    modifies lGrib
    ensures 8 * (z - gz) == BitCount(k + |block|, numBits) && (typed ==> g == z)
    ensures z0 <= z <= gz + PackedLen(|vals|, numBits)
    ensures Streamed(NatOf(lGrib[gz..z]), 8, 0, vals[..k + |block|], numBits)
    ensures Untouched(old(lGrib[..]), lGrib[..], z0, z)
  {
    hide InStream, Streamed, Low, Shr, NatOf, Concat, Trunc, Steps;
    var dval := new real[8];
    for j := 0 to |block|
      invariant forall m :: 0 <= m < j ==> dval[m] == Steps(block[m], zref, factor)
      modifies dval
    {
      dval[j] := Steps(block[j], zref, factor);
    }
    g, z := g0, z0;
    assert vals[..k + 0] == vals[..k] && lGrib[gz..z0] == old(lGrib[gz..z0]);
    for j := 0 to |block|
      invariant z0 <= z <= gz + PackedLen(|vals|, numBits)
      invariant 8 * (z - gz) == BitCount(k + j, numBits) && (typed ==> g == z)
      invariant Streamed(NatOf(lGrib[gz..z]), 8, 0, vals[..k + j], numBits)
      invariant Untouched(old(lGrib[..]), lGrib[..], z0, z)
      invariant forall m :: 0 <= m < |block| ==> dval[m] == Steps(block[m], zref, factor)
    {
      assert vals[k + j] == vals[k..k + |block|][j] == Quantise(block[j], zref, factor);
      if typed {
        g := StoreNext(numBits, Trunc(dval[j]), lGrib, gz, g, vals, k + j);
        z := z + numBits / 8;
      } else {
        z := StoreNext(numBits, Trunc(dval[j]), lGrib, gz, z, vals, k + j);
      }
    }
  }
}
