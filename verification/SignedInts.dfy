/** Sign-and-magnitude integers of whole octets (src/grib_bits.cc). */
module SignedInts {
  import opened Shifts
  import opened Bits
  import opened Packing
  import opened Readers
  import opened Writers

  function Abs(x: int): nat { if x < 0 then -x else x }

  /** The l octets stored for val: the low-order octets of its magnitude, the first bit set
      when it is negative. */
  function SignedBytes(val: int, l: nat): (p: seq<byte>)
    requires l > 0
    ensures |p| == l
  {
    if val < 0 then WithBit(BytesOf(-val, l), 0, true) else BytesOf(val, l)
  }

  /** The number in octets p: the first bit is the sign, the rest the magnitude. */
  function SignedValue(p: seq<byte>): int
    requires p != []
  {
    var m: int := Field(p, 1, 8 * |p| - 1);
    if BitAt(p, 0) == 1 then -m else m
  }

  /** Sign and magnitude determine the octets. */
  lemma SignMagnitudeParts(p: seq<byte>)
    requires p != []
    ensures NatOf(p) == Shl(BitAt(p, 0), 8 * |p| - 1) + Field(p, 1, 8 * |p| - 1)
  {
    hide BitAt, Field, Shl, Low, Shr, NatOf;
    NatOfWhole(p);
    FieldSplit(p, 0, 1, 8 * |p| - 1);
    FieldOne(p, 0);
  }

  lemma SamePartsSameOctets(p: seq<byte>, q: seq<byte>)
    requires |p| == |q| && p != [] && BitAt(p, 0) == BitAt(q, 0)
    requires Field(p, 1, 8 * |p| - 1) == Field(q, 1, 8 * |q| - 1)
    ensures p == q
  {
    hide BitAt, Field, NatOf;
    SignMagnitudeParts(p);
    SignMagnitudeParts(q);
    BytesOfNat(p);
    BytesOfNat(q);
  }

  lemma {:induction false} BytesOfLow(v: nat, len: nat)
    ensures NatOf(BytesOf(v, len)) == Low(v, 8 * len)
  {
    hide Low;
    if len > 0 {
      BytesOfLow(v / 256, len - 1);
      NatOfAppend(BytesOf(v / 256, len - 1), v % 256);
      LowByte(v / 256, v % 256, 8 * len);
    } else {
      LowNothing(v);
    }
  }

  lemma LowNothing(v: nat)
    ensures Low(v, 0) == 0
  {
  }

  /** Sign bit and magnitude of octets that hold the low-order part of m. */
  lemma MagnitudeBytes(m: nat, l: nat)
    requires l > 0
    ensures Field(BytesOf(m, l), 1, 8 * l - 1) == Low(m, 8 * l - 1)
    ensures BitAt(BytesOf(m, l), 0) == 0 <==> Low(m, 8 * l) == Low(m, 8 * l - 1)
  {
    hide BitAt, Field, NatOf, BytesOf, Low;
    var p := BytesOf(m, l);
    BytesOfLow(m, l);
    SignMagnitudeParts(p);
    HighLowUnique(NatOf(p), 8 * l - 1, BitAt(p, 0), Field(p, 1, 8 * l - 1));
    LowLow(m, 8 * l - 1, 8 * l);
    ShlZero(8 * l - 1);
    ShlOne(8 * l - 1);
  }

  /** Setting the first bit leaves the magnitude alone. */
  lemma SignBitSet(p: seq<byte>)
    requires p != []
    ensures BitAt(WithBit(p, 0, true), 0) == 1
    ensures Field(WithBit(p, 0, true), 1, 8 * |p| - 1) == Field(p, 1, 8 * |p| - 1)
  {
    hide BitAt, WithBit;
    var q := WithBit(p, 0, true);
    forall i: nat | i < 8 * |p|
      ensures BitAt(q, i) == if i == 0 then 1 else BitAt(p, i)
    {
      WithBitAt(p, 0, true, i);
    }
    FieldFrame(p, q, 1, 1, 8 * |p| - 1);
  }

  /** Reading back what was written gives the value exactly when its magnitude leaves the first
      bit free. */
  lemma EncodeDecodeIff(val: int, l: nat)
    requires l > 0
    ensures SignedValue(SignedBytes(val, l)) == val <==> Abs(val) < Pow2(8 * l - 1)
  {
    hide BitAt, Field, WithBit, BytesOf, Low;
    var m := Abs(val);
    MagnitudeBytes(m, l);
    SignBitSet(BytesOf(m, l));
    if m < Pow2(8 * l - 1) {
      LowSmall(m, 8 * l - 1);
      LowSmall(m, 8 * l);
    }
  }

  function NegativeZero(l: nat): seq<byte>
    requires l > 0
  {
    WithBit(BytesOf(0, l), 0, true)
  }

  /** Writing back what was read gives the same octets, except for a zero with the sign bit set. */
  lemma DecodeEncodeIff(p: seq<byte>)
    requires p != []
    ensures SignedBytes(SignedValue(p), |p|) == p <==> p != NegativeZero(|p|)
  {
    hide BitAt, Field, WithBit, BytesOf, Low;
    var l, m := |p|, Field(p, 1, 8 * |p| - 1);
    LowSmall(m, 8 * l - 1);
    LowSmall(m, 8 * l);
    LowSmall(0, 8 * l - 1);
    LowSmall(0, 8 * l);
    MagnitudeBytes(m, l);
    MagnitudeBytes(0, l);
    SignBitSet(BytesOf(m, l));
    SignBitSet(BytesOf(0, l));
    var q := SignedBytes(SignedValue(p), l);
    if BitAt(p, 0) == 0 || m > 0 {
      SamePartsSameOctets(p, q);
    } else {
      SamePartsSameOctets(p, NegativeZero(l));
    }
  }

  /** The octets of a negative zero: a one bit, then zeros. */
  lemma NegativeZeroOctets(l: nat)
    requires l > 0
    ensures NegativeZero(l) == [128] + seq(l - 1, _ => 0)
  {
    ZeroBytes(l);
    var z := BytesOf(0, l);
    assert PutBit(0, 7, true) == 128 by {
      Octet(0);
      LowSmall(0, 7);
      LowSmall(0, 8);
      ShlZero(8);
    }
    assert z[0] == 0;
  }

  lemma {:induction false} ZeroBytes(l: nat)
    ensures BytesOf(0, l) == seq(l, _ => 0)
  {
    if l > 0 { ZeroBytes(l - 1); }
  }

  /** grib_encode_signed_long for 1 to 8 octets; accum is an unsigned short, the octet its low byte. */
  method EncodeSignedLong(p: array<byte>, val: int, o: nat, l: nat)
    requires 1 <= l <= 8 && o + l <= p.Length && Abs(val) < Pow2(63)
    modifies p
    ensures p[..] == Stored(old(p[..]), o, SignedBytes(val, l))
  {
    hide Low, Shr, Pow2, WithBit, PutBit;
    var sign := val < 0;
    var magnitude := if sign then -1 * val else val;
    ghost var bytes := BytesOf(magnitude, l);
    for i := 0 to l
      invariant forall k :: 0 <= k < i ==> p[o + k] == bytes[k]
      invariant Untouched(old(p[..]), p[..], o, o + i)
    {
      var accum := Low(Shr(magnitude, l * 8 - 8 * (i + 1)), 16);
      OctetAt(magnitude, l, i);
      p[o + i] := Low(accum, 8);
    }
    assert p[..][o..o + l] == bytes;
    UntouchedStored(old(p[..]), p[..], o, o + l);
    if sign {
      PutBitByte(p[o], 7, true);
      p[o] := PutBit(p[o], 7, true);
      ghost var w := bytes[0 := PutBit(bytes[0], 7, true)];
      assert p[..] == Stored(old(p[..]), o, w);
      WithFirstBit(bytes);
    }
  }

  lemma WithFirstBit(b: seq<byte>)
    requires b != []
    ensures 0 <= PutBit(b[0], 7, true) < 256
    ensures WithBit(b, 0, true) == b[0 := PutBit(b[0], 7, true)]
  {
    PutBitByte(b[0], 7, true);
  }

  /** Octet i of the l low-order octets of v. */
  lemma {:induction false} OctetAt(v: nat, l: nat, i: nat)
    requires i < l
    ensures BytesOf(v, l)[i] == Low(Low(Shr(v, l * 8 - 8 * (i + 1)), 16), 8)
    decreases l
  {
    hide Low, Shr;
    LowLow(Shr(v, l * 8 - 8 * (i + 1)), 8, 16);
    if i < l - 1 {
      OctetAt(v / 256, l - 1, i);
      LowLow(Shr(v / 256, (l - 1) * 8 - 8 * (i + 1)), 8, 16);
      Octet(v);
      ShrAdd(v, 8, (l - 1) * 8 - 8 * (i + 1));
    } else {
      ShrNothing(v);
      Octet(v);
    }
  }

  lemma ShrNothing(v: int)
    ensures Shr(v, 0) == v
  {
  }

  /** grib_decode_signed_long */
  method DecodeSignedLong(p: seq<byte>, o: nat, l: nat) returns (val: int)
    requires 1 <= l <= 8 && o + l <= |p|
    ensures val == SignedValue(p[o..o + l])
  {
    hide Low, Shr, Pow2, BitAt, Field, Shl;
    ghost var q := p[o..o + l];
    var b := p[o];
    var o' := o + 1;
    var sign := BitAt([b], 0);
    FirstOctet(q);
    b := Low(b, 7);
    var accum: int := b;
    for i := 1 to l
      invariant o' == o + i && accum == Field(q, 1, 8 * i - 1)
    {
      b := p[o'];
      o' := o' + 1;
      FieldByte(q, 1, 8 * i - 1, i);
      ShlOctet(accum);
      accum := Shl(accum, 8) + b;
    }
    val := if sign == 0 then accum else -accum;
  }

  /** The first octet holds the sign and the top seven bits of the magnitude. */
  lemma FirstOctet(q: seq<byte>)
    requires q != []
    ensures BitAt([q[0]], 0) == BitAt(q, 0)
    ensures Low(q[0], 7) == Field(q, 1, 7)
  {
    ByteField(q, 0);
    FieldSplit(q, 0, 1, 7);
  }
}
