/** Unsigned integers of any width, read and written at any bit position (src/grib_bits_any_endian.cc). */
module UnsignedInts {
  import opened Results
  import opened Shifts
  import opened Bits
  import opened Packing
  import opened Readers
  import opened Writers
  import opened SignedInts

  // ---------------------------------------------------------------- reading

  /** Of a number of more than 64 bits, first the bits that exceed a multiple of 64 are read, then 64 at
      a time. */
  function FirstBits(nbits: nat): (n: nat)
    requires nbits > 64
    ensures 0 < n <= 64 && n < nbits && (nbits - n) % 64 == 0
  {
    if nbits % 64 != 0 then nbits % 64 else 64
  }

  /** What comes of it.  Pieces before the last must be zero, as far as an int shows; nothing comes of a
      number for which an assertion fails. */
  function ReadWide(p: seq<byte>, bitp: nat, nbits: nat): Option<nat>
    requires bitp + nbits <= 8 * |p|
    decreases nbits
  {
    if nbits <= 64 then Some(Read(false, p, bitp, nbits))
    else
      var n := FirstBits(nbits);
      if Low(Read(false, p, bitp, n), 32) != 0 then None else ReadWide(p, bitp + n, nbits - n)
  }

  /** grib_decode_unsigned_long; the accumulator is an unsigned long, and the value of a piece goes
      through an int before it is compared. */
  method DecodeUnsignedLong(p: seq<byte>, bitp: nat, nbits: nat) returns (ret: Option<nat>, bitp': nat)
    requires bitp + nbits <= 8 * |p|
    ensures ret == ReadWide(p, bitp, nbits) && (ret.Some? ==> bitp' == bitp + nbits)
    ensures nbits <= 64 && Fits(bitp, nbits) ==> ret == Some(Field(p, bitp, nbits))
    decreases nbits
  {
    hide Wrap, Field, Shr, Low, Read;
    bitp' := bitp;
    if nbits == 0 {
      NothingRead(p, bitp);
      return Some(0), bitp;
    }
    if nbits > 64 {
      var bits, mod := nbits, nbits % 64;
      var e;
      if mod != 0 {
        e, bitp' := DecodeUnsignedLong(p, bitp', mod);
        if Low(e.value, 32) != 0 { return None, bitp'; }
        bits := bits - mod;
      }
      while bits > 64
        invariant 0 < bits <= nbits && bits % 64 == 0 && bitp' + bits == bitp + nbits
        invariant ReadWide(p, bitp, nbits) == ReadWide(p, bitp', bits)
      {
        e, bitp' := DecodeUnsignedLong(p, bitp', 64);
        if Low(e.value, 32) != 0 { return None, bitp'; }
        bits := bits - 64;
      }
      ret, bitp' := DecodeUnsignedLong(p, bitp', bits);
      return;
    }
    var acc, _, bitsToRead := ReadOctets(p, bitp / 8, 8 - bitp % 8, nbits, false, bitp);
    ReadIsWindow(p, bitp, nbits);
    ret, bitp' := Some(Low(Shr(acc, -bitsToRead), nbits)), bitp + nbits;
    if Fits(bitp, nbits) { ReadExact(false, p, bitp, nbits); }
  }

  lemma ReadIsWindow(p: seq<byte>, s: nat, w: nat)
    requires s + w <= 8 * |p|
    ensures Read(false, p, s, w)
         == Low(Shr(Wrap(false, Field(p, 8 * (s / 8), 8 * Octets(s, w))), Over(s, w)), w)
  {
  }

  lemma NothingRead(p: seq<byte>, s: nat)
    requires s <= 8 * |p|
    ensures Read(false, p, s, 0) == 0 == Field(p, s, 0)
  {
  }

  /** A number of more than 64 bits that ends with an octet is read right exactly when it is below 2^64. */
  lemma {:induction false} WideReadIff(p: seq<byte>, bitp: nat, nbits: nat)
    requires nbits > 64 && bitp + nbits <= 8 * |p| && (bitp + nbits) % 8 == 0
    ensures ReadWide(p, bitp, nbits) == Some(Field(p, bitp, nbits)) <==> Field(p, bitp, nbits) < Pow2(64)
    decreases nbits
  {
    hide Field, Read, Low, Shl, Pow2, Shr, Fits;
    var n := FirstBits(nbits);
    var m := nbits - n;
    EndsFit(bitp, n, m);
    FieldSplit(p, bitp, n, m);
    ReadExact(false, p, bitp, n);
    if Field(p, bitp, n) == 0 {
      ShlZero(m);
      LowZero();
      if m > 64 { WideReadIff(p, bitp + n, m); } else { ReadExact(false, p, bitp + n, m); }
    } else {
      HighPart(Field(p, bitp, n), m);
      BelowWide(p, bitp + n, m);
    }
  }

  /** Pieces that end with an octet fit the accumulator. */
  lemma EndsFit(bitp: nat, n: nat, m: nat)
    requires (bitp + (n + m)) % 8 == 0 && n <= 64 && m > 0 && m % 64 == 0
    ensures Fits(bitp, n) && m >= 64 && (bitp + n + m) % 8 == 0
    ensures m == 64 ==> Fits(bitp + n, m)
  {
    assert m == 8 * (m / 64 * 8);
    assert (bitp + n) % 8 == 0;
  }

  lemma LowZero()
    ensures Low(0, 32) == 0
  {
    hide Pow2;
    LowSmall(0, 32);
  }

  lemma HighPart(x: nat, m: nat)
    requires x > 0 && m >= 64
    ensures Shl(x, m) >= Pow2(64)
  {
    hide Pow2, Shl;
    ShlIsMul(x, m);
    Pow2Monotone(64, m);
    assert x * Pow2(m) >= 1 * Pow2(m);
  }

  lemma {:induction false} BelowWide(p: seq<byte>, bitp: nat, nbits: nat)
    requires bitp + nbits <= 8 * |p|
    ensures var r := ReadWide(p, bitp, nbits); r.Some? ==> r.value < Pow2(64)
    decreases nbits
  {
    hide Read, Pow2, Low;
    if nbits <= 64 {
      BelowPow2(p, bitp, nbits);
      Pow2Monotone(nbits, 64);
    } else {
      var n := FirstBits(nbits);
      BelowWide(p, bitp + n, nbits - n);
    }
  }

  lemma BelowPow2(p: seq<byte>, s: nat, w: nat)
    requires s + w <= 8 * |p|
    ensures Read(false, p, s, w) < Pow2(w)
  {
  }

  /** Otherwise it may be taken for another number: 2^96 is read as 0. */
  lemma HighHalfUnseen()
    ensures var p := [0, 0, 0, 1, 0, 0, 0, 0, 0, 0, 0, 0, 0, 0, 0, 0];
            ReadWide(p, 0, 128) == Some(0) && Field(p, 0, 128) >= Pow2(64)
  {
    hide Field, Read, Low, Pow2, Shr, Shl;
    var p: seq<byte> := [0, 0, 0, 1, 0, 0, 0, 0, 0, 0, 0, 0, 0, 0, 0, 0];
    FieldSplit(p, 0, 32, 32);
    FieldSplit(p, 0, 64, 64);
    OctetsRead(p, 0, 4);
    OctetsRead(p, 4, 4);
    OctetsRead(p, 8, 8);
    ReadExact(false, p, 0, 64);
    ReadExact(false, p, 64, 64);
    OctetsZero(p[4..8]);
    OctetsZero(p[8..16]);
    OctetsZero(p[0..3]);
    NatOfAppend(p[0..3], 1);
    assert p[0..4] == p[0..3] + [1];
    ShlOne(32);
    HighPart(Field(p, 0, 64), 64);
  }

  lemma {:induction false} OctetsZero(p: seq<byte>)
    requires forall i :: 0 <= i < |p| ==> p[i] == 0
    ensures NatOf(p) == 0
    decreases |p|
  {
    if p != [] { OctetsZero(p[..|p| - 1]); }
  }

  // ---------------------------------------------------------------- whole octets

  /** Whole octets are read exactly. */
  lemma OctetsRead(p: seq<byte>, at: nat, n: nat)
    requires at + n <= |p| && n <= 8
    ensures Fits(8 * at, 8 * n) && Field(p, 8 * at, 8 * n) == NatOf(p[at..at + n])
  {
    hide Field, NatOf;
    var q := p[at..at + n];
    assert p == p[..at] + q + p[at + n..];
    FieldInside(p[..at], q, p[at + n..], 0, 8 * n);
    NatOfWhole(q);
  }

  // ---------------------------------------------------------------- writing

  /** Bit k of a number. */
  function ValueBit(v: nat, k: nat): nat { Shr(v, k) % 2 }

  /** Behind the last octet that is written.  When the number ends inside the octet it starts in, but not
      at its start, that is the octet after it. */
  function Touched(bitp: nat, nbits: nat): nat {
    if bitp % 8 != 0 && bitp % 8 + nbits < 8 then bitp / 8 + 2 else (bitp + nbits + 7) / 8
  }

  /** Bit i of the octets once val has been written: before it, excess bits of the value are laid over what
      was there; behind it, the rest of the octets that are written is cleared. */
  function BitWritten(was: seq<byte>, bitp: nat, nbits: nat, val: nat, i: nat): nat
    requires i < 8 * |was|
  {
    if i < bitp then
      if bitp / 8 <= i / 8 && ValueBit(val, bitp + nbits - 1 - i) == 1 then 1 else BitAt(was, i)
    else if i < bitp + nbits then ValueBit(val, bitp + nbits - 1 - i)
    else if i < 8 * Touched(bitp, nbits) then 0
    else BitAt(was, i)
  }

  ghost predicate Written(was: seq<byte>, now: seq<byte>, bitp: nat, nbits: nat, val: nat) {
    |was| == |now| && forall i :: 0 <= i < 8 * |was| ==> BitAt(now, i) == BitWritten(was, bitp, nbits, val, i)
  }

  /** x | y on k bits */
  function Or(x: nat, y: nat, k: nat): (r: nat)
    ensures r < Pow2(k)
    decreases k
  {
    if k == 0 then 0 else 2 * Or(x / 2, y / 2, k - 1) + (if x % 2 == 1 || y % 2 == 1 then 1 else 0)
  }

  lemma {:induction false} OrBit(x: nat, y: nat, k: nat, m: nat)
    requires m < k
    ensures ValueBit(Or(x, y, k), m) == if ValueBit(x, m) == 1 || ValueBit(y, m) == 1 then 1 else 0
    decreases k
  {
    hide Pow2;
    if m > 0 {
      OrBit(x / 2, y / 2, k - 1, m - 1);
      ShrHead(x, m);
      ShrHead(y, m);
      ShrHead(Or(x, y, k), m);
    }
  }

  lemma LowBit(x: nat, k: nat, m: nat)
    requires m < k
    ensures ValueBit(Low(x, k), m) == ValueBit(x, m)
  {
    hide Shr, Low;
    ShrLow(x, k - m, m);
    LowParity(Shr(x, m), k - m);
  }

  lemma ShlBit(x: nat, k: nat, m: nat)
    ensures ValueBit(Shl(x, k), m) == if m < k then 0 else ValueBit(x, m - k)
  {
    hide Shr, Shl;
    if m < k {
      ShlAdd(x, k - m, m);
      ShrOfShl(Shl(x, k - m), m);
      ShlEven(x, k - m);
    } else {
      ShrAdd(Shl(x, k), k, m - k);
      ShrOfShl(x, k);
    }
  }

  lemma ShrOfShl(x: nat, k: nat)
    ensures Shr(Shl(x, k), k) == x
  {
    HighLowUnique(Shl(x, k), k, x, 0);
  }

  lemma ShlEven(x: nat, k: nat)
    requires k > 0
    ensures Shl(x, k) % 2 == 0
  {
  }

  /** The n leading bits of an octet cleared but for the first 8 - n: p & dmasks[n] */
  function Masked(b: byte, n: nat): (r: nat)
    requires n <= 8
  {
    Shl(Shr(b, n), n)
  }

  lemma MaskedBit(b: byte, n: nat, m: nat)
    requires n <= 8
    ensures ValueBit(Masked(b, n), m) == if m < n then 0 else ValueBit(b, m)
  {
    hide Shr, Shl;
    ShlBit(Shr(b, n), n, m);
    if m >= n { ShrAdd(b, n, m - n); }
  }

  /** The first octet, when the number starts inside it; len is what is left to write after it. */
  function Head(b: byte, val: nat, n: nat, len: int): (r: byte)
    requires n <= 8
  {
    Octet(0);
    Or(if len < 0 then Low(Shl(val, -len), 8) else Low(Shr(val, len), 8), Masked(b, n), 8)
  }

  lemma HeadBits(was: seq<byte>, bitp: nat, nbits: nat, val: nat, i: nat)
    requires bitp % 8 != 0 && i < 8 * |was| && i / 8 == bitp / 8
    ensures var n := 8 - bitp % 8;
            ValueBit(Head(was[i / 8], val, n, nbits - n), 7 - i % 8) == BitWritten(was, bitp, nbits, val, i)
  {
    hide Shr, Shl, Low, Or, Masked;
    var n, m := 8 - bitp % 8, 7 - i % 8;
    var len, b := nbits - n, was[i / 8];
    var x := if len < 0 then Low(Shl(val, -len), 8) else Low(Shr(val, len), 8);
    OrBit(x, Masked(b, n), 8, m);
    MaskedBit(b, n, m);
    if len < 0 {
      LowBit(Shl(val, -len), 8, m);
      ShlBit(val, -len, m);
    } else {
      LowBit(Shr(val, len), 8, m);
      ShrAdd(val, len, m);
    }
  }

  /** An octet in the middle; len bits come behind it. */
  lemma MiddleBits(was: seq<byte>, bitp: nat, nbits: nat, val: nat, len: nat, i: nat)
    requires i < 8 * |was| && bitp <= i && 8 * (i / 8) + 8 + len == bitp + nbits
    ensures ValueBit(Low(Shr(val, len), 8), 7 - i % 8) == BitWritten(was, bitp, nbits, val, i)
  {
    hide Shr, Low;
    LowBit(Shr(val, len), 8, 7 - i % 8);
    ShrAdd(val, len, 7 - i % 8);
  }

  /** The last octet, of which len bits are wanted. */
  lemma EndBits(was: seq<byte>, bitp: nat, nbits: nat, val: nat, len: int, i: nat)
    requires i < 8 * |was| && bitp <= i && i / 8 < Touched(bitp, nbits) && len < 8
    requires 8 * (i / 8) + len == bitp + nbits
    ensures ValueBit(Low(Shl(val, 8 - len), 8), 7 - i % 8) == BitWritten(was, bitp, nbits, val, i)
  {
    hide Shl, Low, Shr;
    LowBit(Shl(val, 8 - len), 8, 7 - i % 8);
    ShlBit(val, 8 - len, 7 - i % 8);
  }

  /** grib_encode_unsigned_long.  Of a number of more than 64 bits the first ones are written as zeros;
      the value, an unsigned long, has no more than 64. */
  method EncodeUnsignedLong(p: array<byte>, val: nat, bitp: nat, nbits: nat) returns (bitp': nat)
    requires Touched(bitp, nbits) <= p.Length && (nbits > 64 ==> val < Pow2(64))
    modifies p
    ensures bitp' == bitp + nbits && Written(old(p[..]), p[..], bitp, nbits, val)
    decreases nbits
  {
    hide *;
    if nbits <= 64 {
      bitp' := EncodeShort(p, val, bitp, nbits);
      return;
    }
    bitp' := bitp;
    ghost var was := p[..];
    var bits, mod := nbits, nbits % 64;
    if mod != 0 {
      Pieces(bitp, mod, nbits - mod);
      bitp' := EncodeUnsignedLong(p, 0, bitp', mod);
      bits := bits - mod;
    }
    ZerosAre(was, p[..], bitp, mod);
    while bits > 64
      invariant 0 < bits <= nbits && bits % 64 == 0 && bitp' + bits == bitp + nbits
      invariant ZerosWritten(was, p[..], bitp, bitp' - bitp)
    {
      Pieces(bitp', 64, bits - 64);
      Pieces(bitp, bitp' - bitp, bits);
      ghost var before, at := p[..], bitp';
      bitp' := EncodeUnsignedLong(p, 0, bitp', 64);
      WrittenThen(was, before, p[..], bitp, at - bitp, 0);
      ZerosAre(was, p[..], bitp, bitp' - bitp);
      bits := bits - 64;
    }
    Pieces(bitp, bitp' - bitp, bits);
    ghost var before, at := p[..], bitp';
    bitp' := EncodeUnsignedLong(p, val, bitp', bits);
    WrittenThen(was, before, p[..], bitp, at - bitp, val);
  }

  /** Up to 64 bits: the head, the octets in the middle, the end bits. */
  method EncodeShort(p: array<byte>, val: nat, bitp: nat, nbits: nat) returns (bitp': nat)
    requires Touched(bitp, nbits) <= p.Length
    modifies p
    ensures bitp' == bitp + nbits && Written(old(p[..]), p[..], bitp, nbits, val)
  {
    hide *;
    ghost var was, o := p[..], bitp / 8;
    var len, s := nbits, bitp % 8;
    var n := 8 - s;
    Limits(bitp, nbits);
    var z := Shr(bitp, 3);
    ByteAddress(bitp);
    NoneWritten(was, bitp, nbits, val, o);
    if s != 0 {
      len := len - n;
      HeadOctet(was, bitp, nbits, val);
      p[z] := Head(p[z], val, n, len);
      z := z + 1;
    }
    while len >= 8
      invariant len <= nbits && o <= z && 8 * z + len == bitp + nbits && (s != 0 ==> o < z)
      invariant len < 0 ==> s != 0 && z == o + 1
      invariant OctetsWritten(was, p[..], bitp, nbits, val, o, z)
    {
      len := len - 8;
      MiddleOctet(was, p[..], bitp, nbits, val, len, z);
      p[z] := Low(Shr(val, len), 8);
      z := z + 1;
    }
    EndOfLast(bitp, nbits, z, len);
    if len != 0 {
      EndOctet(was, p[..], bitp, nbits, val, len, z);
      p[z] := Low(Shl(val, 8 - len), 8);
      z := z + 1;
    }
    AllWritten(was, p[..], bitp, nbits, val);
    bitp' := bitp + nbits;
  }

  /** Where the octets that are written end. */
  lemma Limits(bitp: nat, nbits: nat)
    ensures var s, end := bitp % 8, Touched(bitp, nbits);
            bitp + nbits <= 8 * end && bitp / 8 <= end && (s != 0 ==> bitp / 8 < end)
  {
  }

  lemma EndOfLast(bitp: nat, nbits: nat, z: nat, len: int)
    requires 8 * z + len == bitp + nbits && len < 8 && bitp / 8 <= z && (bitp % 8 != 0 ==> bitp / 8 < z)
    requires len < 0 ==> bitp % 8 != 0 && z == bitp / 8 + 1
    ensures Touched(bitp, nbits) == if len == 0 then z else z + 1
  {
  }

  lemma Pieces(bitp: nat, a: nat, b: nat)
    requires b >= 64
    ensures Touched(bitp + a, b) == Touched(bitp, a + b) && Touched(bitp, a) <= Touched(bitp, a + b)
    ensures 0 < Pow2(64)
  {
  }

  /** Nothing yet, or a number zero. */
  ghost predicate ZerosWritten(was: seq<byte>, now: seq<byte>, bitp: nat, nbits: nat) {
    if nbits == 0 then now == was else Written(was, now, bitp, nbits, 0)
  }

  lemma ZerosAre(was: seq<byte>, now: seq<byte>, bitp: nat, nbits: nat)
    requires if nbits == 0 then now == was else Written(was, now, bitp, nbits, 0)
    ensures ZerosWritten(was, now, bitp, nbits)
  {
  }

  /** 64 bits more. */
  lemma WrittenThen(was: seq<byte>, before: seq<byte>, now: seq<byte>, bitp: nat, nbits: nat, val: nat)
    requires ZerosWritten(was, before, bitp, nbits) && Written(before, now, bitp + nbits, 64, val) && val < Pow2(64)
    ensures Written(was, now, bitp, nbits + 64, val)
  {
    hide BitAt, ValueBit;
    forall i | 0 <= i < 8 * |was|
      ensures BitAt(now, i) == BitWritten(was, bitp, nbits + 64, val, i)
    {
      assert BitAt(now, i) == BitWritten(before, bitp + nbits, 64, val, i);
      if nbits > 0 { assert BitAt(before, i) == BitWritten(was, bitp, nbits, 0, i); }
      if i < bitp + nbits { NoBit(val, bitp + nbits + 64 - 1 - i); }
      if i < bitp + nbits && nbits > 0 { ZeroBit(i, bitp + nbits); }
    }
  }

  lemma ZeroBit(i: nat, n: nat)
    requires i < n
    ensures ValueBit(0, n - 1 - i) == 0
  {
    ShrZero(n - 1 - i);
  }

  lemma {:induction false} ShrZero(k: nat)
    ensures Shr(0, k) == 0
  {
    if k > 0 { ShrZero(k - 1); }
  }

  lemma NoBit(v: nat, k: nat)
    requires v < Pow2(64) && k >= 64
    ensures ValueBit(v, k) == 0
  {
    hide Shr, Pow2, Low;
    LowSmall(v, 64);
    ShrAdd(v, 64, k - 64);
    ShrZero(k - 64);
  }

  /** Octets o .. z have been written, the others are as they were. */
  ghost predicate OctetsWritten(was: seq<byte>, now: seq<byte>, bitp: nat, nbits: nat, val: nat, o: nat, z: nat) {
    && |now| == |was|
    && (forall i :: 8 * o <= i < 8 * z && i < 8 * |was| ==> BitAt(now, i) == BitWritten(was, bitp, nbits, val, i))
    && forall k :: 0 <= k < |was| && !(o <= k < z) ==> now[k] == was[k]
  }

  lemma NoneWritten(was: seq<byte>, bitp: nat, nbits: nat, val: nat, o: nat)
    ensures OctetsWritten(was, was, bitp, nbits, val, o, o)
  {
  }

  /** One octet more. */
  lemma OneWritten(was: seq<byte>, now: seq<byte>, bitp: nat, nbits: nat, val: nat, o: nat, z: nat, x: byte)
    requires OctetsWritten(was, now, bitp, nbits, val, o, z) && o <= z < |was|
    requires forall i :: 0 <= i < 8 * |was| && i / 8 == z ==>
               ValueBit(x, 7 - i % 8) == BitWritten(was, bitp, nbits, val, i)
    ensures OctetsWritten(was, now[z := x], bitp, nbits, val, o, z + 1)
  {
    hide BitWritten;
    var next := now[z := x];
    forall i | 8 * o <= i < 8 * (z + 1) && i < 8 * |was|
      ensures BitAt(next, i) == BitWritten(was, bitp, nbits, val, i)
    {
      if i / 8 == z { assert next[i / 8] == x; } else { assert BitAt(next, i) == BitAt(now, i); }
    }
  }

  lemma HeadOctet(was: seq<byte>, bitp: nat, nbits: nat, val: nat)
    requires bitp % 8 != 0 && bitp / 8 < |was|
    ensures var o, n := bitp / 8, 8 - bitp % 8;
            OctetsWritten(was, was[o := Head(was[o], val, n, nbits - n)], bitp, nbits, val, o, o + 1)
  {
    hide BitWritten, Head, ValueBit, OctetsWritten;
    var o, n := bitp / 8, 8 - bitp % 8;
    NoneWritten(was, bitp, nbits, val, o);
    forall i | 0 <= i < 8 * |was| && i / 8 == o
      ensures ValueBit(Head(was[o], val, n, nbits - n), 7 - i % 8) == BitWritten(was, bitp, nbits, val, i)
    {
      HeadBits(was, bitp, nbits, val, i);
    }
    OneWritten(was, was, bitp, nbits, val, o, o, Head(was[o], val, n, nbits - n));
  }

  lemma MiddleOctet(was: seq<byte>, now: seq<byte>, bitp: nat, nbits: nat, val: nat, len: nat, z: nat)
    requires OctetsWritten(was, now, bitp, nbits, val, bitp / 8, z) && bitp <= 8 * z && z < |was|
    requires 8 * z + 8 + len == bitp + nbits
    ensures 0 <= Low(Shr(val, len), 8) < 256
    ensures OctetsWritten(was, now[z := Low(Shr(val, len), 8)], bitp, nbits, val, bitp / 8, z + 1)
  {
    hide BitWritten, ValueBit, OctetsWritten, Low, Shr;
    Octet(Shr(val, len));
    forall i | 0 <= i < 8 * |was| && i / 8 == z
      ensures ValueBit(Low(Shr(val, len), 8), 7 - i % 8) == BitWritten(was, bitp, nbits, val, i)
    {
      MiddleBits(was, bitp, nbits, val, len, i);
    }
    OneWritten(was, now, bitp, nbits, val, bitp / 8, z, Low(Shr(val, len), 8));
  }

  lemma EndOctet(was: seq<byte>, now: seq<byte>, bitp: nat, nbits: nat, val: nat, len: int, z: nat)
    requires OctetsWritten(was, now, bitp, nbits, val, bitp / 8, z) && bitp <= 8 * z && len < 8
    requires 8 * z + len == bitp + nbits && z < Touched(bitp, nbits) <= |was|
    ensures 0 <= Low(Shl(val, 8 - len), 8) < 256
    ensures OctetsWritten(was, now[z := Low(Shl(val, 8 - len), 8)], bitp, nbits, val, bitp / 8, z + 1)
  {
    hide BitWritten, ValueBit, OctetsWritten, Low, Shl, Touched;
    Octet(Shl(val, 8 - len));
    forall i | 0 <= i < 8 * |was| && i / 8 == z
      ensures ValueBit(Low(Shl(val, 8 - len), 8), 7 - i % 8) == BitWritten(was, bitp, nbits, val, i)
    {
      EndBits(was, bitp, nbits, val, len, i);
    }
    OneWritten(was, now, bitp, nbits, val, bitp / 8, z, Low(Shl(val, 8 - len), 8));
  }

  lemma AllWritten(was: seq<byte>, now: seq<byte>, bitp: nat, nbits: nat, val: nat)
    requires OctetsWritten(was, now, bitp, nbits, val, bitp / 8, Touched(bitp, nbits))
    ensures Written(was, now, bitp, nbits, val)
  {
    hide ValueBit;
    Limits(bitp, nbits);
    forall i | 0 <= i < 8 * |was|
      ensures BitAt(now, i) == BitWritten(was, bitp, nbits, val, i)
    {
      if !(bitp / 8 <= i / 8 < Touched(bitp, nbits)) { assert now[i / 8] == was[i / 8]; }
    }
  }

  lemma ByteAddress(bitp: nat)
    ensures Shr(bitp, 3) == bitp / 8
  {
    assert Shr(bitp, 3) == Shr(bitp, 2) / 2 == Shr(bitp, 1) / 2 / 2;
  }

  // ---------------------------------------------------------------- what has been written

  /** The field holds the low bits of the value. */
  lemma WrittenField(was: seq<byte>, now: seq<byte>, bitp: nat, nbits: nat, val: nat)
    requires Written(was, now, bitp, nbits, val) && bitp + nbits <= 8 * |was|
    ensures Field(now, bitp, nbits) == Low(val, nbits)
  {
    WrittenPart(was, now, bitp, nbits, val, nbits);
    assert Shr(val, 0) == val;
  }

  lemma {:induction false} WrittenPart(was: seq<byte>, now: seq<byte>, bitp: nat, nbits: nat, val: nat, w: nat)
    requires Written(was, now, bitp, nbits, val) && bitp + nbits <= 8 * |was| && w <= nbits
    ensures Field(now, bitp, w) == Low(Shr(val, nbits - w), w)
    decreases w
  {
    hide BitAt;
    if w > 0 {
      WrittenPart(was, now, bitp, nbits, val, w - 1);
      assert BitAt(now, bitp + w - 1) == BitWritten(was, bitp, nbits, val, bitp + w - 1);
    }
  }

  /** What has been written is read back, if it fits the field and the bits read fit the accumulator. */
  lemma WrittenIsRead(was: seq<byte>, now: seq<byte>, bitp: nat, nbits: nat, val: nat)
    requires Written(was, now, bitp, nbits, val) && bitp + nbits <= 8 * |was|
    requires val < Pow2(nbits) && val < Pow2(64)
    requires if nbits <= 64 then Fits(bitp, nbits) else (bitp + nbits) % 8 == 0
    ensures ReadWide(now, bitp, nbits) == Some(val)
  {
    hide Field, Read, Low, Shr, Pow2, BitAt, BitWritten;
    WrittenField(was, now, bitp, nbits, val);
    LowSmall(val, nbits);
    if nbits <= 64 {
      ReadExact(false, now, bitp, nbits);
    } else {
      WideReadIff(now, bitp, nbits);
    }
  }

  /** A value that fits leaves the bits before it alone. */
  lemma FittingKeeps(was: seq<byte>, now: seq<byte>, bitp: nat, nbits: nat, val: nat, i: nat)
    requires Written(was, now, bitp, nbits, val) && val < Pow2(nbits) && i < bitp && i < 8 * |was|
    ensures BitAt(now, i) == BitAt(was, i)
  {
    hide BitAt, Shr, Pow2, Low;
    assert BitAt(now, i) == BitWritten(was, bitp, nbits, val, i);
    LowSmall(val, nbits);
    ShrAdd(val, nbits, bitp - 1 - i);
    ShrZero(bitp - 1 - i);
  }

  /** Bits of a value that does not fit are laid over those before it in its first octet: a 2 in one bit. */
  lemma ExcessLaidOver(now: seq<byte>)
    requires Written([0, 255], now, 1, 1, 2)
    ensures now == [128, 0]
  {
    hide Shr, Shl;
    var was: seq<byte> := [0, 255];
    forall m: nat | m < 8
      ensures ValueBit(now[0], m) == ValueBit(128, m) && ValueBit(now[1], m) == ValueBit(0, m)
    {
      var i := 7 - m;
      assert BitAt(now, i) == BitWritten(was, 1, 1, 2, i) && BitAt(now, 8 + i) == BitWritten(was, 1, 1, 2, 8 + i);
      assert (8 + i) / 8 == 1 && (8 + i) % 8 == i && i / 8 == 0 && i % 8 == i;
      HundredAndMore(m);
      ShrZero(i);
    }
    SameBits(now[0], 128);
    SameBits(now[1], 0);
  }

  lemma HundredAndMore(m: nat)
    requires m < 8
    ensures ValueBit(128, m) == (if m == 7 then 1 else 0) && ValueBit(0, m) == 0
    ensures ValueBit(2, 0) == 0 && ValueBit(2, 1) == 1
  {
    SixtyFour(if m == 0 then 0 else m - 1);
    assert Shl(64, 1) == 128;
    ShlBit(64, 1, m);
    ShrZero(m);
  }

  /** What is written: nothing outside the octets the number touches, and behind the number zeros. */
  lemma WrittenOutside(was: seq<byte>, now: seq<byte>, bitp: nat, nbits: nat, val: nat, k: nat)
    requires Written(was, now, bitp, nbits, val) && k < |was| && nbits > 0
    ensures k < bitp / 8 || (bitp + nbits + 7) / 8 < k ==> now[k] == was[k]
    ensures k == (bitp + nbits + 7) / 8 ==>
              now[k] == if bitp % 8 != 0 && bitp % 8 + nbits < 8 then 0 else was[k]
    ensures forall i :: bitp + nbits <= i < 8 * ((bitp + nbits + 7) / 8) && i < 8 * |was| ==> BitAt(now, i) == 0
  {
    hide ValueBit;
    if k < bitp / 8 || (bitp + nbits + 7) / 8 <= k {
      forall m: nat | m < 8
        ensures ValueBit(now[k], m)
             == if k < bitp / 8 || Touched(bitp, nbits) <= k then ValueBit(was[k], m) else 0
      {
        var i := 8 * k + 7 - m;
        assert i / 8 == k && 7 - i % 8 == m;
        assert BitAt(now, i) == BitWritten(was, bitp, nbits, val, i);
        OctetBits(was, i);
        OctetBits(now, i);
      }
      if k < bitp / 8 || Touched(bitp, nbits) <= k {
        SameBits(now[k], was[k]);
      } else {
        forall m: nat | m < 8
          ensures ValueBit(0, m) == 0
        {
          NoValueBits(m);
        }
        SameBits(now[k], 0);
      }
    }
  }

  lemma OctetBits(p: seq<byte>, i: nat)
    requires i < 8 * |p|
    ensures BitAt(p, i) == ValueBit(p[i / 8], 7 - i % 8)
  {
  }

  lemma NoValueBits(m: nat)
    ensures ValueBit(0, m) == 0
  {
    ShrZero(m);
  }

  /** A number that ends inside the octet it starts in clears the next octet. */
  lemma NextOctetCleared(now: seq<byte>)
    requires Written([0, 255], now, 1, 1, 1)
    ensures now == [64, 0]
  {
    hide Shr, Shl;
    var was: seq<byte> := [0, 255];
    forall m: nat | m < 8
      ensures ValueBit(now[0], m) == ValueBit(64, m) && ValueBit(now[1], m) == ValueBit(0, m)
    {
      var i := 7 - m;
      assert BitAt(now, i) == BitWritten(was, 1, 1, 1, i) && BitAt(now, 8 + i) == BitWritten(was, 1, 1, 1, 8 + i);
      assert (8 + i) / 8 == 1 && (8 + i) % 8 == i && i / 8 == 0 && i % 8 == i;
      SixtyFour(m);
      ShrZero(i);
    }
    SameBits(now[0], 64);
    SameBits(now[1], 0);
  }

  lemma SixtyFour(m: nat)
    requires m < 8
    ensures ValueBit(64, m) == (if m == 6 then 1 else 0) && ValueBit(0, m) == 0
    ensures ValueBit(1, 0) == 1 && ValueBit(1, 1) == 0
  {
    assert Shl(1, 2) == 2 * Shl(1, 1) == 4 && Shl(1, 4) == 2 * Shl(1, 3) == 4 * Shl(1, 2) == 16;
    assert Shl(1, 6) == 2 * Shl(1, 5) == 4 * Shl(1, 4) == 64;
    ShlBit(1, 6, m);
    ShrZero(m);
  }

  lemma SameBits(x: byte, y: byte)
    requires forall m :: 0 <= m < 8 ==> ValueBit(x, m) == ValueBit(y, m)
    ensures x == y
  {
    hide Shr, Low;
    Octet(x);
    Octet(y);
    SameLow(x, y, 8);
  }

  lemma {:induction false} SameLow(x: nat, y: nat, k: nat)
    requires forall m :: 0 <= m < k ==> ValueBit(x, m) == ValueBit(y, m)
    ensures Low(x, k) == Low(y, k)
    decreases k
  {
    hide Pow2;
    if k > 0 {
      forall m | 0 <= m < k - 1
        ensures ValueBit(x / 2, m) == ValueBit(y / 2, m)
      {
        ShrHead(x, m + 1);
        ShrHead(y, m + 1);
        assert ValueBit(x, m + 1) == ValueBit(y, m + 1);
      }
      assert ValueBit(x, 0) == ValueBit(y, 0);
      SameLow(x / 2, y / 2, k - 1);
    }
  }

  lemma WholeTouched(at: nat, n: nat)
    ensures Touched(8 * at, 8 * n) == at + n
  {
  }

  /** From an octet boundary to another one the octets are those of the value. */
  lemma WholeOctetsWritten(was: seq<byte>, now: seq<byte>, at: nat, n: nat, val: nat)
    requires Written(was, now, 8 * at, 8 * n, val) && at + n <= |was|
    ensures now == Stored(was, at, BytesOf(val, n))
  {
    hide BytesOf, Low, Shr;
    var bytes := BytesOf(val, n);
    forall k | 0 <= k < |was|
      ensures now[k] == if at <= k < at + n then bytes[k - at] else was[k]
    {
      if at <= k < at + n {
        OctetAt(val, n, k - at);
        LowLow(Shr(val, 8 * (at + n - 1 - k)), 8, 16);
        assert 8 * n - 8 * (k - at + 1) == 8 * (at + n - 1 - k);
      }
      forall m | 0 <= m < 8
        ensures ValueBit(now[k], m) == ValueBit(if at <= k < at + n then bytes[k - at] else was[k], m)
      {
        OctetBit(was, now, at, n, val, k, m);
      }
      SameBits(now[k], if at <= k < at + n then bytes[k - at] else was[k]);
    }
  }

  lemma OctetBit(was: seq<byte>, now: seq<byte>, at: nat, n: nat, val: nat, k: nat, m: nat)
    requires Written(was, now, 8 * at, 8 * n, val) && at + n <= |was| && k < |was| && m < 8
    ensures ValueBit(now[k], m)
         == if at <= k < at + n then ValueBit(Low(Shr(val, 8 * (at + n - 1 - k)), 8), m) else ValueBit(was[k], m)
  {
    hide Low, Shr;
    var i := 8 * k + 7 - m;
    assert i / 8 == k && 7 - i % 8 == m;
    assert BitAt(now, i) == BitWritten(was, 8 * at, 8 * n, val, i);
    if at <= k < at + n {
      LowBit(Shr(val, 8 * (at + n - 1 - k)), 8, m);
      ShrAdd(val, 8 * (at + n - 1 - k), m);
    }
  }
}
