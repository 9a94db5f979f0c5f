/** Sections and accessors as linked objects, and grib_section_adjust_sizes on them
    (src/grib_accessor_class.cc), proved against its description on values in Layout. */
module Sections {
  import opened Results
  import opened Bits
  import opened Layout
  import opened LengthFields
  import opened Buffers
  import opened UnsignedInts

  /** The part of a handle that sections and accessors refer to.  keyId is the id the key table
      gives a name; accessors[id] is the newest accessor known under that id. */
  class Handle {
    const partial: bool
    const buffer: Buffer
    const useTrie: bool
    const keyId: string -> nat
    const accessors: array<Accessor?>
    /** Set while a section is being parsed again. */
    var loader: bool
    /** Accessors that entered the table, oldest first. */
    ghost var indexed: seq<Accessor>

    constructor (partial: bool, buffer: Buffer, useTrie: bool, keyId: string -> nat, size: nat)
      ensures this.partial == partial && this.buffer == buffer && this.useTrie == useTrie
      ensures this.keyId == keyId && fresh(accessors) && accessors.Length == size && indexed == [] && !loader
      ensures forall id :: 0 <= id < size ==> accessors[id] == null
    {
      this.partial, this.buffer, this.useTrie, this.keyId := partial, buffer, useTrie, keyId;
      accessors := new Accessor?[size](_ => null);
      loader := false;
      indexed := [];
    }
  }

  type pos = x: nat | 0 < x witness 1

  /** How an accessor chooses its preferred size: most keep the length they have; the padding
      classes have a fixed one or pad up to a place counted from a mark, an accessor whose offset
      they ask for. */
  datatype Padding =
    | Keeps
    | Pad(amount: int)
    | PadTo(mark: Accessor, distance: int)
    | PadToEven(mark: Accessor)
    | PadToMultiple(mark: Accessor, multiple: pos)

  /** preferred_size(0) of the padding classes, for an accessor at offset at. */
  function Wanted(p: Padding, at: int, mark: int, length: nat): nat {
    match p
    case Keeps => length
    case Pad(amount) => if amount > 0 then amount else 0
    case PadTo(_, distance) => if mark + distance - at > 0 then mark + distance - at else 0
    case PadToEven(_) => if (at - mark) % 2 != 0 then 1 else 0
    case PadToMultiple(_, m) => ToMultiple(at - mark, m)
  }

  /** Division in C rounds towards zero. */
  function ToMultiple(d: int, m: pos): nat {
    var up := d + m - 1;
    var q := if up >= 0 then up / m else -(-up / m);
    QuotientTimes(up, m);
    if q * m - d == 0 then m else q * m - d
  }

  lemma QuotientTimes(up: int, m: pos)
    ensures up >= 0 ==> up - m < up / m * m <= up
    ensures up < 0 ==> up <= -(-up / m) * m < up + m
  {
    var q := (if up >= 0 then up else -up) / m;
    assert -q * m == -(q * m);
  }

  class Accessor {
    const name: string
    const parent: Section
    const padding: Padding
    /** The width an integer is stored with. */
    const nbytes: nat
    var subSection: Section?
    var offset: int
    var length: nat
    var next: Accessor?
    var previous: Accessor?
    var same: Accessor?
    var attributes: seq<Accessor>

    constructor (name: string, offset: int, nbytes: nat, parent: Section, padding: Padding)
      ensures this.name == name && this.offset == offset && length == 0
      ensures this.parent == parent && this.padding == padding && this.nbytes == nbytes && subSection == null
      ensures next == null && previous == null && same == null && attributes == []
    {
      this.name, this.offset, this.nbytes, this.parent, this.padding := name, offset, nbytes, parent, padding;
      length, subSection, next, previous, same, attributes := 0, null, null, null, null, [];
    }

    function Mark(): Accessor {
      if padding.Keeps? || padding.Pad? then this else padding.mark
    }

    function PreferredSize(): nat
      reads this`length, this`offset, Mark()`offset
    {
      Wanted(padding, offset, Mark().offset, length)
    }

    /** unpack_long of a length field: the octets at its offset. */
    method UnpackLong(b: Buffer) returns (v: nat)
      requires b.Valid() && Inside(Place(offset, nbytes), b.ulength)
      ensures v == NatOf(b.Message()[offset..offset + nbytes])
    {
      hide NatOf, Field;
      OctetsOfMessage(b.data[..], b.ulength, offset, nbytes);
      var r, _ := DecodeUnsignedLong(b.data[..], offset * 8, nbytes * 8);
      v := r.value;
      assert b.Message() == b.data[..][..b.ulength];
    }

    /** pack_long of a length field. */
    method PackLong(v: nat, b: Buffer) returns (err: int)
      requires b.Valid() && Inside(Place(offset, nbytes), b.ulength)
      modifies b.data
      ensures err == if Packable(nbytes, v) then GRIB_SUCCESS else GRIB_ENCODING_ERROR
      ensures b.Message() == if Packable(nbytes, v) then Packing.Stored(old(b.Message()), offset, BytesOf(v, nbytes))
                             else old(b.Message())
    {
      hide BytesOf, Shifts.Pow2, Packing.Stored;
      if v != GRIB_MISSING_LONG {
        var nbits := nbytes * 8;
        if nbits < 33 {
          SomeBits(nbits);
          var maxval := Shifts.Pow2(nbits) - 1;
          if maxval > 0 && v > maxval { return GRIB_ENCODING_ERROR; }
        }
      }
      StoredPrefix(b.data[..], b.ulength, offset, BytesOf(v, nbytes));
      assert b.Message() == b.data[..][..b.ulength];
      ghost var was := b.data[..];
      WholeTouched(offset, nbytes);
      var _ := EncodeUnsignedLong(b.data, v, offset * 8, nbytes * 8);
      WholeOctetsWritten(was, b.data[..], offset, nbytes, v);
      assert b.Message() == b.data[..][..b.ulength];
      return GRIB_SUCCESS;
    }
  }

  lemma SomeBits(n: nat)
    requires n > 0
    ensures Shifts.Pow2(n) > 1
  {
  }

  lemma OctetsOfMessage(data: seq<byte>, n: nat, at: nat, w: nat)
    requires n <= |data| && at + w <= n && w <= 8
    ensures Readers.Fits(at * 8, w * 8) && Field(data, at * 8, w * 8) == NatOf(data[..n][at..at + w])
  {
    hide NatOf, Field;
    OctetsRead(data, at, w);
    assert data[..n][at..at + w] == data[at..at + w];
  }

  /** Octets stored inside the message. */
  lemma StoredPrefix(data: seq<byte>, n: nat, at: nat, p: seq<byte>)
    requires at + |p| <= n <= |data|
    ensures Packing.Stored(data, at, p)[..n] == Packing.Stored(data[..n], at, p)
  {
  }

  /** A section with its block of accessors.  stored is the number that the octets of its length
      accessor hold. */
  class Section {
    const h: Handle
    const owner: Accessor?
    var aclength: Accessor?
    ghost var stored: nat
    var first: Accessor?
    var last: Accessor?
    var length: nat
    var padding: nat

    constructor (h: Handle, owner: Accessor?)
      ensures this.h == h && this.owner == owner && aclength == null
      ensures first == null && last == null && length == 0 && padding == 0
    {
      this.h, this.owner := h, owner;
      aclength, stored, first, last, length, padding := null, 0, null, null, 0, 0;
    }
  }

  // ---------------------------------------------------------------- the shape of a tree of objects

  /** which says which accessor of the block stores the length of the section. */
  datatype Tree = Tree(s: Section, kids: seq<Kid>, which: Option<nat>)
  datatype Kid = Kid(a: Accessor, sub: Option<Tree>)

  /** The objects of a tree. */
  datatype Parts = Parts(accs: set<Accessor>, secs: set<Section>) {
    function Plus(p: Parts): Parts { Parts(accs + p.accs, secs + p.secs) }
    predicate Apart(p: Parts) { accs !! p.accs && secs !! p.secs }
  }

  ghost function PartsOf(t: Tree): Parts
    decreases t, 1
  {
    Parts({}, {t.s}).Plus(PartsOfAll(t.kids))
  }

  ghost function PartsOfKid(k: Kid): Parts
    decreases k
  {
    if k.sub.None? then Parts({k.a}, {}) else Parts({k.a}, {}).Plus(PartsOf(k.sub.value))
  }

  ghost function PartsOfAll(kids: seq<Kid>): Parts
    decreases kids, 0
  {
    if kids == [] then Parts({}, {}) else PartsOfKid(kids[0]).Plus(PartsOfAll(kids[1..]))
  }

  /** No object occurs twice in the tree. */
  ghost predicate Distinct(t: Tree)
    decreases t, 1
  {
    && DistinctAll(t.kids)
    && Parts({}, {t.s}).Apart(PartsOfAll(t.kids))
  }

  ghost predicate DistinctKid(k: Kid)
    decreases k
  {
    k.sub.None? || (Distinct(k.sub.value) && k.a !in PartsOf(k.sub.value).accs)
  }

  ghost predicate DistinctAll(kids: seq<Kid>)
    decreases kids, 0
  {
    kids == [] ||
    (DistinctKid(kids[0]) && DistinctAll(kids[1..]) && PartsOfKid(kids[0]).Apart(PartsOfAll(kids[1..])))
  }

  ghost function AccAt(kids: seq<Kid>, i: nat): Accessor? {
    if i < |kids| then kids[i].a else null
  }

  ghost function LengthAcc(t: Tree): Accessor? {
    if t.which.None? then null else AccAt(t.kids, t.which.value)
  }

  /** The pointers of the objects run through the tree. */
  ghost predicate Linked(t: Tree, h: Handle)
    reads PartsOf(t).secs`first, PartsOf(t).secs`aclength, PartsOf(t).accs`next, PartsOf(t).accs`subSection
    decreases t, 1
  {
    t.s.h == h && t.s.first == AccAt(t.kids, 0) && t.s.aclength == LengthAcc(t) && LinkedAll(t.kids, h)
  }

  ghost predicate LinkedKid(k: Kid, h: Handle)
    reads PartsOfKid(k).secs`first, PartsOfKid(k).secs`aclength, PartsOfKid(k).accs`next, PartsOfKid(k).accs`subSection
    decreases k
  {
    if k.sub.None? then k.a.subSection == null
    else k.a.subSection == k.sub.value.s && k.sub.value.s.owner == k.a && Linked(k.sub.value, h)
  }

  ghost predicate LinkedAll(kids: seq<Kid>, h: Handle)
    reads PartsOfAll(kids).secs`first, PartsOfAll(kids).secs`aclength
    reads PartsOfAll(kids).accs`next, PartsOfAll(kids).accs`subSection
    decreases kids, 0
  {
    kids == [] ||
    (LinkedKid(kids[0], h) && kids[0].a.next == AccAt(kids, 1) && LinkedAll(kids[1..], h))
  }

  // ---------------------------------------------------------------- the value of a tree of objects

  ghost function Value(t: Tree): Sec
    reads PartsOf(t).accs`offset, PartsOf(t).accs`length
    reads PartsOf(t).secs`padding, PartsOf(t).secs`length, PartsOf(t).secs`stored
    decreases t, 1
  {
    Sec(ValueAll(t.kids), FieldOf(t), t.s.padding, t.s.length)
  }

  ghost function FieldOf(t: Tree): Option<LengthField>
    reads t.s`stored
  {
    var a := LengthAcc(t);
    if a == null then None else Some(LengthField(t.s.stored, t.which.value, a.nbytes))
  }

  ghost function ValueKid(k: Kid): Acc
    reads PartsOfKid(k).accs`offset, PartsOfKid(k).accs`length
    reads PartsOfKid(k).secs`padding, PartsOfKid(k).secs`length, PartsOfKid(k).secs`stored
    decreases k
  {
    Acc(k.a.offset, k.a.length, if k.sub.None? then None else Some(Value(k.sub.value)))
  }

  ghost function ValueAll(kids: seq<Kid>): (v: seq<Acc>)
    reads PartsOfAll(kids).accs`offset, PartsOfAll(kids).accs`length
    reads PartsOfAll(kids).secs`padding, PartsOfAll(kids).secs`length, PartsOfAll(kids).secs`stored
    ensures |v| == |kids|
    decreases kids, 0
  {
    if kids == [] then [] else [ValueKid(kids[0])] + ValueAll(kids[1..])
  }

  /** All objects of a tree at hand exist. */
  lemma {:induction false} TreeExists(t: Tree)
    ensures forall x :: x in PartsOf(t).accs ==> allocated(x)
    ensures forall x :: x in PartsOf(t).secs ==> allocated(x)
    decreases t, 1
  {
    KidsExist(t.kids);
  }

  lemma {:induction false} KidExists(k: Kid)
    ensures forall x :: x in PartsOfKid(k).accs ==> allocated(x)
    ensures forall x :: x in PartsOfKid(k).secs ==> allocated(x)
    decreases k
  {
    if k.sub.Some? { TreeExists(k.sub.value); }
  }

  lemma {:induction false} KidsExist(kids: seq<Kid>)
    ensures forall x :: x in PartsOfAll(kids).accs ==> allocated(x)
    ensures forall x :: x in PartsOfAll(kids).secs ==> allocated(x)
    decreases kids, 0
  {
    if kids != [] {
      KidExists(kids[0]);
      KidsExist(kids[1..]);
    }
  }

  // ---------------------------------------------------------------- one kid among its siblings

  ghost predicate Within(p: Parts, q: Parts) {
    p.accs <= q.accs && p.secs <= q.secs
  }

  lemma {:induction false} KidApart(kids: seq<Kid>, i: nat)
    requires i < |kids| && DistinctAll(kids)
    ensures DistinctKid(kids[i])
    ensures Within(PartsOfKid(kids[i]), PartsOfAll(kids))
    ensures Within(PartsOfAll(kids[..i]), PartsOfAll(kids))
    ensures Within(PartsOfAll(kids[i + 1..]), PartsOfAll(kids))
    ensures PartsOfKid(kids[i]).Apart(PartsOfAll(kids[..i]))
    ensures PartsOfKid(kids[i]).Apart(PartsOfAll(kids[i + 1..]))
    decreases i
  {
    hide PartsOfKid, DistinctKid;
    if i > 0 {
      KidApart(kids[1..], i - 1);
      assert kids[1..][..i - 1] == kids[..i][1..] && kids[..i][0] == kids[0];
      assert kids[1..][i..] == kids[i + 1..];
    }
  }

  lemma {:induction false} KidLinked(kids: seq<Kid>, i: nat, h: Handle)
    requires i < |kids| && LinkedAll(kids, h)
    ensures LinkedKid(kids[i], h) && kids[i].a.next == AccAt(kids, i + 1)
    decreases i
  {
    hide LinkedKid;
    if i > 0 { KidLinked(kids[1..], i - 1, h); }
  }

  lemma {:induction false} ValueSplit(kids: seq<Kid>, i: nat)
    requires i < |kids|
    ensures ValueAll(kids) == ValueAll(kids[..i]) + [ValueKid(kids[i])] + ValueAll(kids[i + 1..])
    ensures ValueAll(kids[i..]) == [ValueKid(kids[i])] + ValueAll(kids[i + 1..])
    decreases i
  {
    hide ValueKid;
    if i > 0 {
      ValueSplit(kids[1..], i - 1);
      assert kids[1..][..i - 1] == kids[..i][1..] && kids[..i][0] == kids[0];
      assert kids[1..][i..] == kids[i + 1..] && kids[1..][i - 1..] == kids[i..];
    } else {
      assert kids[0..] == kids;
    }
  }

  lemma {:induction false} ValueAppend(kids: seq<Kid>, i: nat)
    requires i < |kids|
    ensures ValueAll(kids[..i + 1]) == ValueAll(kids[..i]) + [ValueKid(kids[i])]
  {
    ValueSplit(kids[..i + 1], i);
    assert kids[..i + 1][..i] == kids[..i] && kids[..i + 1][i + 1..] == [];
  }

  // ---------------------------------------------------------------- grib_section_adjust_sizes

  ghost function PartsOfOpt(t: Option<Tree>): Parts {
    if t.None? then Parts({}, {}) else PartsOf(t.value)
  }

  function OwnerOffset(s: Section): int
    reads if s.owner == null then {} else {s.owner}
  {
    if s.owner == null then 0 else s.owner.offset
  }

  ghost function OwnerOf(s: Section?): set<Accessor> {
    if s == null || s.owner == null then {} else {s.owner}
  }

  /** t is the tree of objects below s.  The state the call leaves behind is that of the value function,
      and the octets of the length fields, but no others, have been rewritten to match. */
  method AdjustSizes(s: Section?, update: nat, h: Handle, ghost t: Option<Tree>) returns (err: int)
    requires s == null <==> t.None?
    requires t.Some? ==> t.value.s == s && Linked(t.value, h) && Distinct(t.value)
    requires h.buffer.Valid() && (t.Some? ==> Readable(Value(t.value), h.buffer.Message()))
    requires OwnerOf(s) !! PartsOfOpt(t).accs
    modifies PartsOfOpt(t).accs`offset, PartsOfOpt(t).accs`length
    modifies PartsOfOpt(t).secs`padding, PartsOfOpt(t).secs`length, PartsOfOpt(t).secs`stored, h.buffer.data
    modifies OwnerOf(s)`length
    ensures t.None? ==> err == GRIB_SUCCESS && h.buffer.Message() == old(h.buffer.Message())
    ensures t.Some? ==>
              var r := Adjust(old(Value(t.value)), OwnerOffset(s), update, h.partial);
              && err == r.err && Value(t.value) == r.state
              && (s.owner != null ==>
                    s.owner.length == if err == GRIB_SUCCESS then r.state.length else old(s.owner.length))
              && Rewritten(old(Value(t.value)), Value(t.value), old(h.buffer.Message()), h.buffer.Message())
    decreases t, 2
  {
    if s == null { return GRIB_SUCCESS; }
    hide Linked, Distinct, PartsOf, Value, Adjust, Readable, Rewritten;
    err := AdjustSection(s, update, h, t.value);
  }

  method AdjustSection(s: Section, update: nat, h: Handle, ghost t: Tree) returns (err: int)
    requires t.s == s && Linked(t, h) && Distinct(t) && OwnerOf(s) !! PartsOf(t).accs
    requires h.buffer.Valid() && Readable(Value(t), h.buffer.Message())
    modifies PartsOf(t).accs`offset, PartsOf(t).accs`length
    modifies PartsOf(t).secs`padding, PartsOf(t).secs`length, PartsOf(t).secs`stored, h.buffer.data
    modifies OwnerOf(s)`length
    ensures var r := Adjust(old(Value(t)), old(OwnerOffset(s)), update, h.partial);
            && err == r.err && Value(t) == r.state
            && (s.owner != null ==>
                  s.owner.length == if err == GRIB_SUCCESS then r.state.length else old(s.owner.length))
    ensures Rewritten(old(Value(t)), Value(t), old(h.buffer.Message()), h.buffer.Message())
    decreases t, 1
  {
    hide Linked, Distinct, LinkedAll, DistinctAll, PartsOf, PartsOfAll, ValueAll, Walk, Finish, Readable,
      Rewritten, ReadableAll, RewrittenAll, Denote, Apart, SameElsewhere;
    ghost var kids, was, v := t.kids, h.buffer.Message(), Value(t);
    OpenTree(t, h);
    KidsExist(kids);
    ReadableParts(v, was);
    var length := if update > 0 then 0 else s.padding;
    var offset := OwnerOffset(s);
    err, length := AdjustBlock(s.first, offset, length, update, h, kids);
    ghost var accs, mid := ValueAll(kids), h.buffer.Message();
    BlockRewritten(v, accs, was, mid);
    if err != GRIB_SUCCESS { return; }
    OwnPlaceStays(t, v, offset, if update > 0 then 0 else s.padding, update, h.partial);
    err := FinishSection(s, length, update, t, accs);
    assert ValueAll(kids) == accs;
    SectionRewritten(v, Value(t), was, mid, h.buffer.Message());
  }

  /** What a well-formed tree says about its root and the block below. */
  lemma OpenTree(t: Tree, h: Handle)
    requires Linked(t, h) && Distinct(t)
    ensures t.s.h == h && t.s.first == AccAt(t.kids, 0) && LinkedAll(t.kids, h) && DistinctAll(t.kids)
    ensures t.s !in PartsOfAll(t.kids).secs && t.s.aclength == LengthAcc(t)
    ensures PartsOf(t).accs == PartsOfAll(t.kids).accs
    ensures t.s in PartsOf(t).secs && PartsOfAll(t.kids).secs <= PartsOf(t).secs
    ensures t.s.aclength != null ==> t.s.aclength in PartsOf(t).accs
  {
    if t.s.aclength != null { KidApart(t.kids, t.which.value); }
  }

  /** After the walk: the length field, the owner and the section itself. */
  method FinishSection(s: Section, walked: nat, update: nat, ghost t: Tree, ghost accs: seq<Acc>) returns (err: int)
    requires s == t.s && s.aclength == LengthAcc(t) && s.h.buffer.Valid() && (s.owner != null ==> s.owner != s.aclength)
    requires s.aclength != null ==>
               Denote([Place(s.aclength.offset, s.aclength.nbytes)], [s.stored], s.h.buffer.Message())
    modifies s`padding, s`length, s`stored, OwnerOf(s)`length, s.h.buffer.data
    ensures var r := Finish(Sec(accs, old(FieldOf(t)), old(s.padding), old(s.length)), walked, update, s.h.partial);
            && err == r.err && r.state == Sec(accs, FieldOf(t), s.padding, s.length)
            && (s.owner != null ==>
                  s.owner.length == if err == GRIB_SUCCESS then s.length else old(s.owner.length))
    ensures s.aclength == null ==> s.h.buffer.Message() == old(s.h.buffer.Message())
    ensures s.aclength != null ==>
              var p := [Place(s.aclength.offset, s.aclength.nbytes)];
              && Denote(p, [s.stored], s.h.buffer.Message())
              && SameElsewhere(p, old(s.h.buffer.Message()), s.h.buffer.Message())
  {
    hide NatOf, Shifts.Low, BytesOf, Packing.Stored, Shifts.Pow2;
    var length := walked;
    if s.aclength != null {
      ghost var was, p := s.h.buffer.Message(), Place(s.aclength.offset, s.aclength.nbytes);
      DenoteOne(p, s.stored, was);
      SameAtOnce([p], was);
      var plen := s.aclength.UnpackLong(s.h.buffer);
      if plen != length || update > 1 {
        if update > 0 {
          plen := length;
          var lret := s.aclength.PackLong(plen, s.h.buffer);
          if lret != GRIB_SUCCESS { return lret; }
          s.stored := Shifts.Low(plen, 8 * s.aclength.nbytes);
          PackedOne(p, plen, was);
          s.padding := 0;
        } else {
          if !s.h.partial {
            if length >= plen { plen := length; }
            s.padding := plen - length;
          }
          length := plen;
        }
      }
    }
    if s.owner != null { s.owner.length := length; }
    s.length := length;
    return GRIB_SUCCESS;
  }

  /** A number packed at a place can be read there, as far as it fits. */
  lemma PackedOne(p: Place, v: nat, was: seq<byte>)
    requires Inside(p, |was|)
    ensures var now := Packing.Stored(was, p.at, BytesOf(v, p.n));
            Denote([p], [Shifts.Low(v, 8 * p.n)], now) && SameElsewhere([p], was, now)
  {
    hide Shifts.Low, BytesOf, NatOf;
    var b := BytesOf(v, p.n);
    var now := Packing.Stored(was, p.at, b);
    SignedInts.BytesOfLow(v, p.n);
    assert now[p.at..p.at + p.n] == b;
    DenoteOne(p, Shifts.Low(v, 8 * p.n), now);
    forall i | 0 <= i < |was| && !Covered([p], i)
      ensures now[i] == was[i]
    {
      assert !([p][0].at <= i < [p][0].at + [p][0].n);
    }
  }

  lemma ReadableParts(v: Sec, data: seq<byte>)
    requires Readable(v, data)
    ensures ReadableAll(v.accs, data)
  {
    hide Denote, Apart, ApartFrom, PlacesAll, StoresAll, OwnPlace, OwnStore;
    AsManyPlacesAll(v.accs);
    DenoteJoin(PlacesAll(v.accs), StoresAll(v.accs), OwnPlace(v), OwnStore(v.field), data);
    ApartJoin(PlacesAll(v.accs), OwnPlace(v));
  }

  /** The fields below are rewritten; the section's own one is as before. */
  lemma BlockRewritten(v: Sec, accs: seq<Acc>, was: seq<byte>, mid: seq<byte>)
    requires Readable(v, was) && RewrittenAll(v.accs, accs, was, mid)
    ensures Rewritten(v, v.(accs := accs), was, mid)
    ensures Denote(OwnPlace(v), OwnStore(v.field), mid)
  {
    hide Denote, Apart, ApartFrom, SameElsewhere, PlacesAll, StoresAll, OwnPlace, OwnStore;
    var p, q := PlacesAll(v.accs), OwnPlace(v);
    AsManyPlacesAll(v.accs);
    DenoteJoin(p, StoresAll(v.accs), q, OwnStore(v.field), was);
    ApartJoin(p, q);
    DenoteKept(q, OwnStore(v.field), p, was, mid);
    SameWider(p, p + q, was, mid);
    SameLength(p, StoresAll(accs), mid);
    DenoteJoin(p, StoresAll(accs), q, OwnStore(v.field), mid);
  }

  lemma SameLength(p: seq<Place>, s: seq<nat>, data: seq<byte>)
    requires Denote(p, s, data)
    ensures |p| == |s|
  {
  }

  /** A walk that succeeds leaves the accessor of the length field where it was. */
  lemma OwnPlaceStays(t: Tree, v: Sec, offset: int, length: nat, update: nat, partial: bool)
    requires |v.accs| == |t.kids| && v.field == FieldOf(t) && LengthAcc(t) == t.s.aclength
    requires var w := Walk(v.accs, offset, length, update, partial);
             w.err == GRIB_SUCCESS && ValueAll(t.kids) == w.accs
    ensures t.s.aclength != null ==> OwnPlace(v) == [Place(t.s.aclength.offset, t.s.aclength.nbytes)]
  {
    hide Walk, OffsetsMatchAll, FieldsFitAll, StoresAll, PlacesAll;
    WalkSucceedsIff(v.accs, offset, length, update, partial);
    WalkKeepsPlaces(v.accs, offset, length, update, partial);
    if t.s.aclength != null { ValueSplit(t.kids, t.which.value); }
  }

  /** At last the section's own field. */
  lemma SectionRewritten(v: Sec, v': Sec, was: seq<byte>, mid: seq<byte>, now: seq<byte>)
    requires Readable(v, was) && RewrittenAll(v.accs, v'.accs, was, mid)
    requires v.field.None? ==> now == mid && v'.field.None?
    requires v.field.Some? ==> Denote(OwnPlace(v), OwnStore(v'.field), now) && SameElsewhere(OwnPlace(v), mid, now)
    ensures Rewritten(v, v', was, now)
  {
    hide Denote, Apart, ApartFrom, SameElsewhere, PlacesAll, StoresAll;
    var p, q := PlacesAll(v.accs), OwnPlace(v);
    BlockRewritten(v, v'.accs, was, mid);
    if v.field.Some? {
      AsManyPlacesAll(v.accs);
      ApartJoin(p, q);
      DenoteKept(p, StoresAll(v'.accs), q, mid, now);
      SameWider(q, p + q, mid, now);
      SameTwice(p + q, was, mid, now);
      SameLength(p, StoresAll(v'.accs), mid);
      DenoteJoin(p, StoresAll(v'.accs), q, OwnStore(v'.field), now);
    }
  }

  /** done is what the walk over vals has left behind, todo what lies ahead. */
  ghost predicate Walking(vals: seq<Acc>, offset0: int, length0: nat, update: nat, partial: bool,
                          done: seq<Acc>, todo: seq<Acc>, offset: int, length: nat)
  {
    var w, rest := Walk(vals, offset0, length0, update, partial), Walk(todo, offset, length, update, partial);
    w == Walked(done + rest.accs, rest.err, rest.length)
  }

  method AdjustBlock(first: Accessor?, offset0: int, length0: nat, update: nat, h: Handle, ghost kids: seq<Kid>)
    returns (err: int, length: nat)
    requires first == AccAt(kids, 0) && LinkedAll(kids, h) && DistinctAll(kids)
    requires h.buffer.Valid() && ReadableAll(ValueAll(kids), h.buffer.Message())
    modifies PartsOfAll(kids).accs`offset, PartsOfAll(kids).accs`length
    modifies PartsOfAll(kids).secs`padding, PartsOfAll(kids).secs`length, PartsOfAll(kids).secs`stored, h.buffer.data
    ensures var w := Walk(old(ValueAll(kids)), offset0, length0, update, h.partial);
            err == w.err && length == w.length && ValueAll(kids) == w.accs
    ensures RewrittenAll(old(ValueAll(kids)), ValueAll(kids), old(h.buffer.Message()), h.buffer.Message())
    decreases kids, 1, 1
  {
    hide ValueAll, ValueKid, PartsOfAll, PartsOfKid, LinkedAll, LinkedKid, DistinctAll, DistinctKid, AdjustAcc,
      Walk, Walking, ReadableAll, ReadableAcc, RewrittenAcc, RewrittenAll, StoresAll, PlacesAll, Apart;
    ghost var vals, start := ValueAll(kids), h.buffer.Message();
    err, length := GRIB_SUCCESS, length0;
    var offset: int := offset0;
    var a := first;
    ghost var i := 0;
    NoKids(kids, vals, offset0, length0, update, h.partial);
    NothingRewritten(vals, start);
    while a != null
      invariant 0 <= i <= |kids| && a == AccAt(kids, i) && err == GRIB_SUCCESS
      invariant LinkedAll(kids, h)
      invariant ValueAll(kids[i..]) == vals[i..]
      invariant Walking(vals, offset0, length0, update, h.partial, ValueAll(kids[..i]), vals[i..], offset, length)
      invariant RewrittenAll(vals, ValueAll(kids[..i]) + vals[i..], start, h.buffer.Message())
      invariant |StoresAll(ValueAll(kids[..i]))| == |StoresAll(vals[..i])|
      decreases |kids| - i
    {
      ghost var done := ValueAll(kids[..i]);
      err := AdjustNext(a, offset, update, h, kids, i, vals, start);
      if err != GRIB_SUCCESS {
        WalkingStops(vals, offset0, length0, update, h.partial, done, vals[i..], offset, length);
        return;
      }
      WalkingNext(vals, offset0, length0, update, h.partial, done, vals[i..], offset, length);
      length := length + a.length;
      offset := offset + a.length;
      a := a.next;
      i := i + 1;
    }
    WalkingEnds(vals, offset0, length0, update, h.partial, ValueAll(kids[..i]), vals[i..], offset, length);
    assert kids[..i] == kids;
    assert ValueAll(kids[..i]) + vals[i..] == ValueAll(kids);
  }

  /** One round of the walk, with the length fields of the block. */
  method AdjustNext(a: Accessor, offset: int, update: nat, h: Handle, ghost kids: seq<Kid>, ghost i: nat,
                    ghost vals: seq<Acc>, ghost start: seq<byte>) returns (err: int)
    requires i < |kids| == |vals| && a == kids[i].a && LinkedAll(kids, h) && DistinctAll(kids) && h.buffer.Valid()
    requires ValueAll(kids[i..]) == vals[i..] && Apart(PlacesAll(vals))
    requires RewrittenAll(vals, ValueAll(kids[..i]) + vals[i..], start, h.buffer.Message())
    requires |StoresAll(ValueAll(kids[..i]))| == |StoresAll(vals[..i])|
    modifies PartsOfAll(kids).accs`offset, PartsOfAll(kids).accs`length
    modifies PartsOfAll(kids).secs`padding, PartsOfAll(kids).secs`length, PartsOfAll(kids).secs`stored, h.buffer.data
    ensures var r := AdjustAcc(vals[i], update, h.partial);
            if r.err != GRIB_SUCCESS then err == r.err && ValueKid(kids[i]) == r.state
            else if offset != r.state.offset then
              err == GRIB_DECODING_ERROR && ValueKid(kids[i]) == r.state.(offset := offset)
            else err == GRIB_SUCCESS && ValueKid(kids[i]) == r.state
    ensures LinkedAll(kids, h) && ValueKid(kids[i]).length == a.length && a.next == AccAt(kids, i + 1)
    ensures ValueAll(kids[i + 1..]) == vals[i + 1..]
    ensures ValueAll(kids[..i + 1]) == old(ValueAll(kids[..i])) + [ValueKid(kids[i])]
    ensures ValueAll(kids) == ValueAll(kids[..i + 1]) + vals[i + 1..]
    ensures RewrittenAll(vals, ValueAll(kids[..i + 1]) + vals[i + 1..], start, h.buffer.Message())
    ensures |StoresAll(ValueAll(kids[..i + 1]))| == |StoresAll(vals[..i + 1])|
    decreases kids, 1, 0
  {
    hide ValueAll, ValueKid, PartsOfAll, PartsOfKid, LinkedAll, LinkedKid, DistinctAll, DistinctKid, AdjustAcc,
      ReadableAcc, RewrittenAcc, RewrittenAll, StoresAll, PlacesAll, Apart;
    ghost var done, was := ValueAll(kids[..i]), h.buffer.Message();
    KidLinked(kids, i, h);
    ValueSplit(kids, i);
    assert vals[i] == ValueKid(kids[i]) && vals[i + 1..] == ValueAll(kids[i + 1..]);
    assert done + vals[i..] == done + [vals[i]] + vals[i + 1..];
    ReadableOne(done, vals[i], vals[i + 1..], vals, i, start, was);
    err := AdjustKid(a, offset, update, h, kids, i);
    RewrittenOne(done, vals[i], ValueKid(kids[i]), vals[i + 1..], vals, i, start, was, h.buffer.Message());
    ValueSplit(kids, i);
    ValueAppend(kids, i);
  }

  lemma NothingRewritten(vals: seq<Acc>, data: seq<byte>)
    requires ReadableAll(vals, data)
    ensures RewrittenAll(vals, vals, data, data) && Apart(PlacesAll(vals)) && [] + vals[0..] == vals && vals[..0] == []
  {
    hide Denote, Apart, PlacesAll, StoresAll;
    SameAtOnce(PlacesAll(vals), data);
  }

  lemma WalkingNext(vals: seq<Acc>, offset0: int, length0: nat, update: nat, partial: bool,
                    done: seq<Acc>, todo: seq<Acc>, offset: int, length: nat)
    requires Walking(vals, offset0, length0, update, partial, done, todo, offset, length) && todo != []
    requires var r := AdjustAcc(todo[0], update, partial); r.err == GRIB_SUCCESS && r.state.offset == offset
    ensures var r := AdjustAcc(todo[0], update, partial);
            Walking(vals, offset0, length0, update, partial, done + [r.state], todo[1..],
                    offset + r.state.length, length + r.state.length)
  {
    hide AdjustAcc;
    WalkCases(todo, offset, length, update, partial);
    var r := AdjustAcc(todo[0], update, partial);
    var l := r.state.length;
    var rest := Walk(todo[1..], offset + l, length + l, update, partial);
    assert done + ([r.state] + rest.accs) == done + [r.state] + rest.accs;
  }

  lemma WalkingStops(vals: seq<Acc>, offset0: int, length0: nat, update: nat, partial: bool,
                     done: seq<Acc>, todo: seq<Acc>, offset: int, length: nat)
    requires Walking(vals, offset0, length0, update, partial, done, todo, offset, length) && todo != []
    requires var r := AdjustAcc(todo[0], update, partial); r.err != GRIB_SUCCESS || r.state.offset != offset
    ensures var w, r := Walk(vals, offset0, length0, update, partial), AdjustAcc(todo[0], update, partial);
            w == if r.err != GRIB_SUCCESS then Walked(done + [r.state] + todo[1..], r.err, length)
                 else Walked(done + [r.state.(offset := offset)] + todo[1..], GRIB_DECODING_ERROR, length)
  {
    hide AdjustAcc;
    WalkCases(todo, offset, length, update, partial);
    var r := AdjustAcc(todo[0], update, partial);
    var x := if r.err != GRIB_SUCCESS then r.state else r.state.(offset := offset);
    assert done + ([x] + todo[1..]) == done + [x] + todo[1..];
  }

  lemma WalkingEnds(vals: seq<Acc>, offset0: int, length0: nat, update: nat, partial: bool,
                    done: seq<Acc>, none: seq<Acc>, offset: int, length: nat)
    requires none == [] && Walking(vals, offset0, length0, update, partial, done, none, offset, length)
    ensures Walk(vals, offset0, length0, update, partial) == Walked(done, GRIB_SUCCESS, length)
  {
  }

  /** Kid i of a block is adjusted; its siblings are left alone. */
  method AdjustKid(a: Accessor, offset: int, update: nat, h: Handle, ghost kids: seq<Kid>, ghost i: nat)
    returns (err: int)
    requires i < |kids| && a == kids[i].a && LinkedAll(kids, h) && DistinctAll(kids)
    requires h.buffer.Valid() && ReadableAcc(ValueKid(kids[i]), h.buffer.Message())
    modifies PartsOfAll(kids).accs`offset, PartsOfAll(kids).accs`length
    modifies PartsOfAll(kids).secs`padding, PartsOfAll(kids).secs`length, PartsOfAll(kids).secs`stored, h.buffer.data
    ensures var r := AdjustAcc(old(ValueKid(kids[i])), update, h.partial);
            if r.err != GRIB_SUCCESS then err == r.err && ValueKid(kids[i]) == r.state
            else if offset != r.state.offset then
              err == GRIB_DECODING_ERROR && ValueKid(kids[i]) == r.state.(offset := offset)
            else err == GRIB_SUCCESS && ValueKid(kids[i]) == r.state
    ensures ValueAll(kids[..i]) == old(ValueAll(kids[..i]))
    ensures ValueAll(kids[i + 1..]) == old(ValueAll(kids[i + 1..]))
    ensures LinkedAll(kids, h)
    ensures ValueKid(kids[i]).length == a.length
    ensures RewrittenAcc(old(ValueKid(kids[i])), ValueKid(kids[i]), old(h.buffer.Message()), h.buffer.Message())
    decreases kids, 0
  {
    hide ValueAll, PartsOfAll, PartsOfKid, LinkedAll, LinkedKid, DistinctAll, DistinctKid, AdjustAcc,
      ReadableAcc, RewrittenAcc;
    KidApart(kids, i);
    KidLinked(kids, i, h);
    KidsExist(kids);
    KidsExist(kids[..i]);
    KidsExist(kids[i + 1..]);
    err := AdjustAccessor(a, offset, update, h, kids[i]);
  }

  lemma NoKids(kids: seq<Kid>, vals: seq<Acc>, offset: int, length: nat, update: nat, partial: bool)
    ensures kids[0..] == kids && vals[0..] == vals
    ensures Walking(vals, offset, length, update, partial, ValueAll(kids[..0]), vals[0..], offset, length)
  {
  }

  lemma NoFields(data: seq<byte>)
    ensures Denote([], [], data) && SameElsewhere([], data, data)
  {
  }

  /** One accessor of the block: its section first, then the check of its own offset. */
  method AdjustAccessor(a: Accessor, offset: int, update: nat, h: Handle, ghost k: Kid) returns (err: int)
    requires a == k.a && LinkedKid(k, h) && DistinctKid(k)
    requires h.buffer.Valid() && ReadableAcc(ValueKid(k), h.buffer.Message())
    modifies PartsOfKid(k).accs`offset, PartsOfKid(k).accs`length
    modifies PartsOfKid(k).secs`padding, PartsOfKid(k).secs`length, PartsOfKid(k).secs`stored, h.buffer.data
    ensures var r := AdjustAcc(old(ValueKid(k)), update, h.partial);
            if r.err != GRIB_SUCCESS then err == r.err && ValueKid(k) == r.state
            else if offset != r.state.offset then
              err == GRIB_DECODING_ERROR && ValueKid(k) == r.state.(offset := offset)
            else err == GRIB_SUCCESS && ValueKid(k) == r.state
    ensures RewrittenAcc(old(ValueKid(k)), ValueKid(k), old(h.buffer.Message()), h.buffer.Message())
    decreases k
  {
    hide Places, Stores, Apart, Denote, SameElsewhere, Adjust;
    NoFields(h.buffer.Message());
    err := AdjustSizes(a.subSection, update, h, k.sub);
    if err != GRIB_SUCCESS { return; }
    if offset != a.offset {
      a.offset := offset;
      return GRIB_DECODING_ERROR;
    }
  }

  // ---------------------------------------------------------------- find_paddings

  /** Accessors in the order find_paddings looks at them: what is below a section comes before the
      accessor that owns it. */
  ghost function PostOrder(t: Tree): seq<Accessor>
    decreases t, 1
  {
    PostOrderAll(t.kids)
  }

  ghost function PostOrderKid(k: Kid): seq<Accessor>
    decreases k
  {
    (if k.sub.None? then [] else PostOrder(k.sub.value)) + [k.a]
  }

  ghost function PostOrderAll(kids: seq<Kid>): seq<Accessor>
    decreases kids, 0
  {
    if kids == [] then [] else PostOrderKid(kids[0]) + PostOrderAll(kids[1..])
  }

  /** The first accessor of the list whose length is not the preferred one. */
  ghost function FirstMismatch(list: seq<Accessor>): Accessor?
    reads (set a | a in list)`length, (set a | a in list)`offset, (set a | a in list :: a.Mark())`offset
  {
    if list == [] then null
    else if list[0].PreferredSize() != list[0].length then list[0]
    else FirstMismatch(list[1..])
  }

  lemma {:induction false} MismatchAppend(a: seq<Accessor>, b: seq<Accessor>)
    ensures FirstMismatch(a + b)
         == if FirstMismatch(a) != null then FirstMismatch(a) else FirstMismatch(b)
  {
    if a == [] {
      assert a + b == b;
    } else {
      MismatchAppend(a[1..], b);
      assert (a + b)[1..] == a[1..] + b;
    }
  }

  /** There is no first mismatch exactly when everything has its preferred size. */
  lemma {:induction false} NoMismatchIff(list: seq<Accessor>)
    ensures FirstMismatch(list) == null <==> forall a :: a in list ==> a.PreferredSize() == a.length
    ensures var p := FirstMismatch(list); p != null ==> p in list && p.PreferredSize() != p.length
  {
    if list != [] { NoMismatchIff(list[1..]); }
  }

  /** Nothing of the tree is missing from the order. */
  lemma {:induction false} PostOrderComplete(t: Tree, a: Accessor)
    ensures a in PostOrder(t) <==> a in PartsOf(t).accs
    decreases t, 1
  {
    PostOrderCompleteAll(t.kids, a);
  }

  lemma {:induction false} PostOrderCompleteAll(kids: seq<Kid>, a: Accessor)
    ensures a in PostOrderAll(kids) <==> a in PartsOfAll(kids).accs
    decreases kids, 0
  {
    if kids != [] {
      assert kids decreases to kids[0];
      if kids[0].sub.Some? { PostOrderComplete(kids[0].sub.value, a); }
      PostOrderCompleteAll(kids[1..], a);
    }
  }

  lemma PostOrderExists(kids: seq<Kid>)
    ensures forall a :: a in PostOrderAll(kids) ==> allocated(a) && allocated(a.Mark())
  {
    KidsExist(kids);
    forall a | a in PostOrderAll(kids)
      ensures allocated(a)
    {
      PostOrderCompleteAll(kids, a);
    }
  }

  /** find_paddings */
  method FindPaddings(s: Section?, ghost h: Handle, ghost t: Option<Tree>)
    returns (p: Accessor?)
    requires s == null <==> t.None?
    requires t.Some? ==> t.value.s == s && Linked(t.value, h)
    ensures p == if t.None? then null else old(FirstMismatch(PostOrder(t.value)))
    decreases t
  {
    hide LinkedAll, LinkedKid, PostOrderAll, PostOrderKid, FirstMismatch, PartsOfAll, PartsOfKid, Wanted;
    var a := if s == null then null else s.first;
    ghost var kids := if t.None? then [] else t.value.kids;
    ghost var i := 0;
    MismatchFromStart(kids, h);
    ghost var goal := FirstMismatch(PostOrderAll(kids));
    while a != null
      invariant 0 <= i <= |kids| && a == AccAt(kids, i) && LinkedAll(kids, h)
      invariant goal == FirstMismatch(PostOrderAll(kids[i..]))
      decreases |kids| - i
    {
      KidLinked(kids, i, h);
      MismatchStep(kids, i);
      KidsExist(kids);
      PostOrderExists(kids[i + 1..]);
      assert kids decreases to kids[i];
      p := FindBelow(a, h, kids[i]);
      if p != null { return; }
      if a.PreferredSize() != a.length { return a; }
      a := a.next;
      i := i + 1;
    }
    MismatchAtEnd(kids[i..]);
    return null;
  }

  method FindBelow(a: Accessor, ghost h: Handle, ghost k: Kid) returns (p: Accessor?)
    requires a == k.a && LinkedKid(k, h)
    ensures p == if k.sub.None? then null else old(FirstMismatch(PostOrder(k.sub.value)))
    decreases k
  {
    p := FindPaddings(a.subSection, h, k.sub);
  }

  lemma MismatchFromStart(kids: seq<Kid>, h: Handle)
    ensures kids[0..] == kids && LinkedAll([], h)
  {
  }

  lemma MismatchAtEnd(none: seq<Kid>)
    requires none == []
    ensures FirstMismatch(PostOrderAll(none)) == null
  {
  }

  lemma MismatchStep(kids: seq<Kid>, i: nat)
    requires i < |kids|
    ensures var k := kids[i];
            var below := if k.sub.None? then null else FirstMismatch(PostOrder(k.sub.value));
            FirstMismatch(PostOrderAll(kids[i..])) ==
            if below != null then below
            else if k.a.PreferredSize() != k.a.length then k.a
            else FirstMismatch(PostOrderAll(kids[i + 1..]))
  {
    var k := kids[i];
    var sub := if k.sub.None? then [] else PostOrder(k.sub.value);
    assert kids[i..][1..] == kids[i + 1..];
    MismatchAppend(sub + [k.a], PostOrderAll(kids[i + 1..]));
    MismatchAppend(sub, [k.a]);
    assert FirstMismatch([k.a][1..]) == null;
  }

  // ---------------------------------------------------------------- update_offsets

  ghost function OffsetsOf(accs: set<Accessor>): map<Accessor, int>
    reads accs`offset
  {
    map a | a in accs :: a.offset
  }

  /** Moves every accessor from a on, and all below them, by len. */
  method UpdateOffsets(first: Accessor?, len: int, ghost h: Handle, ghost kids: seq<Kid>)
    requires first == AccAt(kids, 0) && LinkedAll(kids, h) && DistinctAll(kids)
    modifies PartsOfAll(kids).accs`offset
    ensures ValueAll(kids) == MovedAll(old(ValueAll(kids)), len)
    ensures forall x :: x in PartsOfAll(kids).accs ==> x.offset == old(OffsetsOf(PartsOfAll(kids).accs))[x] + len
    decreases kids, 1
  {
    hide ValueAll, ValueKid, PartsOfAll, PartsOfKid, LinkedAll, LinkedKid, DistinctAll, DistinctKid, MovedAll,
      MovedAcc;
    ghost var vals, offsets := ValueAll(kids), OffsetsOf(PartsOfAll(kids).accs);
    var a := first;
    ghost var i := 0;
    NoneMoved(kids, vals, len);
    while a != null
      invariant 0 <= i <= |kids| && a == AccAt(kids, i)
      invariant LinkedAll(kids, h)
      invariant ValueAll(kids[i..]) == vals[i..]
      invariant MovedAll(vals, len) == ValueAll(kids[..i]) + MovedAll(vals[i..], len)
      invariant forall x :: x in PartsOfAll(kids).accs ==>
                  x.offset == offsets[x] + if x in PartsOfAll(kids[..i]).accs then len else 0
      decreases |kids| - i
    {
      KidLinked(kids, i, h);
      KidApart(kids, i);
      PartsAppend(kids, i);
      ValueSplit(kids, i);
      ghost var done := ValueAll(kids[..i]);
      MoveKid(a, len, h, kids, i);
      ValueSplit(kids, i);
      ValueAppend(kids, i);
      MovedStep(vals[i..], len);
      assert done + ([ValueKid(kids[i])] + MovedAll(vals[i + 1..], len))
          == done + [ValueKid(kids[i])] + MovedAll(vals[i + 1..], len);
      a := a.next;
      i := i + 1;
    }
    AllMoved(kids, vals, len);
  }

  lemma {:induction false} PartsAppend(kids: seq<Kid>, i: nat)
    requires i < |kids|
    ensures PartsOfAll(kids[..i + 1]) == PartsOfAll(kids[..i]).Plus(PartsOfKid(kids[i]))
    decreases i
  {
    hide PartsOfKid;
    if i > 0 {
      PartsAppend(kids[1..], i - 1);
      assert kids[1..][..i] == kids[..i + 1][1..] && kids[1..][..i - 1] == kids[..i][1..];
    } else {
      assert kids[..1][1..] == [];
    }
  }

  lemma NoneMoved(kids: seq<Kid>, vals: seq<Acc>, len: int)
    ensures kids[0..] == kids && vals[0..] == vals && ValueAll(kids[..0]) == []
    ensures PartsOfAll(kids[..0]).accs == {}
  {
  }

  lemma AllMoved(kids: seq<Kid>, vals: seq<Acc>, len: int)
    requires |vals| == |kids|
    ensures kids[..|kids|] == kids && MovedAll(vals[|kids|..], len) == []
  {
  }

  lemma MovedStep(vals: seq<Acc>, len: int)
    requires vals != []
    ensures MovedAll(vals, len) == [MovedAcc(vals[0], len)] + MovedAll(vals[1..], len)
  {
  }

  method MoveKid(a: Accessor, len: int, ghost h: Handle, ghost kids: seq<Kid>, ghost i: nat)
    requires i < |kids| && a == kids[i].a && LinkedAll(kids, h) && DistinctAll(kids)
    modifies PartsOfAll(kids).accs`offset
    ensures ValueKid(kids[i]) == MovedAcc(old(ValueKid(kids[i])), len)
    ensures forall x :: x in PartsOfAll(kids).accs ==>
              x.offset == old(OffsetsOf(PartsOfAll(kids).accs))[x] + if x in PartsOfKid(kids[i]).accs then len else 0
    ensures ValueAll(kids[..i]) == old(ValueAll(kids[..i]))
    ensures ValueAll(kids[i + 1..]) == old(ValueAll(kids[i + 1..]))
    ensures LinkedAll(kids, h)
    decreases kids, 0
  {
    hide ValueAll, PartsOfAll, PartsOfKid, LinkedAll, LinkedKid, DistinctAll, DistinctKid;
    KidApart(kids, i);
    KidLinked(kids, i, h);
    KidsExist(kids);
    KidsExist(kids[..i]);
    KidsExist(kids[i + 1..]);
    MoveAccessor(a, len, h, kids[i]);
  }

  method MoveAccessor(a: Accessor, len: int, ghost h: Handle, ghost k: Kid)
    requires a == k.a && LinkedKid(k, h) && DistinctKid(k)
    modifies PartsOfKid(k).accs`offset
    ensures ValueKid(k) == MovedAcc(old(ValueKid(k)), len)
    ensures forall x :: x in PartsOfKid(k).accs ==> x.offset == old(OffsetsOf(PartsOfKid(k).accs))[x] + len
    decreases k
  {
    var s := a.subSection;
    a.offset := a.offset + len;
    if s != null {
      ghost var t := k.sub.value;
      UpdateOffsets(s.first, len, h, t.kids);
    }
  }
}
