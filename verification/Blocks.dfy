/** Building a block: grib_accessor_factory and grib_push_accessor (src/grib_accessor_class.cc). */
module Blocks {
  import opened Results
  import opened Layout
  import opened LengthFields
  import opened Buffers
  import opened Sections

  // ---------------------------------------------------------------- the block as a doubly linked list

  ghost function At(accs: seq<Accessor>, i: int): Accessor? {
    if 0 <= i < |accs| then accs[i] else null
  }

  /** first, last, next and previous run through accs. */
  ghost predicate DoublyLinked(s: Section, accs: seq<Accessor>)
    reads s`first, s`last, (set a | a in accs)`next, (set a | a in accs)`previous
  {
    && s.first == At(accs, 0) && s.last == At(accs, |accs| - 1)
    && (forall i, j :: 0 <= i < j < |accs| ==> accs[i] != accs[j])
    && (forall i :: 0 <= i < |accs| ==> accs[i].next == At(accs, i + 1) && accs[i].previous == At(accs, i - 1))
  }

  /** Each accessor starts where the one before it ends, the first one at the given offset. */
  ghost predicate Contiguous(accs: seq<Accessor>, offset: int)
    reads (set a | a in accs)`offset, (set a | a in accs)`length
  {
    forall i :: 0 <= i < |accs| ==> accs[i].offset == End(accs[..i], offset)
  }

  /** Where the next accessor of the block goes. */
  ghost function End(accs: seq<Accessor>, offset: int): int
    reads (set a | a in accs)`offset, (set a | a in accs)`length
  {
    if accs == [] then offset else accs[|accs| - 1].offset + accs[|accs| - 1].length
  }

  /** The offset of the last accessor's end is the sum of all lengths away from the start. */
  lemma {:induction false} ContiguousEnd(accs: seq<Accessor>, offset: int)
    requires Contiguous(accs, offset)
    ensures End(accs, offset) == offset + TotalLength(accs)
  {
    if accs != [] {
      var n := |accs| - 1;
      assert forall i :: 0 <= i < n ==> accs[..n][..i] == accs[..i];
      ContiguousEnd(accs[..n], offset);
    }
  }

  ghost function TotalLength(accs: seq<Accessor>): nat
    reads (set a | a in accs)`length
  {
    if accs == [] then 0 else TotalLength(accs[..|accs| - 1]) + accs[|accs| - 1].length
  }

  // ---------------------------------------------------------------- accessors of one name

  /** The newest accessor of the list whose name has the given id. */
  ghost function Newest(list: seq<Accessor>, keyId: string -> nat, id: nat): Accessor? {
    if list == [] then null
    else
      var n := |list| - 1;
      if keyId(list[n].name) == id then list[n] else Newest(list[..n], keyId, id)
  }

  /** The accessors of the list with a given name, newest first. */
  ghost function Named(list: seq<Accessor>, name: string): seq<Accessor> {
    if list == [] then []
    else
      var n := |list| - 1;
      if list[n].name == name then [list[n]] + Named(list[..n], name) else Named(list[..n], name)
  }

  /** accessors[id] is the newest accessor of that id, and same leads to the one before. */
  ghost predicate Indexed(h: Handle)
    reads h`indexed, h.accessors, (set a | a in h.indexed)`same
  {
    && (forall k :: 0 <= k < |h.indexed| ==> h.keyId(h.indexed[k].name) < h.accessors.Length)
    && (forall j, k :: 0 <= j < k < |h.indexed| ==> h.indexed[j] != h.indexed[k])
    && (forall id :: 0 <= id < h.accessors.Length ==> h.accessors[id] == Newest(h.indexed, h.keyId, id))
    && (forall k :: 0 <= k < |h.indexed| ==>
          h.indexed[k].same == Newest(h.indexed[..k], h.keyId, h.keyId(h.indexed[k].name)))
  }

  /** Following same from a visits exactly the accessors of the list, in order. */
  ghost predicate Chain(a: Accessor?, list: seq<Accessor>)
    reads (set x | x in list)`same
    decreases |list|
  {
    if list == [] then a == null else a == list[0] && Chain(list[0].same, list[1..])
  }

  /** Names of one id are equal. */
  ghost predicate OneNamePerId(h: Handle, name: string)
    reads h`indexed
  {
    forall a :: a in h.indexed && h.keyId(a.name) == h.keyId(name) ==> a.name == name
  }

  /** For a name whose id no other name shares, the table entry heads a chain of exactly the
      accessors that were pushed under the name, newest first, none of them twice. */
  lemma ChainOfName(h: Handle, name: string)
    requires Indexed(h) && OneNamePerId(h, name) && h.keyId(name) < h.accessors.Length
    ensures Chain(h.accessors[h.keyId(name)], Named(h.indexed, name))
    ensures forall a :: a in Named(h.indexed, name) <==> a in h.indexed && a.name == name
    ensures NoRepeat(Named(h.indexed, name))
  {
    assert h.indexed[..|h.indexed|] == h.indexed;
    ChainOfPrefix(h, name, |h.indexed|);
    NamedMembers(h.indexed, name);
  }

  lemma {:induction false} ChainOfPrefix(h: Handle, name: string, n: nat)
    requires Indexed(h) && OneNamePerId(h, name) && n <= |h.indexed|
    ensures Chain(Newest(h.indexed[..n], h.keyId, h.keyId(name)), Named(h.indexed[..n], name))
    decreases n
  {
    if n > 0 {
      var a, before, l := h.indexed[n - 1], h.indexed[..n - 1], h.indexed[..n];
      assert l[n - 1] == a && l[..n - 1] == before;
      ChainOfPrefix(h, name, n - 1);
      if a.name == name {
        assert a.same == Newest(before, h.keyId, h.keyId(name));
        assert Named(l, name) == [a] + Named(before, name);
        assert Named(l, name)[1..] == Named(before, name);
      }
    }
  }

  ghost predicate NoRepeat(list: seq<Accessor>) {
    forall i, j :: 0 <= i < j < |list| ==> list[i] != list[j]
  }

  lemma {:induction false} NamedMembers(list: seq<Accessor>, name: string)
    requires NoRepeat(list)
    ensures forall a :: a in Named(list, name) <==> a in list && a.name == name
    ensures NoRepeat(Named(list, name))
  {
    if list != [] {
      var n := |list| - 1;
      NamedMembers(list[..n], name);
      assert list == list[..n] + [list[n]];
      RepeatOrNot(list[n], Named(list[..n], name));
    }
  }

  lemma RepeatOrNot(a: Accessor, list: seq<Accessor>)
    requires NoRepeat(list) && a !in list
    ensures NoRepeat([a] + list)
  {
  }

  // ---------------------------------------------------------------- where the next accessor goes

  predicate Underscored(name: string) { |name| > 1 && name[1] == '_' }

  /** byte_count: a section that has no length yet, or is being parsed again, is adjusted first.  The
      result is the accessor as it is afterwards, and its bytes. */
  function Counted(v: Acc, name: string, loader: bool, partial: bool): (Acc, nat) {
    if v.sub.None? || (v.length > 0 && !loader) then (v, v.length)
    else if Underscored(name) then (v, 0)
    else
      var r := Adjust(v.sub.value, v.offset, if loader then 1 else 0, partial);
      var length := if r.err == GRIB_SUCCESS then r.state.length else v.length;
      (v.(sub := Some(r.state), length := length), length)
  }

  /** byte_count, name by name: with an underscore in second place nothing is counted, ... */
  lemma CountedUnderscore(v: Acc, name: string, loader: bool, partial: bool)
    requires v.sub.Some? && (v.length == 0 || loader) && |name| >= 2 && name[1] == '_'
    ensures Counted(v, name, loader, partial) == (v, 0)
  {
  }

  /** ... with any other name what adjusting makes of it, rewriting lengths if it is parsed again. */
  lemma CountedOtherwise(v: Acc, name: string, loader: bool, partial: bool)
    requires v.sub.Some? && (v.length == 0 || loader) && (|name| < 2 || name[1] != '_')
    ensures var (v', bytes) := Counted(v, name, loader, partial);
            var r := Adjust(v.sub.value, v.offset, if loader then 1 else 0, partial);
            && v' == Acc(v.offset, bytes, Some(r.state))
            && bytes == if r.err == GRIB_SUCCESS then r.state.length else v.length
  {
    hide Adjust;
  }

  lemma CountedAll(v: Acc, name: string, loader: bool, partial: bool)
    ensures var (v', n) := Counted(v, name, loader, partial);
            && v'.offset == v.offset
            && (n == v'.length <==> v.sub.None? || !loader || !Underscored(name) || v.length == 0)
  {
    hide Adjust;
  }

  /** get_next_position_offset */
  method NextPosition(a: Accessor, h: Handle, ghost k: Kid) returns (pos: int)
    requires a == k.a && LinkedKid(k, h) && DistinctKid(k)
    requires h.buffer.Valid() && ReadableAcc(ValueKid(k), h.buffer.Message())
    modifies PartsOfKid(k).accs`offset, PartsOfKid(k).accs`length
    modifies PartsOfKid(k).secs`padding, PartsOfKid(k).secs`length, PartsOfKid(k).secs`stored, h.buffer.data
    ensures (ValueKid(k), pos - old(a.offset)) == Counted(old(ValueKid(k)), a.name, old(h.loader), h.partial)
    ensures RewrittenAcc(old(ValueKid(k)), ValueKid(k), old(h.buffer.Message()), h.buffer.Message())
    ensures a.offset == old(a.offset) && (k.sub.None? ==> h.buffer.Message() == old(h.buffer.Message()))
  {
    hide Places, Stores, Apart, Denote, SameElsewhere, Adjust, Linked, Distinct;
    Unread(ValueKid(k), h.buffer.Message());
    if a.subSection != null {
      if a.length == 0 || h.loader {
        if Underscored(a.name) { return a.offset; }
        var _ := AdjustSizes(a.subSection, if h.loader then 1 else 0, h, k.sub);
      }
    }
    pos := a.offset + a.length;
  }

  lemma Unread(v: Acc, data: seq<Bits.byte>)
    requires ReadableAcc(v, data)
    ensures RewrittenAcc(v, v, data, data)
  {
    SameAtOnce(PlacesAcc(v), data);
  }

  // ---------------------------------------------------------------- the factory

  /** What an accessor is made to be: one for so many bytes, the one that stores the length of its
      section, or one that owns a section. */
  datatype Class = Bytes(padding: Padding) | SectionLength | SectionOwner

  function PaddingOf(cls: Class): Padding {
    if cls.Bytes? then cls.padding else Keeps
  }

  /** The bytes it starts with. */
  function Extent(cls: Class, len: nat): nat {
    if cls.SectionOwner? then 0 else len
  }

  /** grib_accessor_section_t::init: an accessor of this class gets an empty section of its own. */
  method InitSection(a: Accessor, h: Handle)
    modifies a`subSection, a`length
    ensures a.length == 0 && a.subSection != null && fresh(a.subSection)
    ensures var s := a.subSection;
            && s.owner == a && s.h == h && s.aclength == null
            && DoublyLinked(s, []) && s.length == 0 && s.padding == 0
  {
    a.subSection := new Section(h, a);
    a.length := 0;
  }

  /** grib_accessor_section_length_t::init: from now on the accessor stores the length of the section
      it is in. */
  method InitSectionLength(a: Accessor, len: nat)
    modifies a.parent`aclength, a`length
    ensures a.parent.aclength == a && a.length == len
  {
    a.parent.aclength := a;
    a.length := len;
  }

  /** init_accessor */
  method Init(a: Accessor, cls: Class, len: nat, h: Handle)
    requires a.subSection == null
    modifies a`subSection, a`length, a.parent`aclength
    ensures a.length == Extent(cls, len)
    ensures a.parent.aclength == if cls.SectionLength? then a else old(a.parent.aclength)
    ensures a.subSection != null <==> cls.SectionOwner?
    ensures cls.SectionOwner? ==>
              var s := a.subSection;
              && fresh(s) && s.owner == a && s.h == h && s.aclength == null
              && DoublyLinked(s, []) && s.length == 0 && s.padding == 0
  {
    match cls
    case Bytes(_) => a.length := len;
    case SectionLength => InitSectionLength(a, len);
    case SectionOwner => InitSection(a, h);
  }

  /** The last accessor of a block with what lies below it. */
  ghost predicate LastKid(p: Section, accs: seq<Accessor>, last: Option<Kid>)
    reads p.h.buffer, p.h.buffer.data, PartsOfLast(last).accs, PartsOfLast(last).secs
    requires p.h.buffer.Valid()
  {
    && (last.None? <==> accs == [])
    && (last.Some? ==>
          var k := last.value;
          && k.a == accs[|accs| - 1] && LinkedKid(k, p.h) && DistinctKid(k) && p !in PartsOfKid(k).secs
          && ReadableAcc(ValueKid(k), p.h.buffer.Message()))
  }

  ghost function PartsOfLast(last: Option<Kid>): Parts {
    if last.None? then Parts({}, {}) else PartsOfKid(last.value)
  }

  /** The last accessor and its bytes once they have been counted. */
  ghost function CountedLast(k: Kid, h: Handle): (Acc, nat)
    reads h`loader, PartsOfKid(k).accs, PartsOfKid(k).secs
  {
    Counted(ValueKid(k), k.a.name, h.loader, h.partial)
  }

  /** Where the next accessor goes, as the last one is before. */
  ghost function NextOffset(p: Section, last: Option<Kid>): int
    reads p.h`loader, OwnerOf(p), PartsOfLast(last).accs, PartsOfLast(last).secs
  {
    if last.None? then OwnerOffset(p) else last.value.a.offset + CountedLast(last.value, p.h).1
  }

  /** The buffer is made to reach size, if it may grow. */
  method Cover(b: Buffer, size: int) returns (covered: bool)
    requires b.Valid()
    modifies b`data, b`ulength
    ensures b.Valid() && (b.data == old(b.data) || fresh(b.data)) && old(b.data.Length) <= b.data.Length
    ensures covered <==> size <= old(b.ulength) || b.growable
    ensures b.ulength == if covered && size > old(b.ulength) then size else old(b.ulength)
    ensures b.data[..old(b.ulength)] == old(b.Message())
  {
    ghost var message := b.Message();
    if size > b.ulength {
      if !b.growable { return false; }
      b.Grow(size);
      assert b.data[..|message|] == message;
      b.ulength := size;
    }
    return true;
  }

  ghost function LastBefore(last: Option<Kid>): Acc
    reads PartsOfLast(last).accs, PartsOfLast(last).secs
  {
    if last.None? then Acc(0, 0, None) else ValueKid(last.value)
  }

  ghost function LastAfter(last: Option<Kid>, h: Handle): Acc
    reads h`loader, PartsOfLast(last).accs, PartsOfLast(last).secs
  {
    if last.None? then Acc(0, 0, None) else CountedLast(last.value, h).0
  }

  /** The last accessor has been counted; of the message was only octets of length fields below it
      have changed, to match. */
  ghost predicate LastCounted(h: Handle, last: Option<Kid>, before: Acc, after: Acc, was: seq<Bits.byte>)
    reads h.buffer, h.buffer.data, PartsOfLast(last).accs, PartsOfLast(last).secs
  {
    && h.buffer.Valid() && |was| <= h.buffer.ulength && LastBefore(last) == after
    && RewrittenAcc(before, after, was, h.buffer.Message()[..|was|])
  }

  /** What a new accessor of section p is. */
  ghost predicate Made(a: Accessor, p: Section, name: string, cls: Class, len: nat, offset: int)
    reads a`subSection, a`offset, a`length, a.subSection, p`aclength, p`stored, p.h.buffer, p.h.buffer.data
    requires p.h.buffer.Valid()
  {
    && a.name == name && a.parent == p && a.padding == PaddingOf(cls) && a.nbytes == len
    && a.offset == offset && a.length == Extent(cls, len)
    && (a.subSection != null <==> cls.SectionOwner?)
    && (cls.SectionOwner? ==>
          var s := a.subSection;
          s.owner == a && s.h == p.h && s.aclength == null && DoublyLinked(s, []) && s.length == 0 && s.padding == 0)
    && (cls.SectionLength? ==>
          && p.aclength == a
          && (0 <= offset && offset + len <= p.h.buffer.ulength ==>
                p.stored == Bits.NatOf(p.h.buffer.Message()[offset..offset + len])))
  }

  /** The accessor is made, initialised, and asked where it ends. */
  method NewAccessor(p: Section, name: string, cls: Class, len: nat, offset: int) returns (x: Accessor, size: int)
    requires p.h.buffer.Valid()
    modifies p`aclength, p.h.buffer.data
    ensures fresh(x) && x.name == name && x.parent == p && x.padding == PaddingOf(cls) && x.nbytes == len
    ensures x.offset == offset && x.length == Extent(cls, len) && size == offset + Extent(cls, len)
    ensures x.next == null && x.previous == null && x.same == null && x.attributes == []
    ensures x.subSection != null <==> cls.SectionOwner?
    ensures cls.SectionOwner? ==>
              var s := x.subSection;
              && fresh(s) && s.owner == x && s.h == p.h && s.aclength == null
              && DoublyLinked(s, []) && s.length == 0 && s.padding == 0
    ensures p.aclength == (if cls.SectionLength? then x else old(p.aclength))
    ensures p.h.buffer.Message() == old(p.h.buffer.Message())
  {
    hide LinkedKid, DistinctKid, ReadableAcc, RewrittenAcc, ValueKid, Counted, PartsOfKid;
    x := new Accessor(name, offset, len, p, PaddingOf(cls));
    Init(x, cls, len, p.h);
    NewKidFacts(x, p.h);
    ghost var was, v := p.h.buffer.Message(), ValueKid(NewKid(x));
    size := NextPosition(x, p.h, NewKid(x));
    NewKidValue(x);
    NothingElse(v, ValueKid(NewKid(x)), was, p.h.buffer.Message());
  }

  lemma NewKidValue(a: Accessor)
    ensures var v := ValueKid(NewKid(a));
            && v.offset == a.offset && v.length == a.length
            && (a.subSection != null ==>
                  && v.sub.Some? && v.sub.value.length == a.subSection.length
                  && v.sub.value.padding == a.subSection.padding)
  {
  }

  lemma Unchanged(data: seq<Bits.byte>)
    ensures RewrittenAcc(Acc(0, 0, None), Acc(0, 0, None), data, data)
  {
    SameAtOnce([], data);
  }

  lemma NothingElse(a: Acc, a': Acc, was: seq<Bits.byte>, now: seq<Bits.byte>)
    requires RewrittenAcc(a, a', was, now) && (a.sub.None? || a.sub.value == Sec([], None, 0, 0))
    ensures now == was
  {
    assert PlacesAcc(a) == [];
    forall i | 0 <= i < |was|
      ensures now[i] == was[i]
    {
      assert !Covered(PlacesAcc(a), i);
    }
  }

  lemma LastApart(p: Section, accs: seq<Accessor>, last: Option<Kid>)
    requires p.h.buffer.Valid() && LastKid(p, accs, last)
    ensures p !in PartsOfLast(last).secs
  {
  }

  lemma LastExists(last: Option<Kid>)
    ensures forall x :: x in PartsOfLast(last).accs ==> allocated(x)
    ensures forall x :: x in PartsOfLast(last).secs ==> allocated(x)
  {
    if last.Some? { KidExists(last.value); }
  }

  /** Where the block ends, or starts. */
  method Start(p: Section, ghost accs: seq<Accessor>, ghost last: Option<Kid>) returns (offset: int)
    requires DoublyLinked(p, accs) && p.h.buffer.Valid() && LastKid(p, accs, last)
    modifies PartsOfLast(last).accs`offset, PartsOfLast(last).accs`length
    modifies PartsOfLast(last).secs`padding, PartsOfLast(last).secs`length, PartsOfLast(last).secs`stored
    modifies p.h.buffer.data
    ensures DoublyLinked(p, accs) && offset == old(NextOffset(p, last))
    ensures LastCounted(p.h, last, old(LastBefore(last)), old(LastAfter(last, p.h)), old(p.h.buffer.Message()))
    ensures |p.h.buffer.Message()| == old(|p.h.buffer.Message()|)
  {
    hide LinkedKid, DistinctKid, PartsOfKid, ReadableAcc, RewrittenAcc, ValueKid, Counted, DoublyLinked;
    offset := 0;
    LastOf(p, accs);
    Unchanged(p.h.buffer.Message());
    if p.last != null {
      KidExists(last.value);
      offset := NextPosition(p.last, p.h, last.value);
    } else if p.owner != null {
      offset := p.owner.offset;
    }
    assert p.h.buffer.Message()[..p.h.buffer.ulength] == p.h.buffer.Message();
  }

  /** grib_accessor_factory */
  method Factory(p: Section, name: string, cls: Class, len: nat, ghost accs: seq<Accessor>, ghost last: Option<Kid>)
    returns (a: Accessor?)
    requires DoublyLinked(p, accs) && p.h.buffer.Valid() && LastKid(p, accs, last)
    modifies PartsOfLast(last).accs`offset, PartsOfLast(last).accs`length
    modifies PartsOfLast(last).secs`padding, PartsOfLast(last).secs`length, PartsOfLast(last).secs`stored
    modifies p`aclength, p`stored, p.h.buffer`data, p.h.buffer`ulength, p.h.buffer.data
    ensures p.h.buffer.Valid() && DoublyLinked(p, accs)
    ensures p.h.buffer.data == old(p.h.buffer.data) || fresh(p.h.buffer.data)
    ensures var end := old(NextOffset(p, last)) + Extent(cls, len); var b := p.h.buffer;
            && (a == null <==> end > old(b.ulength) && !b.growable)
            && b.ulength == (if a != null && end > old(b.ulength) then end else old(b.ulength))
    ensures LastCounted(p.h, last, old(LastBefore(last)), old(LastAfter(last, p.h)), old(p.h.buffer.Message()))
    ensures a != null ==>
              && fresh(a) && Made(a, p, name, cls, len, old(NextOffset(p, last)))
              && a.next == null && a.previous == null && a.same == null && a.attributes == []
              && (cls.SectionOwner? ==> fresh(a.subSection))
    ensures !cls.SectionLength? ==> p.aclength == old(p.aclength) && p.stored == old(p.stored)
    ensures cls.SectionLength? && a == null ==> p.aclength != null && fresh(p.aclength)
  {
    hide PartsOfKid, DoublyLinked, Bits.NatOf, LastKid, LastAfter, LastBefore, NextOffset, RewrittenAcc;
    LastApart(p, accs, last);
    var offset := Start(p, accs, last);
    ghost var message := p.h.buffer.Message();
    LastExists(last);
    var x, size := NewAccessor(p, name, cls, len, offset);
    var covered := Cover(p.h.buffer, size);
    assert p.h.buffer.Message()[..|message|] == p.h.buffer.data[..|message|] == message;
    assert message[..|message|] == message;
    if !covered { return null; }
    a := x;
    if cls.SectionLength? && offset >= 0 {
      p.stored := Bits.NatOf(p.h.buffer.Message()[offset..offset + len]);
    }
  }

  lemma LastOf(p: Section, accs: seq<Accessor>)
    requires DoublyLinked(p, accs)
    ensures p.last == At(accs, |accs| - 1)
  {
  }

  /** Counting it changes nothing. */
  lemma NewKidFacts(a: Accessor, h: Handle)
    requires h.buffer.Valid()
    requires a.subSection != null ==>
               var s := a.subSection;
               && s.owner == a && s.h == h && s.aclength == null && DoublyLinked(s, [])
               && s.length == 0 && s.padding == 0 && a.length == 0
    ensures LinkedKid(NewKid(a), h) && DistinctKid(NewKid(a)) && ReadableAcc(ValueKid(NewKid(a)), h.buffer.Message())
    ensures PartsOfKid(NewKid(a)) == Parts({a}, if a.subSection == null then {} else {a.subSection})
    ensures ValueKid(NewKid(a))
         == Acc(a.offset, a.length, if a.subSection == null then None else Some(Sec([], None, 0, 0)))
    ensures forall loader: bool, partial: bool ::
              Counted(ValueKid(NewKid(a)), a.name, loader, partial) == (ValueKid(NewKid(a)), a.length)
  {
    if a.subSection != null {
      var t := Tree(a.subSection, [], None);
      assert Value(t) == Sec([], None, 0, 0) && PartsOf(t) == Parts({}, {a.subSection});
      forall loader: bool, partial: bool
        ensures Counted(ValueKid(NewKid(a)), a.name, loader, partial) == (ValueKid(NewKid(a)), a.length)
      {
        WalkNone(a.offset, 0, if loader then 1 else 0, partial);
      }
    }
  }

  /** A new accessor with the empty section it may own. */
  ghost function NewKid(a: Accessor): Kid
    reads a`subSection
  {
    Kid(a, if a.subSection == null then None else Some(Tree(a.subSection, [], None)))
  }

  // ---------------------------------------------------------------- the push

  /** A name that starts with an underscore stays out of the table. */
  predicate Hidden(name: string) { name != [] && name[0] == '_' }

  /** The first attribute of a name. */
  function AttributeNamed(attributes: seq<Accessor>, name: string): Accessor? {
    if attributes == [] then null
    else if attributes[0].name == name then attributes[0]
    else AttributeNamed(attributes[1..], name)
  }

  /** It is in the list under that name, and none before it is; there is none exactly when no attribute has
      the name. */
  lemma {:induction false} FirstOfName(attributes: seq<Accessor>, name: string)
    ensures var x := AttributeNamed(attributes, name);
            if x == null then forall i :: 0 <= i < |attributes| ==> attributes[i].name != name
            else exists i :: 0 <= i < |attributes| && attributes[i] == x && attributes[i].name == name
                   && forall j :: 0 <= j < i ==> attributes[j].name != name
    decreases |attributes|
  {
    if attributes != [] && attributes[0].name != name {
      var rest := attributes[1..];
      FirstOfName(rest, name);
      var x := AttributeNamed(attributes, name);
      if x != null {
        var i :| 0 <= i < |rest| && rest[i] == x && rest[i].name == name
                 && forall j :: 0 <= j < i ==> rest[j].name != name;
        assert attributes[i + 1] == x;
        assert forall j :: 0 < j < i + 1 ==> attributes[j].name == rest[j - 1].name;
      }
    }
  }

  /** get_attribute_index */
  method GetAttribute(b: Accessor, name: string) returns (x: Accessor?)
    ensures x == AttributeNamed(b.attributes, name)
  {
    var i := 0;
    while i < |b.attributes|
      invariant i <= |b.attributes|
      invariant AttributeNamed(b.attributes[i..], name) == AttributeNamed(b.attributes, name)
    {
      if b.attributes[i].name == name { return b.attributes[i]; }
      i := i + 1;
    }
    x := null;
  }

  /** link_same_attributes: an attribute leads to the one of the same name of the accessor before. */
  method LinkSameAttributes(a: Accessor, b: Accessor?)
    requires a !in a.attributes
    modifies (set x | x in a.attributes)`same
    ensures forall i :: 0 <= i < |a.attributes| ==>
              a.attributes[i].same
              == var x := if b == null then null else AttributeNamed(b.attributes, a.attributes[i].name);
                 if x != null then x else old(a.attributes[i].same)
  {
    if b == null { return; }
    if b.attributes == [] { return; }
    ghost var was :=
      seq(|a.attributes|, k requires 0 <= k < |a.attributes| reads a, a.attributes => a.attributes[k].same);
    var i := 0;
    while i < |a.attributes|
      invariant i <= |a.attributes|
      invariant forall k :: 0 <= k < |a.attributes| && a.attributes[k] !in a.attributes[..i] ==>
                  a.attributes[k].same == was[k]
      invariant forall k :: 0 <= k < |a.attributes| && a.attributes[k] in a.attributes[..i] ==>
                  var x := AttributeNamed(b.attributes, a.attributes[k].name);
                  a.attributes[k].same == if x != null then x else was[k]
    {
      var x := GetAttribute(b, a.attributes[i].name);
      if x != null { a.attributes[i].same := x; }
      assert a.attributes[..i + 1] == a.attributes[..i] + [a.attributes[i]];
      i := i + 1;
    }
    assert a.attributes[..i] == a.attributes;
  }

  /** grib_push_accessor */
  method Push(a: Accessor, s: Section, ghost accs: seq<Accessor>)
    requires DoublyLinked(s, accs) && a !in accs && a.next == null && a.previous == null
    requires Indexed(s.h) && a !in s.h.indexed
    requires s.h.useTrie && !Hidden(a.name) ==> s.h.keyId(a.name) < s.h.accessors.Length
    requires a !in a.attributes && forall x :: x in a.attributes ==> x !in s.h.indexed
    modifies s`first, s`last, a`previous, a`same, (if accs == [] then {} else {accs[|accs| - 1]})`next
    modifies s.h`indexed, s.h.accessors, (set x | x in a.attributes)`same
    ensures DoublyLinked(s, accs + [a])
    ensures Indexed(s.h)
    ensures s.h.indexed == old(s.h.indexed) + (if s.h.useTrie && !Hidden(a.name) then [a] else [])
    ensures var h, id := s.h, s.h.keyId(a.name);
            if h.useTrie && (a.name == [] || a.name[0] != '_') then
              && h.accessors[id] == a && a.same == old(h.accessors[id])
              && forall i :: 0 <= i < h.accessors.Length && i != id ==> h.accessors[i] == old(h.accessors[i])
            else
              h.accessors[..] == old(h.accessors[..]) && a.same == old(a.same)
    ensures forall i :: 0 <= i < |a.attributes| ==>
              a.attributes[i].same
              == var b := if s.h.useTrie && !Hidden(a.name) then a.same else null;
                 var x := if b == null then null else AttributeNamed(b.attributes, a.attributes[i].name);
                 if x != null then x else old(a.attributes[i].same)
  {
    hide DoublyLinked, Indexed;
    Link(a, s, accs);
    if s.h.useTrie {
      if !Hidden(a.name) {
        Enter(a, s.h);
      }
    }
  }

  method Link(a: Accessor, s: Section, ghost accs: seq<Accessor>)
    requires DoublyLinked(s, accs) && a !in accs && a.next == null && a.previous == null
    modifies s`first, s`last, a`previous, (if accs == [] then {} else {accs[|accs| - 1]})`next
    ensures DoublyLinked(s, accs + [a])
  {
    if s.first == null {
      assert accs == [];
      s.first, s.last := a, a;
      s.last := a;
    } else {
      LinkLast(a, s, accs);
    }
  }

  method LinkLast(a: Accessor, s: Section, ghost accs: seq<Accessor>)
    requires DoublyLinked(s, accs) && accs != [] && a !in accs && a.next == null
    modifies s`last, a`previous, {accs[|accs| - 1]}`next
    ensures DoublyLinked(s, accs + [a])
  {
    hide At;
    AtAppend(accs, a);
    s.last.next := a;
    a.previous := s.last;
    s.last := a;
    forall i | 0 <= i < |accs + [a]|
      ensures (accs + [a])[i].next == At(accs + [a], i + 1) && (accs + [a])[i].previous == At(accs + [a], i - 1)
    {
      if i < |accs| - 1 { assert accs[i].next == At(accs, i + 1); }
      if i < |accs| { assert accs[i].previous == At(accs, i - 1); }
    }
  }

  lemma AtAppend(accs: seq<Accessor>, a: Accessor)
    ensures forall i :: At(accs + [a], i) == if i == |accs| then a else At(accs, i)
    ensures At(accs, |accs|) == At(accs, |accs| + 1) == null
    ensures accs != [] ==> At(accs, |accs| - 1) == accs[|accs| - 1]
    ensures forall i :: 0 <= i < |accs| ==> At(accs, i) == accs[i]
  {
  }

  method Enter(a: Accessor, h: Handle)
    requires Indexed(h) && a !in h.indexed && h.keyId(a.name) < h.accessors.Length
    requires a !in a.attributes && forall x :: x in a.attributes ==> x !in h.indexed
    modifies a`same, h`indexed, h.accessors, (set x | x in a.attributes)`same
    ensures Indexed(h) && h.indexed == old(h.indexed) + [a]
    ensures var id := h.keyId(a.name);
            && h.accessors[id] == a && a.same == old(h.accessors[id])
            && forall i :: 0 <= i < h.accessors.Length && i != id ==> h.accessors[i] == old(h.accessors[i])
    ensures forall i :: 0 <= i < |a.attributes| ==>
              a.attributes[i].same
              == var x := if a.same == null then null else AttributeNamed(a.same.attributes, a.attributes[i].name);
                 if x != null then x else old(a.attributes[i].same)
  {
    hide Indexed, AttributeNamed;
    var id := h.keyId(a.name);
    a.same := h.accessors[id];
    LinkSameAttributes(a, a.same);
    Register(a, h, id);
  }

  /** The table entry of its name leads to the accessor from now on. */
  method Register(a: Accessor, h: Handle, id: nat)
    requires Indexed(h) && a !in h.indexed && id == h.keyId(a.name) < h.accessors.Length && a.same == h.accessors[id]
    modifies h`indexed, h.accessors
    ensures Indexed(h) && h.indexed == old(h.indexed) + [a] && h.accessors[id] == a
    ensures forall i :: 0 <= i < h.accessors.Length && i != id ==> h.accessors[i] == old(h.accessors[i])
  {
    hide Newest;
    h.accessors[id] := a;
    h.indexed := h.indexed + [a];
    NewestOfMore(old(h.indexed), a, h);
  }

  lemma NewestOfMore(list: seq<Accessor>, a: Accessor, h: Handle)
    ensures (list + [a])[..|list|] == list
    ensures forall k :: 0 <= k <= |list| ==> (list + [a])[..k] == list[..k]
    ensures forall id: nat :: Newest(list + [a], h.keyId, id)
                == if h.keyId(a.name) == id then a else Newest(list, h.keyId, id)
  {
    assert (list + [a])[..|list|] == list;
  }
}
