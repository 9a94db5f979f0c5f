/** Building a message: accessors made and pushed one after the other, sections within sections
    (src/action_class_gen.cc, src/action_class_template.cc, src/grib_handle.cc). */
module Creating {
  import opened Results
  import opened Bits
  import opened Layout
  import opened LengthFields
  import opened Sections
  import opened Paddings
  import opened Replacing
  import opened Blocks
  import opened Counting
  import opened PaddingOrder
  import opened Building

  // ---------------------------------------------------------------- the last accessor of a block

  ghost function LastOfKids(kids: seq<Kid>): Option<Kid> {
    if kids == [] then None else Some(kids[|kids| - 1])
  }

  /** The last accessor counts its bytes right, and all of them. */
  ghost predicate LastCounts(kids: seq<Kid>, h: Handle)
    reads *
  {
    kids != [] ==>
      var k := kids[|kids| - 1];
      && CountsRight(ValueKid(k), k.a.name, h.loader, h.partial)
      && CountedLast(k, h).1 == CountedLast(k, h).0.length
  }

  /** The length fields of the block hold what its sections say. */
  ghost predicate Telling(t: Tree, data: seq<byte>)
    reads PartsOf(t).accs`offset, PartsOf(t).accs`length
    reads PartsOf(t).secs`padding, PartsOf(t).secs`length, PartsOf(t).secs`stored
  {
    Denote(Places(Value(t)), Stores(Value(t)), data)
  }

  /** What the factory asks of the last accessor. */
  lemma LastIsFit(t: Tree, h: Handle)
    requires Block(t, h.partial) && t.s.h == h && h.buffer.Valid() && Telling(t, h.buffer.Message())
    ensures LastKid(t.s, AccsOf(t.kids), LastOfKids(t.kids)) && t.s !in PartsOfAll(t.kids).secs
    ensures Distinct(t) && DistinctAll(t.kids) && Apart(Places(Value(t)))
  {
    hide Linked, Shaped, Widths, OffsetsMatch, Places, Stores, Denote, Apart, BlocksDistinct, LinkedKid,
      DistinctKid, DistinctAll, Value, PartsOf, PartsOfAll, PartsOfKid, LengthLeaves, FieldLeaves, ValueKid,
      FieldKnown, DoublyLinked, Contiguous, ReadableAcc, AccInStep, ValueAll, ReadableAll;
    BlockMakesTree(t, h.partial);
    LeavesOfFields(t);
    FieldsApart(Value(t), FieldLeaves(t), OwnerOffset(t.s), h.partial);
    RootApart(t);
    if t.kids != [] {
      var n := |t.kids| - 1;
      assert Pending(t.kids[n], t.s, h.partial);
      KidApart(t.kids, n);
      ReadableLast(t, h.buffer.Message());
    }
  }

  lemma RootApart(t: Tree)
    requires Distinct(t)
    ensures t.s !in PartsOfAll(t.kids).secs && DistinctAll(t.kids)
  {
  }

  lemma ReadableLast(t: Tree, data: seq<byte>)
    requires t.kids != [] && Telling(t, data) && Apart(Places(Value(t)))
    ensures ReadableAcc(ValueKid(t.kids[|t.kids| - 1]), data)
  {
    hide Denote, Apart, PlacesAll, StoresAll, SameElsewhere, ValueAll, ReadableAcc, ValueKid;
    var n, vals := |t.kids| - 1, ValueAll(t.kids);
    ReadableParts(Value(t), data);
    ValueSplit(t.kids, n);
    SameAtOnce(PlacesAll(vals), data);
    assert t.kids[n + 1..] == [] && vals[n + 1..] == [] && vals[n] == ValueKid(t.kids[n]);
    assert vals[..n] + [vals[n]] + [] == vals;
    ReadableOne(vals[..n], vals[n], [], vals, n, data, data);
  }

  // ---------------------------------------------------------------- length fields while a block grows

  lemma DenoteLonger(places: seq<Place>, stores: seq<nat>, data: seq<byte>, more: seq<byte>)
    requires Denote(places, stores, data) && |data| <= |more| && more[..|data|] == data
    ensures Denote(places, stores, more)
  {
    hide NatOf;
    forall i | 0 <= i < |places|
      ensures Inside(places[i], |more|) && NatOf(more[places[i].at..places[i].at + places[i].n]) == stores[i]
    {
      var p := places[i];
      assert Inside(p, |data|);
      SameSlice(data, more, p.at, p.n);
    }
  }

  lemma SameSlice(data: seq<byte>, more: seq<byte>, at: nat, n: nat)
    requires at + n <= |data| <= |more| && more[..|data|] == data
    ensures more[at..at + n] == data[at..at + n]
  {
    forall k | at <= k < at + n
      ensures more[k] == data[k]
    {
      assert more[..|data|][k] == more[k];
    }
  }

  /** The last accessor of a block has been counted. */
  lemma TellsCounted(v: Sec, after: Acc, was: seq<byte>, now: seq<byte>)
    requires v.accs != [] && Denote(Places(v), Stores(v), was) && Apart(Places(v)) && |was| <= |now|
    requires var last := v.accs[|v.accs| - 1];
             && RewrittenAcc(last, after, was, now[..|was|])
             && PlacesAcc(after) == PlacesAcc(last) && after.offset == last.offset
    ensures var v' := v.(accs := v.accs[..|v.accs| - 1] + [after]);
            Places(v') == Places(v) && Denote(Places(v'), Stores(v'), now)
  {
    hide Denote, Apart, SameElsewhere, PlacesAll, StoresAll, PlacesAcc, StoresAcc;
    var n := |v.accs| - 1;
    var done, last := v.accs[..n], v.accs[n];
    var v' := v.(accs := done + [after]);
    assert v.accs == done + [last];
    PlacesOfThree(done, last, []);
    PlacesOfThree(done, after, []);
    AsManyPlacesAll(done);
    AsManyPlacesAcc(last);
    AsManyPlacesAcc(after);
    SameAtOnce(Places(v), was);
    MiddleRewritten(PlacesAll(done), StoresAll(done), PlacesAcc(last), StoresAcc(last), StoresAcc(after), OwnPlace(v),
      OwnStore(v.field), was, was, now[..|was|]);
    DenoteLonger(Places(v), Stores(v'), now[..|was|], now);
  }

  /** Adjusting on the way moves no length field when counting comes out right. */
  lemma CountedPlaces(v: Acc, name: string, loader: bool, partial: bool)
    requires v.sub.Some? ==> OffsetsMatch(v.sub.value, v.offset, 1, partial)
    requires CountsRight(v, name, loader, partial)
    ensures var v' := Counted(v, name, loader, partial).0;
            && PlacesAcc(v') == PlacesAcc(v) && v'.offset == v.offset
            && LeafLengthsAcc(v') == LeafLengthsAcc(v) && (v'.sub.Some? <==> v.sub.Some?)
            && (v'.sub.Some? ==> OffsetsMatch(v'.sub.value, v'.offset, 1, partial))
            && AccInStep(v', partial)
  {
    hide Adjust, OffsetsMatch, NewLength, FieldsFit, Places, LeafLengths;
    CountedInStepIff(v, name, loader, partial);
    CountedAll(v, name, loader, partial);
    if v.sub.Some? && !(v.length > 0 && !loader) && !Underscored(name) {
      var update := if loader then 1 else 0;
      AdjustKeepsPlaces(v.sub.value, v.offset, update, partial);
      AdjustKeepsLeaves(v.sub.value, v.offset, update, partial);
    }
  }

  /** A new accessor comes behind; the section may have a new length field. */
  lemma TellsAppended(v: Sec, made: Acc, field: Option<LengthField>, data: seq<byte>)
    requires Denote(Places(v), Stores(v), data)
    requires made.sub.None? || made.sub.value == Sec([], None, 0, 0)
    requires v.field.Some? ==> v.field.value.which < |v.accs|
    requires field == v.field || (field.Some? && field.value.which == |v.accs|
                                  && Denote([Place(made.offset, field.value.octets)], [field.value.stored], data))
    ensures var v' := v.(accs := v.accs + [made], field := field); Denote(Places(v'), Stores(v'), data)
  {
    hide Denote, PlacesAll, StoresAll;
    var v' := v.(accs := v.accs + [made], field := field);
    PlacesJoin(v.accs, [made]);
    PlacesOfOne(made);
    NoFieldIn(made);
    AsManyPlacesAll(v.accs);
    assert PlacesAll(v'.accs) == PlacesAll(v.accs) && StoresAll(v'.accs) == StoresAll(v.accs);
    if field != v.field {
      assert OwnPlace(v') == [Place(made.offset, field.value.octets)] && OwnStore(field) == [field.value.stored];
    } else {
      assert OwnPlace(v') == OwnPlace(v);
    }
    DenoteJoin(PlacesAll(v.accs), StoresAll(v.accs), OwnPlace(v), OwnStore(v.field), data);
    DenoteJoin(PlacesAll(v.accs), StoresAll(v.accs), OwnPlace(v'), OwnStore(v'.field), data);
  }

  lemma NoFieldIn(made: Acc)
    requires made.sub.None? || made.sub.value == Sec([], None, 0, 0)
    ensures PlacesAcc(made) == [] && StoresAcc(made) == []
  {
  }

  /** All length fields lie between the start of the block and its end. */
  lemma PlacesInside(v: Sec, fl: seq<nat>, o: int, partial: bool)
    requires OffsetsMatch(v, o, 1, partial) && LengthLeaves(v, fl)
    ensures forall p :: p in Places(v) ==> o <= p.at && p.at + p.n <= o + NewLength(v, 1, partial)
  {
    hide OffsetsMatch, Places, LeafLengths, LeafOffsets, Total, NewLength;
    UpdateIgnoresPartial(v, 1, partial);
    NewLengthTotal(v);
    forall p | p in Places(v)
      ensures o <= p.at && p.at + p.n <= o + NewLength(v, 1, partial)
    {
      var i :| 0 <= i < |Places(v)| && Places(v)[i] == p;
      MatchedOffsets(v, o, partial, fl[i]);
      TotalParts(LeafLengths(v), fl[i]);
    }
  }

  /** So the octets outside are left alone. */
  lemma OutsideKept(places: seq<Place>, o: int, end: int, was: seq<byte>, now: seq<byte>)
    requires SameElsewhere(places, was, now) && forall p :: p in places ==> o <= p.at && p.at + p.n <= end
    ensures forall i :: 0 <= i < |was| && (i < o || end <= i) ==> now[i] == was[i]
  {
    forall i | 0 <= i < |was| && (i < o || end <= i)
      ensures now[i] == was[i]
    {
      forall k | 0 <= k < |places|
        ensures !(places[k].at <= i < places[k].at + places[k].n)
      {
        assert places[k] in places;
      }
    }
  }

  // ---------------------------------------------------------------- one accessor

  /** Values of the block once its last accessor has been counted. */
  ghost function CountedKids(kids: seq<Kid>, h: Handle): seq<Acc>
    reads *
  {
    if kids == [] then []
    else ValueAll(kids[..|kids| - 1]) + [CountedLast(kids[|kids| - 1], h).0]
  }

  /** The widths of the length fields below an accessor, said of the lengths of its leaves. */
  ghost predicate WideBelow(k: Kid, lengths: seq<nat>) {
    k.sub.Some? ==>
      var t := k.sub.value;
      forall i :: 0 <= i < |FieldLeaves(t)| ==>
        FieldLeaves(t)[i] < |lengths| && FieldAccs(t)[i].nbytes == lengths[FieldLeaves(t)[i]]
  }

  lemma WidthsAreLengths(k: Kid)
    requires DistinctKid(k) && ShapedKid(k)
    ensures WidthsKid(k) <==> WideBelow(k, LeafLengthsAcc(ValueKid(k)))
  {
    hide Distinct, Shaped, LeafAccs, FieldAccs, Value, PartsOf, LeafLengths;
    if k.sub.Some? {
      var t := k.sub.value;
      LeavesOfValue(t);
      FieldAccsAreLeaves(t);
      FieldsInsideTree(t);
      forall i | 0 <= i < |FieldAccs(t)|
        ensures LeafAccs(t)[FieldLeaves(t)[i]] == FieldAccs(t)[i]
      {
        assert FieldAccs(t)[i] in FieldAccs(t);
      }
      forall a | a in FieldAccs(t)
        ensures exists i :: 0 <= i < |FieldLeaves(t)| && FieldAccs(t)[i] == a
      {
      }
    }
  }

  /** The last accessor, once it has been counted. */
  lemma CountedOnce(k: Kid, s: Section, v: Acc, loader: bool, partial: bool)
    requires k.a.parent == s && LinkedKid(k, s.h) && ShapedKid(k) && BlocksDistinctKid(k) && DistinctKid(k)
    requires s.owner != null ==> s !in PartsOfKid(k).secs
    requires WideBelow(k, LeafLengthsAcc(v)) && (v.sub.Some? ==> OffsetsMatch(v.sub.value, v.offset, 1, partial))
    requires ValueKid(k) == Counted(v, k.a.name, loader, partial).0
    ensures k.a.offset == v.offset && k.a.length == Counted(v, k.a.name, loader, partial).0.length
    ensures AccInStep(ValueKid(k), partial) <==> CountsRight(v, k.a.name, loader, partial)
    ensures AccInStep(ValueKid(k), partial) ==> Pending(k, s, partial)
  {
    hide LinkedKid, ShapedKid, BlocksDistinctKid, DistinctKid, PartsOfKid, WideBelow, LeafLengthsAcc, OffsetsMatch,
      Value, Counted, NewLength, CountsRight, WidthsKid;
    CountedInStepIff(v, k.a.name, loader, partial);
    CountedAll(v, k.a.name, loader, partial);
    if CountsRight(v, k.a.name, loader, partial) {
      CountedPlaces(v, k.a.name, loader, partial);
      WidthsAreLengths(k);
    }
  }

  /** Making an accessor in section s, before it is pushed. */
  method MakeOne(s: Section, name: string, cls: Class, len: nat, h: Handle, ghost t: Tree) returns (a: Accessor?)
    requires Block(t, h.partial) && t.s == s && s.h == h && h.buffer.Valid() && Telling(t, h.buffer.Message())
    requires OwnerOf(s) !! PartsOf(t).accs
    modifies PartsOf(t).accs`offset, PartsOf(t).accs`length
    modifies PartsOf(t).secs`padding, PartsOf(t).secs`length, PartsOf(t).secs`stored
    modifies s`aclength, h.buffer`data, h.buffer`ulength, h.buffer.data
    ensures h.buffer.Valid() && (h.buffer.data == old(h.buffer.data) || fresh(h.buffer.data))
    ensures var end := old(NextOffset(s, LastOfKids(t.kids))) + Extent(cls, len);
            && (a == null <==> end > old(h.buffer.ulength) && !h.buffer.growable)
            && h.buffer.ulength == (if a != null && end > old(h.buffer.ulength) then end else old(h.buffer.ulength))
    ensures a != null ==>
              && fresh(a) && Made(a, s, name, cls, len, old(NextOffset(s, LastOfKids(t.kids))))
              && a.next == null && a.previous == null && a.same == null && a.attributes == []
              && (cls.SectionOwner? ==> fresh(a.subSection))
    ensures !cls.SectionLength? ==> s.aclength == old(s.aclength) && s.stored == old(s.stored)
    ensures s.padding == old(s.padding) && s.length == old(s.length)
    ensures ValueAll(t.kids) == old(CountedKids(t.kids, h)) && DoublyLinked(s, AccsOf(t.kids))
    ensures LastCounted(h, LastOfKids(t.kids), old(LastBefore(LastOfKids(t.kids))),
                        old(LastAfter(LastOfKids(t.kids), h)), old(h.buffer.Message()))
    ensures old(LastCounts(t.kids, h)) <==>
              && LastInStep(t.kids, h.partial)
              && old(NextOffset(s, LastOfKids(t.kids))) == End(AccsOf(t.kids), OwnerOffset(s))
    ensures LastInStep(t.kids, h.partial) ==> Row(s, t.kids, h.partial)
  {
    hide *;
    ghost var kids, last, n := t.kids, LastOfKids(t.kids), |t.kids| - 1;
    OwnerApart(s, PartsOf(t).accs);
    FrontAndLast(kids);
    LastIsFit(t, h);
    LastWithin(t);
    FrontExists(kids);
    OpenRow(t, h.partial);
    ToBeCounted(s, kids, h);
    ghost var before, after, was, loader := LastBefore(last), LastAfter(last, h), h.buffer.Message(), h.loader;
    ghost var front := ValueAll(Front(kids));
    KidsExist(Front(kids));
    if kids != [] { OpenLast(s, kids, h.partial); }
    a := Factory(s, name, cls, len, AccsOf(kids), last);
    LastIs(h, last, before, after, was);
    forall i | 0 <= i < n
      ensures Pending(kids[i], s, h.partial) && AccInStep(ValueKid(kids[i]), h.partial)
    {
    }
    assert ValueAll(Front(kids)) == front;
    if kids != [] {
      CountedOnce(kids[n], s, before, loader, h.partial);
      ValueAppend(kids, n);
    }
    RowAgain(s, kids, before, loader, h.partial);
  }

  /** All of the block before its last accessor. */
  ghost function Front(kids: seq<Kid>): seq<Kid> {
    if kids == [] then [] else kids[..|kids| - 1]
  }

  lemma FrontAndLast(kids: seq<Kid>)
    ensures kids != [] ==>
              var n := |kids| - 1;
              Front(kids) == kids[..n] && kids[..n + 1] == kids && PartsOfLast(LastOfKids(kids)) == PartsOfKid(kids[n])
  {
  }

  lemma OwnerApart(s: Section, accs: set<Accessor>)
    requires OwnerOf(s) !! accs
    ensures s.owner !in accs
  {
  }

  lemma ToBeCounted(s: Section, kids: seq<Kid>, h: Handle)
    requires s.h == h
    ensures var last, n := LastOfKids(kids), |kids| - 1;
            if kids == [] then
              CountedKids(kids, h) == ValueAll(kids) && LastCounts(kids, h) && NextOffset(s, last) == OwnerOffset(s)
            else
              var k := kids[n];
              var v, (v', bytes) := ValueKid(k), Counted(ValueKid(k), k.a.name, h.loader, h.partial);
              && last == Some(k) && LastBefore(last) == v && LastAfter(last, h) == v'
              && CountedKids(kids, h) == ValueAll(Front(kids)) + [v'] && NextOffset(s, last) == k.a.offset + bytes
              && (LastCounts(kids, h) <==> CountsRight(v, k.a.name, h.loader, h.partial) && bytes == v'.length)
  {
    hide ValueKid, ValueAll, Counted, CountsRight;
  }

  lemma LastIs(h: Handle, last: Option<Kid>, before: Acc, after: Acc, was: seq<byte>)
    requires LastCounted(h, last, before, after, was)
    ensures last.Some? ==> ValueKid(last.value) == after
  {
  }

  lemma OpenRow(t: Tree, partial: bool)
    requires Block(t, partial)
    ensures var s, kids := t.s, t.kids;
            && Row(s, kids, partial) && DoublyLinked(s, AccsOf(kids))
            && (kids != [] ==> kids[0].a.offset == OwnerOffset(s))
            && (forall i :: 0 <= i < |kids| - 1 ==>
                  && kids[i].a.offset + kids[i].a.length == kids[i + 1].a.offset
                  && Pending(kids[i], s, partial) && AccInStep(ValueKid(kids[i]), partial))
  {
    hide Pending, AccInStep, DoublyLinked, Contiguous, End, ValueKid;
    ContiguousSteps(t.kids, OwnerOffset(t.s));
  }

  lemma RowAgain(s: Section, kids: seq<Kid>, v: Acc, loader: bool, partial: bool)
    requires DoublyLinked(s, AccsOf(kids)) && (kids != [] ==> kids[0].a.offset == OwnerOffset(s))
    requires forall i :: 0 <= i < |kids| - 1 ==>
               && kids[i].a.offset + kids[i].a.length == kids[i + 1].a.offset
               && Pending(kids[i], s, partial) && AccInStep(ValueKid(kids[i]), partial)
    requires kids != [] ==>
               var k := kids[|kids| - 1];
               && k.a.offset == v.offset && k.a.length == Counted(v, k.a.name, loader, partial).0.length
               && (AccInStep(ValueKid(k), partial) <==> CountsRight(v, k.a.name, loader, partial))
               && (AccInStep(ValueKid(k), partial) ==> Pending(k, s, partial))
    ensures kids != [] ==>
              var k := kids[|kids| - 1]; var (v', next) := Counted(v, k.a.name, loader, partial);
              (CountsRight(v, k.a.name, loader, partial) && next == v'.length <==>
                LastInStep(kids, partial) && v.offset + next == End(AccsOf(kids), OwnerOffset(s)))
    ensures kids == [] ==> LastInStep(kids, partial) && End(AccsOf(kids), OwnerOffset(s)) == OwnerOffset(s)
    ensures LastInStep(kids, partial) ==> Row(s, kids, partial)
  {
    hide Pending, AccInStep, DoublyLinked, Contiguous, ValueKid, Counted, CountsRight;
    ContiguousSteps(kids, OwnerOffset(s));
  }

  lemma OpenLast(s: Section, kids: seq<Kid>, partial: bool)
    requires Row(s, kids, partial) && kids != [] && DistinctAll(kids)
    ensures var k := kids[|kids| - 1];
            && k.a.parent == s && LinkedKid(k, s.h) && ShapedKid(k) && BlocksDistinctKid(k) && DistinctKid(k)
            && (s.owner != null ==> s !in PartsOfKid(k).secs)
            && (k.sub.Some? ==> OffsetsMatch(ValueKid(k).sub.value, k.a.offset, 1, partial))
            && ValueKid(k).offset == k.a.offset && (ValueKid(k).sub.Some? <==> k.sub.Some?)
            && WideBelow(k, LeafLengthsAcc(ValueKid(k)))
  {
    hide WideBelow, LinkedKid, ShapedKid, BlocksDistinctKid, DistinctKid, WidthsKid, OffsetsMatch, Value,
      LeafLengthsAcc, AccInStep, PartsOfKid, DistinctAll;
    var n := |kids| - 1;
    assert Pending(kids[n], s, partial);
    KidApart(kids, n);
    WidthsAreLengths(kids[n]);
  }

  /** Contiguity, step by step. */
  lemma ContiguousSteps(kids: seq<Kid>, offset: int)
    ensures Contiguous(AccsOf(kids), offset) <==>
              && (kids != [] ==> kids[0].a.offset == offset)
              && forall i :: 0 <= i < |kids| - 1 ==> kids[i].a.offset + kids[i].a.length == kids[i + 1].a.offset
  {
    var accs := AccsOf(kids);
    forall i | 0 <= i < |accs|
      ensures End(accs[..i], offset) == if i == 0 then offset else kids[i - 1].a.offset + kids[i - 1].a.length
    {
    }
    if Contiguous(accs, offset) {
      forall i | 0 <= i < |kids| - 1
        ensures kids[i].a.offset + kids[i].a.length == kids[i + 1].a.offset
      {
        assert accs[i + 1].offset == End(accs[..i + 1], offset);
      }
    } else {
      var i :| 0 <= i < |accs| && accs[i].offset != End(accs[..i], offset);
      if i > 0 { assert kids[i - 1].a.offset + kids[i - 1].a.length != kids[i - 1 + 1].a.offset; }
    }
  }

  lemma FrontExists(kids: seq<Kid>)
    ensures forall i, x :: 0 <= i < |kids| && x in PartsOfKid(kids[i]).accs ==> allocated(x)
    ensures forall i, x :: 0 <= i < |kids| && x in PartsOfKid(kids[i]).secs ==> allocated(x)
  {
    forall i | 0 <= i < |kids|
      ensures forall x :: x in PartsOfKid(kids[i]).accs ==> allocated(x)
      ensures forall x :: x in PartsOfKid(kids[i]).secs ==> allocated(x)
    {
      KidExists(kids[i]);
    }
  }

  /** The last accessor and what lies below it are apart from the rest of the block. */
  lemma LastWithin(t: Tree)
    requires Distinct(t)
    ensures var last, front := PartsOfLast(LastOfKids(t.kids)), PartsOfAll(Front(t.kids));
            && last.accs <= PartsOf(t).accs && last.secs <= PartsOf(t).secs && t.s in PartsOf(t).secs
            && last.accs !! front.accs && last.secs !! front.secs && t.s !in last.secs && t.s !in front.secs
            && forall i :: 0 <= i < |t.kids| - 1 ==>
                 var p := PartsOfKid(t.kids[i]);
                 && p.accs !! last.accs && p.secs !! last.secs && t.s !in p.secs && t.kids[i].a !in last.accs
                 && p.accs <= PartsOf(t).accs && p.secs <= PartsOf(t).secs
    ensures t.kids != [] ==> DistinctKid(t.kids[|t.kids| - 1])
  {
    hide PartsOfKid, DistinctKid;
    RootApart(t);
    if t.kids != [] {
      var n := |t.kids| - 1;
      KidApart(t.kids, n);
      forall i | 0 <= i < n
        ensures PartsOfKid(t.kids[i]).Apart(PartsOfKid(t.kids[n])) && t.s !in PartsOfKid(t.kids[i]).secs
        ensures t.kids[i].a in PartsOfKid(t.kids[i]).accs && Within(PartsOfKid(t.kids[i]), PartsOf(t))
      {
        AccInKid(t.kids[i]);
        KidApart(t.kids, i);
        LaterKid(t.kids, i, n);
      }
    }
  }

  lemma AccInKid(k: Kid)
    ensures k.a in PartsOfKid(k).accs
  {
  }

  lemma LaterKid(kids: seq<Kid>, i: nat, j: nat)
    requires i < j < |kids|
    ensures Within(PartsOfKid(kids[j]), PartsOfAll(kids[i + 1..]))
  {
    hide PartsOfKid;
    assert kids[i + 1..][j - i - 1] == kids[j];
    PartOfAll(kids[i + 1..], j - i - 1);
  }

  lemma {:induction false} PartOfAll(kids: seq<Kid>, i: nat)
    requires i < |kids|
    ensures Within(PartsOfKid(kids[i]), PartsOfAll(kids))
    decreases i
  {
    hide PartsOfKid;
    if i > 0 { PartOfAll(kids[1..], i - 1); }
  }

  /** The section with the new accessor behind its block. */
  ghost function Extended(t: Tree, a: Accessor, cls: Class): Tree
    reads a`subSection
  {
    Tree(t.s, t.kids + [NewKid(a)], if cls.SectionLength? then Some(|t.kids|) else t.which)
  }

  function MadeAcc(cls: Class, len: nat, offset: int): Acc {
    Acc(offset, Extent(cls, len), if cls.SectionOwner? then Some(Sec([], None, 0, 0)) else None)
  }

  predicate Storable(cls: Class, len: nat) {
    cls.SectionLength? ==> 1 <= len <= 8
  }

  /** Its length fields hold what they should, and octets outside the block are left alone. */
  method MakeTold(s: Section, name: string, cls: Class, len: nat, h: Handle, ghost t: Tree) returns (a: Accessor?)
    requires Block(t, h.partial) && t.s == s && s.h == h && h.buffer.Valid() && Telling(t, h.buffer.Message())
    requires OwnerOf(s) !! PartsOf(t).accs && 0 <= OwnerOffset(s)
    modifies PartsOf(t).accs`offset, PartsOf(t).accs`length
    modifies PartsOf(t).secs`padding, PartsOf(t).secs`length, PartsOf(t).secs`stored
    modifies s`aclength, h.buffer`data, h.buffer`ulength, h.buffer.data
    ensures h.buffer.Valid() && (h.buffer.data == old(h.buffer.data) || fresh(h.buffer.data))
    ensures var end := old(NextOffset(s, LastOfKids(t.kids))) + Extent(cls, len);
            && (a == null <==> end > old(h.buffer.ulength) && !h.buffer.growable)
            && h.buffer.ulength == (if a != null && end > old(h.buffer.ulength) then end else old(h.buffer.ulength))
    ensures a != null ==>
              && fresh(a) && Made(a, s, name, cls, len, old(NextOffset(s, LastOfKids(t.kids))))
              && a.next == null && a.previous == null && a.same == null && a.attributes == []
              && (cls.SectionOwner? ==> fresh(a.subSection))
    ensures !cls.SectionLength? ==> s.aclength == old(s.aclength) && s.stored == old(s.stored)
    ensures s.padding == old(s.padding) && s.length == old(s.length)
    ensures ValueAll(t.kids) == old(CountedKids(t.kids, h)) && DoublyLinked(s, AccsOf(t.kids))
    ensures old(LastCounts(t.kids, h)) <==>
              && LastInStep(t.kids, h.partial)
              && old(NextOffset(s, LastOfKids(t.kids))) == End(AccsOf(t.kids), OwnerOffset(s))
    ensures LastInStep(t.kids, h.partial) ==> Row(s, t.kids, h.partial)
    ensures var o, was := old(OwnerOffset(s)), old(h.buffer.Message());
            && |was| <= h.buffer.ulength
            && RewrittenAcc(old(LastBefore(LastOfKids(t.kids))), old(LastAfter(LastOfKids(t.kids), h)), was,
                            h.buffer.Message()[..|was|])
            && forall i :: 0 <= i < |was| && (i < o || o + old(NewLength(Value(t), 1, h.partial)) <= i) ==>
                 h.buffer.Message()[i] == was[i]
    ensures a != null ==>
              && Pending(NewKid(a), s, h.partial) && FieldKnown(Extended(t, a, cls))
              && Value(Extended(t, a, cls)).accs
                 == old(CountedKids(t.kids, h) + [MadeAcc(cls, len, NextOffset(s, LastOfKids(t.kids)))])
    ensures a != null && old(LastCounts(t.kids, h)) && Storable(cls, len) ==>
              Telling(Extended(t, a, cls), h.buffer.Message())
  {
    hide Pending, Block, Telling, Row, Known, Made, LastCounts, LastInStep, LastCounted, LastBefore, LastAfter,
      CountedKids, NextOffset, End, AccsOf, Value, ValueAll, PartsOf, NewLength, LastOfKids, PlacesAcc, Places,
      Stores, Denote, FieldKnown, RewrittenAcc;
    ghost var last, v, was := LastOfKids(t.kids), Value(t), h.buffer.Message();
    ghost var before, after, offset := LastBefore(last), LastAfter(last, h), NextOffset(s, last);
    ghost var accs, right := CountedKids(t.kids, h), LastCounts(t.kids, h);
    LastInValue(t, h);
    FieldCounted(t, h);
    a := MakeOne(s, name, cls, len, h, t);
    LastTells(h, last, v, before, after, OwnerOffset(s), was, h.partial);
    assert right ==> LastInStep(t.kids, h.partial);
    if right { RowEnd(s, t.kids, h.partial); }
    if a != null && right && Storable(cls, len) { ExtendedTells(t, a, cls, name, len, offset, WithLast(v, after), h); }
    if a != null {
      MadeSub(a, s, name, cls, len, offset);
      NewPending(a, s, name, cls, len, offset, h.partial);
      FieldStays(t, a, name, cls, len, offset, accs);
      ExtendedAccs(t, a, cls, name, len, offset);
    }
  }

  /** What is known of the value of a block and of its last accessor before this is counted. */
  ghost predicate Known(v: Sec, before: Acc, o: int, was: seq<byte>, partial: bool) {
    && Denote(Places(v), Stores(v), was) && Apart(Places(v))
    && (forall p :: p in Places(v) ==> o <= p.at && p.at + p.n <= o + NewLength(v, 1, partial))
    && (v.accs != [] ==> before == v.accs[|v.accs| - 1])
    && (v.accs == [] ==> before == Acc(0, 0, None))
  }

  function WithLast(v: Sec, after: Acc): Sec {
    if v.accs == [] then v else v.(accs := v.accs[..|v.accs| - 1] + [after])
  }

  lemma LastInValue(t: Tree, h: Handle)
    requires Block(t, h.partial) && t.s.h == h && h.buffer.Valid() && Telling(t, h.buffer.Message())
    ensures var last := LastOfKids(t.kids);
            var before, after := LastBefore(last), LastAfter(last, h);
            && Known(Value(t), before, OwnerOffset(t.s), h.buffer.Message(), h.partial)
            && Value(t) == Sec(ValueAll(t.kids), FieldOf(t), t.s.padding, t.s.length)
            && CountedKids(t.kids, h) == WithLast(Value(t), after).accs && (t.kids == [] ==> after == before)
            && (t.which.Some? ==> t.which.value < |t.kids|)
            && (LastCounts(t.kids, h) ==> PlacesAcc(after) == PlacesAcc(before) && after.offset == before.offset)
  {
    hide Block, Denote, Apart, Stores, Places, PlacesAcc, OffsetsMatch, NewLength, ValueAll, ValueKid, Counted,
      CountsRight, FieldKnown, Linked, Shaped, Widths, Distinct, BlocksDistinct, DistinctAll, LengthLeaves,
      FieldLeaves, LastKid, End;
    var n, v := |t.kids| - 1, Value(t);
    LastIsFit(t, h);
    BlockMakesTree(t, h.partial);
    FieldInBlock(t, h.partial);
    LeavesOfFields(t);
    PlacesInside(v, FieldLeaves(t), OwnerOffset(t.s), h.partial);
    if t.kids != [] {
      var k := t.kids[n];
      BlockLast(t, h.partial);
      ValueAppend(t.kids, n);
      assert t.kids[..n + 1] == t.kids && v.accs[..n] == ValueAll(t.kids[..n]);
      if LastCounts(t.kids, h) { CountedPlaces(ValueKid(k), k.a.name, h.loader, h.partial); }
    }
  }

  lemma FieldInBlock(t: Tree, partial: bool)
    requires Block(t, partial)
    ensures FieldKnown(t) && (t.which.Some? ==> t.which.value < |t.kids|)
  {
    hide Row;
  }

  lemma BlockLast(t: Tree, partial: bool)
    requires Block(t, partial) && t.kids != []
    ensures var v := ValueKid(t.kids[|t.kids| - 1]); v.sub.Some? ==> OffsetsMatch(v.sub.value, v.offset, 1, partial)
  {
    hide LinkedKid, ShapedKid, BlocksDistinctKid, WidthsKid, OffsetsMatch, DoublyLinked, Contiguous, FieldKnown,
      Value, AccInStep, PartsOfKid;
    assert Pending(t.kids[|t.kids| - 1], t.s, partial);
  }

  lemma LastTells(h: Handle, last: Option<Kid>, v: Sec, before: Acc, after: Acc, o: int, was: seq<byte>, partial: bool)
    requires Known(v, before, o, was, partial) && LastCounted(h, last, before, after, was)
    requires v.accs == [] ==> after == before
    ensures |was| <= h.buffer.ulength && RewrittenAcc(before, after, was, h.buffer.Message()[..|was|])
    ensures forall i :: 0 <= i < |was| && (i < o || o + NewLength(v, 1, partial) <= i) ==>
              h.buffer.Message()[i] == was[i]
    ensures PlacesAcc(after) == PlacesAcc(before) && after.offset == before.offset ==>
              Denote(Places(WithLast(v, after)), Stores(WithLast(v, after)), h.buffer.Message())
  {
    hide Denote, Apart, PlacesAcc, StoresAcc, PlacesAll, StoresAll, NewLength;
    var now := h.buffer.Message();
    if v.accs == [] {
      Unchanged(was);
      NothingElse(before, after, was, now[..|was|]);
      DenoteLonger(Places(v), Stores(v), was, now);
    } else {
      var n := |v.accs| - 1;
      PlacesInParts(v.accs, n);
      OutsideKept(PlacesAcc(before), o, o + NewLength(v, 1, partial), was, now[..|was|]);
      if PlacesAcc(after) == PlacesAcc(before) && after.offset == before.offset { TellsCounted(v, after, was, now); }
    }
  }

  lemma ExtendedAccs(t: Tree, a: Accessor, cls: Class, name: string, len: nat, offset: int)
    requires t.s.h.buffer.Valid() && Made(a, t.s, name, cls, len, offset)
    ensures Value(Extended(t, a, cls)).accs == ValueAll(t.kids) + [MadeAcc(cls, len, offset)]
  {
    hide ValueAll, NatOf, DoublyLinked;
    var t', n := Extended(t, a, cls), |t.kids|;
    if a.subSection != null { assert ValueAll([]) == []; }
    NewKidValue(a);
    ValueAppend(t'.kids, n);
    assert t'.kids[..n + 1] == t'.kids && t'.kids[..n] == t.kids;
  }

  lemma ExtendedTells(t: Tree, a: Accessor, cls: Class, name: string, len: nat, offset: int, v: Sec, h: Handle)
    requires t.s.h == h && h.buffer.Valid() && Made(a, t.s, name, cls, len, offset) && Storable(cls, len)
    requires 0 <= offset && offset + Extent(cls, len) <= h.buffer.ulength
    requires v.accs == ValueAll(t.kids) && v.padding == t.s.padding && v.length == t.s.length
    requires v.field.Some? ==> v.field.value.which < |t.kids|
    requires !cls.SectionLength? ==> v.field == FieldOf(Extended(t, a, cls))
    requires Denote(Places(v), Stores(v), h.buffer.Message())
    ensures Telling(Extended(t, a, cls), h.buffer.Message())
  {
    hide Denote, Places, Stores, ValueAll, NatOf, FieldKnown, DoublyLinked;
    var t', n, data := Extended(t, a, cls), |t.kids|, h.buffer.Message();
    NewKidValue(a);
    ValueAppend(t'.kids, n);
    assert t'.kids[..n + 1] == t'.kids && t'.kids[..n] == t.kids;
    if cls.SectionLength? { OneDenotes(Place(offset, len), t.s.stored, data); }
    TellsAppended(v, ValueKid(NewKid(a)), FieldOf(t'), data);
  }

  lemma RowEnd(s: Section, kids: seq<Kid>, partial: bool)
    requires Row(s, kids, partial)
    ensures OwnerOffset(s) <= End(AccsOf(kids), OwnerOffset(s))
  {
    hide DoublyLinked, Pending, AccInStep, End;
    ContiguousEnd(AccsOf(kids), OwnerOffset(s));
  }

  lemma OneDenotes(p: Place, stored: nat, data: seq<byte>)
    requires Inside(p, |data|) && NatOf(data[p.at..p.at + p.n]) == stored
    ensures Denote([p], [stored], data)
  {
  }

  // ---------------------------------------------------------------- the push

  /** Only what lies below the accessor. */
  lemma LinkedBelow(k: Kid, s: Section, partial: bool)
    requires DistinctKid(k)
    ensures Pending(k, s, partial) <==> PendingBelow(k, s, partial)
  {
  }

  /** The same with fewer objects looked at. */
  ghost predicate PendingBelow(k: Kid, s: Section, partial: bool)
    reads k.a`subSection, k.a`offset, PartsOfKid(k).accs`length, if k.sub.None? then {} else PartsOf(k.sub.value).accs
    reads if k.sub.None? then {} else PartsOf(k.sub.value).secs
  {
    && k.a.parent == s && ShapedKid(k) && BlocksDistinctKid(k) && WidthsKid(k)
    && (s.owner != null ==> s !in PartsOfKid(k).secs)
    && match k.sub
       case None => k.a.subSection == null
       case Some(sub) =>
         && k.a.subSection == sub.s && sub.s.owner == k.a && Linked(sub, s.h)
         && OffsetsMatch(Value(sub), k.a.offset, 1, partial)
  }

  /** What has been built below the accessors stays. */
  method PushKept(a: Accessor, s: Section, h: Handle, ghost t: Tree)
    requires t.s == s && s.h == h && Distinct(t) && DoublyLinked(s, AccsOf(t.kids)) && Indexed(h)
    requires a !in PartsOf(t).accs && a !in AccsOf(t.kids) && a !in h.indexed
    requires a.next == null && a.previous == null && a.attributes == []
    requires h.useTrie && !Hidden(a.name) ==> h.keyId(a.name) < h.accessors.Length
    requires a.subSection != s && Pending(NewKid(a), s, h.partial)
    modifies PartsOf(t).accs`next, s`first, s`last, a`previous, a`same, h`indexed, h.accessors
    ensures DoublyLinked(s, AccsOf(t.kids) + [a]) && Indexed(h)
    ensures h.indexed == old(h.indexed) + (if h.useTrie && !Hidden(a.name) then [a] else [])
    ensures forall k :: k in t.kids && old(Pending(k, s, h.partial)) ==> Pending(k, s, h.partial)
    ensures Pending(NewKid(a), s, h.partial)
  {
    hide Pending, PendingBelow, DoublyLinked, Indexed, PartsOf, PartsOfKid, Distinct, DistinctKid;
    LastWithin(t);
    TreeExists(t);
    FrontExists(t.kids);
    ghost var kids, n := t.kids, |t.kids| - 1;
    if kids != [] {
      AccInKid(kids[n]);
      LinkedBelow(kids[n], s, h.partial);
      BelowApart(kids[n], s);
    }
    NewParts(a);
    LinkedBelow(NewKid(a), s, h.partial);
    Push(a, s, AccsOf(kids));
    LinkedBelow(NewKid(a), s, h.partial);
    if kids != [] {
      LinkedBelow(kids[n], s, h.partial);
      assert old(PendingBelow(kids[n], s, h.partial)) ==> PendingBelow(kids[n], s, h.partial);
      forall i | 0 <= i < n && old(Pending(kids[i], s, h.partial))
        ensures Pending(kids[i], s, h.partial)
      {
      }
    }
  }

  lemma NewParts(a: Accessor)
    ensures DistinctKid(NewKid(a)) && PartsOfKid(NewKid(a)).accs == {a}
    ensures a.subSection != null ==> PartsOf(Tree(a.subSection, [], None)) == Parts({}, {a.subSection})
  {
    if a.subSection != null { assert PartsOf(Tree(a.subSection, [], None)) == Parts({}, {a.subSection}); }
  }

  lemma BelowApart(k: Kid, s: Section)
    requires DistinctKid(k) && s !in PartsOfKid(k).secs
    ensures k.sub.Some? ==>
              var p := PartsOf(k.sub.value); k.a !in p.accs && s !in p.secs && Within(p, PartsOfKid(k))
  {
  }

  /** Offsets and lengths stay. */
  method PushSame(a: Accessor, s: Section, cls: Class, h: Handle, ghost t: Tree)
    requires t.s == s && s.h == h && Distinct(t) && DoublyLinked(s, AccsOf(t.kids)) && Indexed(h)
    requires a !in PartsOf(t).accs && a !in AccsOf(t.kids) && a !in h.indexed
    requires a.next == null && a.previous == null && a.attributes == []
    requires h.useTrie && !Hidden(a.name) ==> h.keyId(a.name) < h.accessors.Length
    requires a.subSection != s && Pending(NewKid(a), s, h.partial)
    modifies PartsOf(t).accs`next, s`first, s`last, a`previous, a`same, h`indexed, h.accessors
    ensures DoublyLinked(s, AccsOf(t.kids) + [a]) && Indexed(h)
    ensures h.indexed == old(h.indexed) + (if h.useTrie && !Hidden(a.name) then [a] else [])
    ensures forall k :: k in t.kids && old(Pending(k, s, h.partial)) ==> Pending(k, s, h.partial)
    ensures Pending(NewKid(a), s, h.partial)
    ensures forall k :: k in t.kids ==> ValueKid(k) == old(ValueKid(k))
    ensures Value(Extended(t, a, cls)) == old(Value(Extended(t, a, cls)))
  {
    hide *;
    TreeExists(Extended(t, a, cls));
    forall k | k in t.kids
      ensures forall x :: x in PartsOfKid(k).accs ==> allocated(x)
      ensures forall x :: x in PartsOfKid(k).secs ==> allocated(x)
    {
      KidExists(k);
    }
    PushKept(a, s, h, t);
  }

  /** A row grows by an accessor that is fit for it. */
  method AppendAccessor(a: Accessor, s: Section, cls: Class, h: Handle, ghost t: Tree)
    requires t.s == s && s.h == h && Distinct(t) && DoublyLinked(s, AccsOf(t.kids)) && Indexed(h)
    requires a !in PartsOf(t).accs && a !in AccsOf(t.kids) && a !in h.indexed
    requires a.next == null && a.previous == null && a.attributes == []
    requires h.useTrie && !Hidden(a.name) ==> h.keyId(a.name) < h.accessors.Length
    requires a.subSection != s && Pending(NewKid(a), s, h.partial) && FieldKnown(Extended(t, a, cls))
    modifies PartsOf(t).accs`next, s`first, s`last, a`previous, a`same, h`indexed, h.accessors
    ensures DoublyLinked(s, AccsOf(t.kids) + [a]) && Indexed(h)
    ensures h.indexed == old(h.indexed) + (if h.useTrie && !Hidden(a.name) then [a] else [])
    ensures var fit := old(LastInStep(t.kids, h.partial) && a.offset == End(AccsOf(t.kids), OwnerOffset(s)));
            && (old(Row(s, t.kids, h.partial)) && fit ==> Block(Extended(t, a, cls), h.partial))
            && (Block(Extended(t, a, cls), h.partial) ==> fit)
    ensures Value(Extended(t, a, cls)) == old(Value(Extended(t, a, cls)))
  {
    hide Pending, DoublyLinked, Indexed, Contiguous, End, AccInStep, ValueKid, PartsOf, PartsOfKid, Distinct, Value;
    ghost var kids, n, t', o := t.kids, |t.kids| - 1, Extended(t, a, cls), OwnerOffset(s);
    assert AccsOf(t'.kids) == AccsOf(kids) + [a];
    ContiguousAppend(AccsOf(kids), a, o);
    assert kids != [] ==> t'.kids[n] == kids[n];
    PushSame(a, s, cls, h, t);
    forall i | 0 <= i < |t'.kids| - 1
      ensures t'.kids[i] == kids[i] && kids[i] in kids
    {
    }
  }

  lemma ContiguousAppend(accs: seq<Accessor>, a: Accessor, offset: int)
    ensures Contiguous(accs + [a], offset) <==> Contiguous(accs, offset) && a.offset == End(accs, offset)
  {
    var more := accs + [a];
    assert more[..|accs|] == accs && more[|accs|] == a;
    forall i | 0 <= i < |accs|
      ensures more[..i] == accs[..i] && more[i] == accs[i]
    {
    }
    if Contiguous(more, offset) {
      forall i | 0 <= i < |accs|
        ensures accs[i].offset == End(accs[..i], offset)
      {
        assert more[i].offset == End(more[..i], offset);
      }
    }
  }

  /** One accessor is made and pushed. */
  method Create(s: Section, name: string, cls: Class, len: nat, h: Handle, ghost t: Tree) returns (a: Accessor?)
    requires Block(t, h.partial) && t.s == s && s.h == h && h.buffer.Valid() && Telling(t, h.buffer.Message())
    requires OwnerOf(s) !! PartsOf(t).accs && 0 <= OwnerOffset(s) && Indexed(h)
    requires h.useTrie && !Hidden(name) ==> h.keyId(name) < h.accessors.Length
    modifies PartsOf(t).accs`offset, PartsOf(t).accs`length, PartsOf(t).accs`next
    modifies PartsOf(t).secs`padding, PartsOf(t).secs`length, PartsOf(t).secs`stored
    modifies s`first, s`last, s`aclength, h`indexed, h.accessors, h.buffer`data, h.buffer`ulength, h.buffer.data
    ensures h.buffer.Valid() && (h.buffer.data == old(h.buffer.data) || fresh(h.buffer.data)) && Indexed(h)
    ensures var end := old(NextOffset(s, LastOfKids(t.kids))) + Extent(cls, len);
            && (a == null <==> end > old(h.buffer.ulength) && !h.buffer.growable)
            && h.buffer.ulength == (if a != null && end > old(h.buffer.ulength) then end else old(h.buffer.ulength))
    ensures var o, was := old(OwnerOffset(s)), old(h.buffer.Message());
            && |was| <= h.buffer.ulength
            && RewrittenAcc(old(LastBefore(LastOfKids(t.kids))), old(LastAfter(LastOfKids(t.kids), h)), was,
                            h.buffer.Message()[..|was|])
            && forall i :: 0 <= i < |was| && (i < o || o + old(NewLength(Value(t), 1, h.partial)) <= i) ==>
                 h.buffer.Message()[i] == was[i]
    ensures !cls.SectionLength? ==> s.aclength == old(s.aclength) && s.stored == old(s.stored)
    ensures s.padding == old(s.padding) && s.length == old(s.length)
    ensures a == null ==> h.indexed == old(h.indexed) && DoublyLinked(s, AccsOf(t.kids))
    ensures a != null ==>
              && fresh(a) && (cls.SectionOwner? ==> fresh(a.subSection))
              && Made(a, s, name, cls, len, old(NextOffset(s, LastOfKids(t.kids))))
              && h.indexed == old(h.indexed) + (if h.useTrie && !Hidden(name) then [a] else [])
              && Value(Extended(t, a, cls)).accs
                 == old(CountedKids(t.kids, h) + [MadeAcc(cls, len, NextOffset(s, LastOfKids(t.kids)))])
              && (Block(Extended(t, a, cls), h.partial) <==> old(LastCounts(t.kids, h)))
              && (old(LastCounts(t.kids, h)) && Storable(cls, len) ==>
                    Telling(Extended(t, a, cls), h.buffer.Message()))
  {
    hide *;
    LastIsFit(t, h);
    TreeExists(t);
    ghost var offset := NextOffset(s, LastOfKids(t.kids));
    a := MakeTold(s, name, cls, len, h, t);
    if a == null { return; }
    ghost var t' := Extended(t, a, cls);
    MadeSub(a, s, name, cls, len, offset);
    TellingMeans(t', h.buffer.Message());
    TreeExists(t');
    AppendAccessor(a, s, cls, h, t);
    TellingMeans(t', h.buffer.Message());
  }

  lemma TellingMeans(t: Tree, data: seq<byte>)
    ensures Telling(t, data) <==> Denote(Places(Value(t)), Stores(Value(t)), data)
  {
  }

  lemma MadeSub(a: Accessor, s: Section, name: string, cls: Class, len: nat, offset: int)
    requires s.h.buffer.Valid() && Made(a, s, name, cls, len, offset)
    ensures a.name == name && a.offset == offset && (a.subSection != null <==> cls.SectionOwner?)
  {
  }

  lemma NewPending(a: Accessor, s: Section, name: string, cls: Class, len: nat, offset: int, partial: bool)
    requires s.h.buffer.Valid() && a.subSection != s && Made(a, s, name, cls, len, offset)
    ensures Pending(NewKid(a), s, partial)
  {
    hide NatOf;
    NewKidFacts(a, s.h);
    if a.subSection != null {
      var u := Tree(a.subSection, [], None);
      assert Value(u) == Sec([], None, 0, 0) && FieldAccs(u) == [];
      assert ShapedAll([], u.s) && BlocksDistinctAll([]) && AllDifferent([]);
      assert Shaped(u) && BlocksDistinct(u);
    }
  }

  /** Counting does not change the length of an accessor without a section. */
  lemma FieldCounted(t: Tree, h: Handle)
    requires Block(t, h.partial)
    ensures t.s.aclength == LengthAcc(t)
    ensures t.which.Some? ==>
              var w := t.which.value;
              && w < |t.kids| && t.kids[w].sub.None? && t.kids[w].a.padding.Keeps?
              && CountedKids(t.kids, h)[w].length == t.kids[w].a.nbytes
  {
    hide Row, ValueAll, Adjust;
    if t.which.Some? && t.which.value < |t.kids| - 1 { ValueSplit(t.kids[..|t.kids| - 1], t.which.value); }
  }

  lemma FieldStays(t: Tree, a: Accessor, name: string, cls: Class, len: nat, offset: int, v: seq<Acc>)
    requires t.s.h.buffer.Valid() && Made(a, t.s, name, cls, len, offset) && ValueAll(t.kids) == v
    requires !cls.SectionLength? ==> t.s.aclength == LengthAcc(t)
    requires t.which.Some? ==>
               var w := t.which.value;
               && w < |t.kids| && t.kids[w].sub.None? && t.kids[w].a.padding.Keeps?
               && v[w].length == t.kids[w].a.nbytes
    ensures FieldKnown(Extended(t, a, cls))
  {
    hide ValueAll, NatOf;
    if t.which.Some? { ValueSplit(t.kids, t.which.value); }
  }
}
