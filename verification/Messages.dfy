/** Whole messages made from a list of actions (src/action_class_gen.cc, src/action_class_template.cc,
    src/grib_handle.cc). */
module Messages {
  import opened Results
  import opened Bits
  import opened Shifts
  import opened Layout
  import opened LengthFields
  import opened Buffers
  import opened Sections
  import opened Paddings
  import opened Replacing
  import opened Blocks
  import opened Counting
  import opened PaddingOrder
  import opened PaddingLoop
  import opened Building
  import opened Creating
  import opened Actions

  // ---------------------------------------------------------------- a section, as far as it is made

  /** The accessors are what the actions say. */
  ghost predicate Shows(t: Tree, acts: seq<Action>, h: Handle)
    decreases acts, 0
  {
    && |t.kids| == |acts|
    && forall i :: 0 <= i < |acts| ==>
         assert acts decreases to acts[i];
         ShowsOne(t.kids[i], acts[i], h)
  }

  ghost predicate ShowsOne(k: Kid, act: Action, h: Handle)
    decreases act
  {
    && k.a.name == act.name
    && match act
       case Make(_, rule, len) => k.sub.None? && k.a.nbytes == len && Kept(rule, k.a.padding, h)
       case MakeLength(_, len) => k.sub.None? && k.a.nbytes == len && k.a.padding.Keeps?
       case Template(_, body) => k.sub.Some? && Shows(k.sub.value, body, h)
  }

  lemma ShowsMore(t: Tree, acts: seq<Action>, k: Kid, act: Action, which: Option<nat>, h: Handle)
    requires Shows(t, acts, h) && ShowsOne(k, act, h)
    ensures Shows(Tree(t.s, t.kids + [k], which), acts + [act], h)
  {
    hide ShowsOne;
    var kids, more := t.kids + [k], acts + [act];
    forall i | 0 <= i < |more|
      ensures ShowsOne(kids[i], more[i], h)
    {
      if i < |acts| { assert kids[i] == t.kids[i] && more[i] == acts[i]; }
    }
  }

  /** The rule with the name of the mark made out. */
  ghost predicate Kept(rule: Rule, p: Padding, h: Handle) {
    match rule
    case AsItIs => p == Keeps
    case Fixed(amount) => p == Pad(amount)
    case UpTo(begin, distance) => p.PadTo? && p.distance == distance && h.keyId(p.mark.name) == h.keyId(begin)
    case UpToEven(begin) => p.PadToEven? && h.keyId(p.mark.name) == h.keyId(begin)
    case UpToMultiple(begin, m) => p.PadToMultiple? && p.multiple == m && h.keyId(p.mark.name) == h.keyId(begin)
  }

  /** A section with what the actions have made of it so far: its length fields tell, and from its end on
      the octets are those of the data. */
  ghost predicate Built(t: Tree, acts: seq<Action>, o: int, data: seq<byte>, h: Handle)
    reads *
  {
    && t.s.h == h && !h.partial && h.buffer.Valid() && Indexed(h)
    && OwnerOffset(t.s) == o >= 0 && OwnerOf(t.s) !! PartsOf(t).accs
    && Block(t, false) && Telling(t, h.buffer.Message())
    && Follows(Value(t), acts, o, data, h.loader) && Idle(Value(t))
    && Shows(t, acts, h)
    && o + Extents(acts) <= h.buffer.ulength && Ahead(o + Extents(acts), data, h.buffer.Message())
  }

  /** From n on the message starts with the data. */
  ghost predicate Ahead(n: int, data: seq<byte>, message: seq<byte>) {
    |data| <= |message| && forall i :: 0 <= i < |data| && n <= i ==> message[i] == data[i]
  }

  /** One accessor more. */
  method AddAccessor(s: Section, name: string, cls: Class, len: nat, h: Handle, ghost t: Tree, ghost acts: seq<Action>,
              ghost o: int, ghost data: seq<byte>) returns (a: Accessor?, ghost v: Sec)
    requires t.s == s && Built(t, acts, o, data, h) && Storable(cls, len)
    requires acts != [] ==> !Uncounted(acts[|acts| - 1])
    requires h.useTrie && !Hidden(name) ==> h.keyId(name) < h.accessors.Length
    modifies PartsOf(t).accs`offset, PartsOf(t).accs`length, PartsOf(t).accs`next
    modifies PartsOf(t).secs`padding, PartsOf(t).secs`length, PartsOf(t).secs`stored
    modifies s`first, s`last, s`aclength, h`indexed, h.accessors, h.buffer`data, h.buffer`ulength, h.buffer.data
    ensures h.buffer.Valid() && (h.buffer.data == old(h.buffer.data) || fresh(h.buffer.data)) && Indexed(h)
    ensures var end := o + Extents(acts) + Extent(cls, len);
            && (a == null <==> end > old(h.buffer.ulength) && !h.buffer.growable)
            && h.buffer.ulength == (if a != null && end > old(h.buffer.ulength) then end else old(h.buffer.ulength))
    ensures forall i :: 0 <= i < |old(h.buffer.Message())| && (i < o || o + Extents(acts) <= i) ==>
              h.buffer.Message()[i] == old(h.buffer.Message())[i]
    ensures a == null ==> h.indexed == old(h.indexed)
    ensures a != null ==>
              && fresh(a) && (cls.SectionOwner? ==> fresh(a.subSection))
              && Made(a, s, name, cls, len, o + Extents(acts))
              && h.indexed == old(h.indexed) + (if h.useTrie && !Hidden(name) then [a] else [])
              && Block(Extended(t, a, cls), false) && Telling(Extended(t, a, cls), h.buffer.Message())
              && Follows(v, acts, o, data, h.loader)
              && Value(Extended(t, a, cls))
                 == v.(accs := v.accs + [MadeAcc(cls, len, o + Extents(acts))], field := FieldOf(Extended(t, a, cls)))
              && (!cls.SectionLength? ==> FieldOf(Extended(t, a, cls)) == v.field)
  {
    hide *;
    v := WithLast(Value(t), LastAfter(LastOfKids(t.kids), h));
    BuiltCounts(t, acts, o, data, h);
    ghost var field, stored := FieldOf(t), s.stored;
    a := Create(s, name, cls, len, h, t);
    if a == null { return; }
    ExtendedValue(t, a, cls);
    SameField(t, a, cls, field, stored);
  }

  lemma SameField(t: Tree, a: Accessor, cls: Class, field: Option<LengthField>, stored: nat)
    requires t.which.Some? ==> t.which.value < |t.kids|
    requires field == FieldWith(t, stored)
    ensures !cls.SectionLength? && t.s.stored == stored ==> FieldOf(Extended(t, a, cls)) == field
  {
  }

  /** The length field of a section whose octets hold the number. */
  ghost function FieldWith(t: Tree, stored: nat): Option<LengthField> {
    var a := LengthAcc(t);
    if a == null then None else Some(LengthField(stored, t.which.value, a.nbytes))
  }

  lemma BuiltCounts(t: Tree, acts: seq<Action>, o: int, data: seq<byte>, h: Handle)
    requires Built(t, acts, o, data, h) && (acts != [] ==> !Uncounted(acts[|acts| - 1]))
    ensures var last := LastOfKids(t.kids);
            var v := WithLast(Value(t), LastAfter(last, h));
            && Block(t, h.partial) && !h.partial && t.s.h == h && h.buffer.Valid() && Telling(t, h.buffer.Message())
            && OwnerOf(t.s) !! PartsOf(t).accs && 0 <= OwnerOffset(t.s) == o && Indexed(h)
            && LastCounts(t.kids, h) && NextOffset(t.s, last) == o + Extents(acts)
            && Follows(v, acts, o, data, h.loader) && v.accs == CountedKids(t.kids, h)
            && v.padding == t.s.padding == 0 && v.length == t.s.length && NewLength(Value(t), 1, false) == Extents(acts)
            && v.field == FieldOf(t) == FieldWith(t, t.s.stored) && (t.which.Some? ==> t.which.value < |t.kids|)
  {
    hide Block, Telling, Indexed, Follows, LinkedAll, DistinctAll, OffsetsMatch, PartsOf, ValueAll, ValueKid,
      CountsRight, Counted, Linked, Distinct, Shaped, BlocksDistinct, Widths, LeafLengths, Total, NewLength, End,
      Extents;
    var v := Value(t);
    BlockMakesTree(t, false);
    FieldInBlock(t, false);
    NewLengthTotal(v);
    FollowsMeans(v, acts, o, data, h.loader);
    ToBeCounted(t.s, t.kids, h);
    if t.kids != [] {
      var n := |t.kids| - 1;
      assert ShowsOne(t.kids[n], acts[n], h);
      CountedFollows(v, acts, o, data, h.loader, t.kids[n].a.name);
      ValueAppend(t.kids, n);
      FrontAndLast(t.kids);
      OffsetOfValue(t.kids[n]);
    }
  }

  lemma OffsetOfValue(k: Kid)
    ensures ValueKid(k).offset == k.a.offset && ValueKid(k).length == k.a.length
    ensures ValueKid(k).sub.Some? <==> k.sub.Some?
  {
  }

  lemma FollowsMeans(v: Sec, acts: seq<Action>, o: int, data: seq<byte>, loader: bool)
    requires Follows(v, acts, o, data, loader)
    ensures |v.accs| == |acts| && v.padding == 0 && LeafLengths(v) == Lens(acts) && Total(Lens(acts)) == Extents(acts)
    ensures (acts == [] ==> Extents(acts) == 0) && (v.field.Some? ==> v.field.value.which < |v.accs|)
  {
    LensTotal(acts);
  }

  lemma ExtendedValue(t: Tree, a: Accessor, cls: Class)
    ensures var t', v := Extended(t, a, cls), Value(Extended(t, a, cls));
            && v.padding == t.s.padding && v.length == t.s.length && v.field == FieldOf(t')
            && t'.s == t.s && t'.kids == t.kids + [NewKid(a)]
  {
    hide ValueAll;
  }

  // ---------------------------------------------------------------- marks of paddings

  /** Each mark is known or a leaf of the list, at or before its padding. */
  ghost predicate Marked(list: seq<Accessor>, known: set<Accessor>) {
    forall k :: 0 <= k < |list| && HasMark(list[k].padding) ==>
      list[k].padding.mark in known || (list[k].padding.mark in list && IndexOf(list, list[k].padding.mark) <= k)
  }

  lemma MarkedIsBefore(list: seq<Accessor>)
    requires Marked(list, {})
    ensures MarksBefore(list)
  {
  }

  /** Every leaf that goes by a name is known. */
  ghost predicate Findable(h: Handle, known: set<Accessor>)
    reads *
  {
    forall x :: x in h.indexed && x.subSection == null ==> x in known
  }

  lemma {:induction false} IndexInFront(a: seq<Accessor>, b: seq<Accessor>, x: Accessor)
    ensures x in a ==> IndexOf(a + b, x) == IndexOf(a, x)
    ensures x !in a ==> IndexOf(a + b, x) == |a| + IndexOf(b, x)
    decreases |a|
  {
    if a == [] {
      assert a + b == b;
    } else {
      assert (a + b)[0] == a[0] && (a + b)[1..] == a[1..] + b;
      IndexInFront(a[1..], b, x);
    }
  }

  lemma MarkedJoin(a: seq<Accessor>, b: seq<Accessor>, known: set<Accessor>)
    requires Marked(a, known) && Marked(b, known + (set x | x in a))
    ensures Marked(a + b, known)
  {
    hide IndexOf;
    forall k | 0 <= k < |a + b| && HasMark((a + b)[k].padding)
      ensures var m := (a + b)[k].padding.mark; m in known || (m in a + b && IndexOf(a + b, m) <= k)
    {
      IndexInFront(a, b, (a + b)[k].padding.mark);
      if k >= |a| { assert (a + b)[k] == b[k - |a|]; } else { assert (a + b)[k] == a[k]; }
    }
  }

  lemma {:induction false} LeavesJoin(kids: seq<Kid>, k: Kid)
    ensures LeafAccsAll(kids + [k]) == LeafAccsAll(kids) + LeafAccsKid(k)
    decreases |kids|
  {
    hide LeafAccsKid;
    var more := kids + [k];
    if kids == [] {
      assert more[0] == k && more[1..] == [];
    } else {
      assert more[0] == kids[0] && more[1..] == kids[1..] + [k];
      LeavesJoin(kids[1..], k);
    }
  }

  /** The accessor that a rule counts from: the newest of the name. */
  function MarkOf(rule: Rule, h: Handle): Accessor?
    requires rule.AsItIs? || rule.Fixed? || h.keyId(rule.begin) < h.accessors.Length
    reads h.accessors
  {
    if rule.AsItIs? || rule.Fixed? then null else h.accessors[h.keyId(rule.begin)]
  }

  /** The way of padding, if the mark is there and no section. */
  function PaddingFor(rule: Rule, mark: Accessor?): Option<Padding>
    reads mark
  {
    match rule
    case AsItIs => Some(Keeps)
    case Fixed(amount) => Some(Pad(amount))
    case UpTo(_, distance) => if mark == null || mark.subSection != null then None else Some(PadTo(mark, distance))
    case UpToEven(_) => if mark == null || mark.subSection != null then None else Some(PadToEven(mark))
    case UpToMultiple(_, m) => if mark == null || mark.subSection != null then None else Some(PadToMultiple(mark, m))
  }

  /** An accessor is certain to be made, if there is room, exactly when its padding needs no mark. */
  lemma CertainIff(name: string, rule: Rule, len: nat)
    ensures Certain(Make(name, rule, len)) <==> PaddingFor(rule, null).Some?
  {
  }

  /** A mark is asked for and the newest accessor of its name is no section. */
  ghost predicate MarkFound(rule: Rule, h: Handle)
    reads *
  {
    || rule.AsItIs? || rule.Fixed?
    || (h.keyId(rule.begin) < h.accessors.Length
        && var mark := h.accessors[h.keyId(rule.begin)]; mark != null && mark.subSection == null)
  }

  lemma SettledKnown(rule: Rule, h: Handle, known: set<Accessor>)
    requires Roomy(h) && Indexed(h) && Findable(h, known)
    ensures var p := PaddingFor(rule, MarkOf(rule, h));
            p.Some? ==> Kept(rule, p.value, h) && (HasMark(p.value) ==> p.value.mark in known)
  {
    hide Newest;
    if MarkOf(rule, h) != null { NewestInList(h.indexed, h.keyId, h.keyId(rule.begin)); }
  }

  lemma {:induction false} NewestInList(list: seq<Accessor>, keyId: string -> nat, id: nat)
    ensures var x := Newest(list, keyId, id); x == null || (x in list && keyId(x.name) == id)
    decreases |list|
  {
    if list != [] { NewestInList(list[..|list| - 1], keyId, id); }
  }

  // ---------------------------------------------------------------- one action

  /** What holds after some actions; known are the leaves before the section. */
  ghost predicate Stage(t: Tree, acts: seq<Action>, o: int, data: seq<byte>, h: Handle, known: set<Accessor>)
    reads *
  {
    Built(t, acts, o, data, h) && Marked(LeafAccs(t), known) && Findable(h, known + LeafSet(t))
  }

  ghost function LeafSet(t: Tree): set<Accessor> { set x | x in LeafAccs(t) }

  /** The table has an entry for every id. */
  ghost predicate Roomy(h: Handle) {
    forall name: string :: h.keyId(name) < h.accessors.Length
  }

  /** The message reaches end; what comes before o is as it was. */
  predicate Reached(growable: bool, o: int, end: int, was: seq<byte>, now: seq<byte>) {
    && SameBefore(o, was, now) && |now| == (if end > |was| then end else |was|) && (end <= |was| || growable)
  }

  predicate SameBefore(o: int, was: seq<byte>, now: seq<byte>) {
    |was| <= |now| && forall i :: 0 <= i < |was| && i < o ==> now[i] == was[i]
  }

  /** That is so if everything is made. */
  ghost predicate ReachesIf(b: Buffer, o: int, end: int, made: bool, was: seq<byte>)
    reads b, b.data
  {
    && b.Valid() && SameBefore(o, was, b.Message())
    && (made ==> Reached(b.growable, o, end, was, b.Message()))
  }

  ghost function MessageIn(h: Handle): seq<byte>
    reads h.buffer, h.buffer.data
  {
    if h.buffer.Valid() then h.buffer.Message() else []
  }

  /** So the actions can all be done if there is room. */
  predicate Possible(certain: bool, b: Buffer, end: int, was: seq<byte>) {
    certain && (end <= |was| || b.growable)
  }

  lemma StageMeans(t: Tree, acts: seq<Action>, o: int, data: seq<byte>, h: Handle, known: set<Accessor>)
    requires Stage(t, acts, o, data, h, known)
    ensures Built(t, acts, o, data, h) && Indexed(h) && Findable(h, known + LeafSet(t)) && h.buffer.Valid()
    ensures OwnerOffset(t.s) == o >= 0 && OwnerOf(t.s) !! PartsOf(t).accs && Marked(LeafAccs(t), known)
    ensures Ahead(o + Extents(acts), data, h.buffer.Message()) && t.s.h == h && !h.partial
    ensures (t.which.Some? ==> t.which.value < |t.kids|) && Shows(t, acts, h)
    ensures MessageIn(h) == h.buffer.Message() && o + Extents(acts) <= |MessageIn(h)| == h.buffer.ulength
  {
    hide Block, Telling, Follows, Indexed, PartsOf, Extents, FieldKnown;
    FieldInBlock(t, false);
  }

  /** An accessor or a length field. */
  method AddSimple(s: Section, act: Action, h: Handle, ghost t: Tree, ghost acts: seq<Action>, ghost o: int,
                   ghost data: seq<byte>, ghost known: set<Accessor>) returns (ok: bool, ghost t': Tree)
    requires t.s == s && Stage(t, acts, o, data, h, known) && Roomy(h) && !act.Template?
    requires RegularAt(act, o + Extents(acts), data, h.loader) && (acts != [] ==> !Uncounted(acts[|acts| - 1]))
    modifies PartsOf(t).accs`offset, PartsOf(t).accs`length, PartsOf(t).accs`next
    modifies PartsOf(t).secs`padding, PartsOf(t).secs`length, PartsOf(t).secs`stored
    modifies s`first, s`last, s`aclength, h`indexed, h.accessors, h.buffer`data, h.buffer`ulength, h.buffer.data
    ensures h.buffer.data == old(h.buffer.data) || fresh(h.buffer.data)
    ensures ReachesIf(h.buffer, o, o + Extents(acts) + ExtentOf(act), ok, old(MessageIn(h)))
    ensures var end, was := o + Extents(acts) + ExtentOf(act), old(MessageIn(h));
            ok <==> (act.Make? ==> old(MarkFound(act.rule, h))) && (end <= |was| || h.buffer.growable)
    ensures ok ==> t'.s == s && Stage(t', acts + [act], o, data, h, known)
    ensures ok ==> forall x :: x in PartsOf(t').accs ==> x in PartsOf(t).accs || fresh(x)
    ensures ok ==> forall x :: x in PartsOf(t').secs ==> x in PartsOf(t).secs || fresh(x)
  {
    hide MarkFound, Block, Telling, Built, Follows, Indexed, PartsOf, Marked, LeafAccs, Extents, Value, Made,
      PaddingFor, Newest, FieldOf, NatOf, LeafSet, Total, LeafLengths;
    StageMeans(t, acts, o, data, h, known);
    ok, t' := false, t;
    var cls := SectionLength;
    if act.Make? {
      var p := PaddingFor(act.rule, MarkOf(act.rule, h));
      SettledKnown(act.rule, h, known + LeafSet(t));
      SettledIf(act.rule, h);
      if p.None? { return; }
      cls := Bytes(p.value);
    }
    ghost var v1;
    var a;
    TreeExists(t);
    a, v1 := AddAccessor(s, act.name, cls, act.len, h, t, acts, o, data);
    if a == null { return; }
    ok, t' := true, Extended(t, a, cls);
    SimpleLeaf(t, a, cls, known, act.name, act.len, o + Extents(acts), h);
    SimpleBuilt(t, a, cls, v1, acts, act, o, data, h);
  }

  lemma SettledIf(rule: Rule, h: Handle)
    requires Roomy(h)
    ensures MarkFound(rule, h) <==> PaddingFor(rule, MarkOf(rule, h)).Some?
    ensures rule.AsItIs? || rule.Fixed? ==> MarkFound(rule, h)
  {
  }

  /** The leaf behind the others. */
  lemma SimpleLeaf(t: Tree, a: Accessor, cls: Class, known: set<Accessor>, name: string, len: nat, offset: int,
                   h: Handle)
    requires t.s.h == h && h.buffer.Valid() && Made(a, t.s, name, cls, len, offset) && !cls.SectionOwner?
    requires Marked(LeafAccs(t), known)
    requires cls.Bytes? && HasMark(cls.padding) ==> cls.padding.mark in known + LeafSet(t)
    ensures Marked(LeafAccs(Extended(t, a, cls)), known) && LeafSet(Extended(t, a, cls)) == LeafSet(t) + {a}
    ensures PartsOf(Extended(t, a, cls)) == PartsOf(t).Plus(Parts({a}, {}))
  {
    hide IndexOf, NatOf;
    var k := NewKid(a);
    LeavesJoin(t.kids, k);
    MarkedJoin(LeafAccs(t), [a], known);
    PartsWith(t, k, Extended(t, a, cls).which);
  }

  lemma PartsWith(t: Tree, k: Kid, which: Option<nat>)
    ensures PartsOf(Tree(t.s, t.kids + [k], which)) == PartsOf(t).Plus(PartsOfKid(k))
  {
    hide PartsOfKid, PartsOfAll;
    var kids, n := t.kids + [k], |t.kids|;
    PartsAppend(kids, n);
    assert kids[..n + 1] == kids && kids[..n] == t.kids && kids[n] == k;
  }

  lemma SliceAhead(at: int, n: nat, data: seq<byte>, message: seq<byte>)
    requires Ahead(at, data, message)
    ensures 0 <= at && at + n <= |data| ==> message[at..at + n] == data[at..at + n]
  {
  }

  lemma LeafTotal(made: Acc, act: Action)
    requires !act.Template? && made.sub.None? && made.length == act.len
    ensures LeafLengthsAcc(made) == LensOf(act)
  {
  }

  lemma SimpleBuilt(t: Tree, a: Accessor, cls: Class, v: Sec, acts: seq<Action>, act: Action, o: int, data: seq<byte>,
                    h: Handle)
    requires !act.Template? && (cls.SectionLength? <==> act.MakeLength?) && !cls.SectionOwner?
    requires Shows(t, acts, h) && (act.Make? ==> Kept(act.rule, PaddingOf(cls), h))
    requires var t' := Extended(t, a, cls);
             && t.s.h == h && !h.partial && h.buffer.Valid() && Indexed(h) && OwnerOffset(t.s) == o >= 0
             && OwnerOf(t.s) !! PartsOf(t).accs && a !in OwnerOf(t.s)
             && Block(t', false) && Telling(t', h.buffer.Message()) && Follows(v, acts, o, data, h.loader)
             && Value(t') == v.(accs := v.accs + [MadeAcc(cls, act.len, o + Extents(acts))], field := FieldOf(t'))
             && (!cls.SectionLength? ==> FieldOf(t') == v.field)
             && PartsOf(t') == PartsOf(t).Plus(Parts({a}, {}))
    requires Made(a, t.s, act.name, cls, act.len, o + Extents(acts)) && o + Extents(acts) + act.len <= h.buffer.ulength
    requires Ahead(o + Extents(acts), data, h.buffer.Message())
    ensures Built(Extended(t, a, cls), acts + [act], o, data, h)
  {
    hide Shows, Block, Telling, Follows, Indexed, PartsOf, Extents, Value, NatOf, DoublyLinked, LeafLengthsAcc, Kept;
    var t', made := Extended(t, a, cls), MadeAcc(cls, act.len, o + Extents(acts));
    MoreActions(acts, act);
    SimpleFollows(t, a, cls, v, acts, act, o, data, h);
    ShowsMore(t, acts, NewKid(a), act, t'.which, h);
    assert Value(t').accs[|v.accs|] == made;
  }

  lemma SimpleFollows(t: Tree, a: Accessor, cls: Class, v: Sec, acts: seq<Action>, act: Action, o: int, data: seq<byte>,
                      h: Handle)
    requires !act.Template? && (cls.SectionLength? <==> act.MakeLength?) && !cls.SectionOwner?
    requires t.s.h == h && h.buffer.Valid() && Follows(v, acts, o, data, h.loader)
    requires var t' := Extended(t, a, cls);
             && Value(t') == v.(accs := v.accs + [MadeAcc(cls, act.len, o + Extents(acts))], field := FieldOf(t'))
             && (!cls.SectionLength? ==> FieldOf(t') == v.field)
    requires Made(a, t.s, act.name, cls, act.len, o + Extents(acts)) && o + Extents(acts) + act.len <= h.buffer.ulength
    requires Ahead(o + Extents(acts), data, h.buffer.Message())
    ensures Follows(Value(Extended(t, a, cls)), acts + [act], o, data, h.loader)
  {
    hide Follows, Extents, FieldOfList, ValueAll, NatOf, DoublyLinked, LeafLengthsAcc, Good;
    var t', made, at := Extended(t, a, cls), MadeAcc(cls, act.len, o + Extents(acts)), o + Extents(acts);
    FollowsMeans(v, acts, o, data, h.loader);
    assert |Value(t').accs| == |t'.kids|;
    LeafTotal(made, act);
    SliceAhead(at, act.len, data, h.buffer.Message());
    AddedFollows(v, acts, o, data, h.loader, made, act, FieldOf(t'));
  }

  // ---------------------------------------------------------------- a template

  /** Length fields before the end keep their numbers. */
  lemma DenoteBefore(places: seq<Place>, stores: seq<nat>, end: int, was: seq<byte>, now: seq<byte>)
    requires Denote(places, stores, was) && |was| <= |now|
    requires forall p :: p in places ==> p.at + p.n <= end
    requires forall i :: 0 <= i < |was| && i < end ==> now[i] == was[i]
    ensures Denote(places, stores, now)
  {
    hide NatOf;
    forall i | 0 <= i < |places|
      ensures Inside(places[i], |now|) && NatOf(now[places[i].at..places[i].at + places[i].n]) == stores[i]
    {
      var p := places[i];
      assert p in places && Inside(p, |was|);
      assert now[p.at..p.at + p.n] == was[p.at..p.at + p.n];
    }
  }

  /** The last section gets its contents. */
  lemma FilledTells(v: Sec, a: Acc, sub: Sec, data: seq<byte>)
    requires a.sub == Some(Sec([], None, 0, 0)) && (v.field.Some? ==> v.field.value.which < |v.accs|)
    requires var v1 := v.(accs := v.accs + [a]); Denote(Places(v1), Stores(v1), data)
    requires Denote(Places(sub), Stores(sub), data)
    ensures var v2 := v.(accs := v.accs + [a.(sub := Some(sub))]); Denote(Places(v2), Stores(v2), data)
  {
    hide Denote, PlacesAll, StoresAll;
    var v1, v2, b := v.(accs := v.accs + [a]), v.(accs := v.accs + [a.(sub := Some(sub))]), a.(sub := Some(sub));
    NoFieldIn(a);
    PlacesOfThree(v.accs, a, []);
    PlacesOfThree(v.accs, b, []);
    AsManyPlacesAll(v.accs);
    AsManyPlacesAcc(b);
    AsManyPlacesAll(v1.accs);
    AsManyPlacesAll(v2.accs);
    assert PlacesAll(v1.accs) == PlacesAll(v.accs) && StoresAll(v1.accs) == StoresAll(v.accs);
    assert PlacesAcc(b) == Places(sub) && StoresAcc(b) == Stores(sub) && OwnPlace(v1) == OwnPlace(v2);
    DenoteJoin(PlacesAll(v1.accs), StoresAll(v1.accs), OwnPlace(v1), OwnStore(v.field), data);
    DenoteJoin(PlacesAll(v.accs), StoresAll(v.accs), PlacesAcc(b), StoresAcc(b), data);
    DenoteJoin(PlacesAll(v2.accs), StoresAll(v2.accs), OwnPlace(v2), OwnStore(v.field), data);
  }

  /** All length fields of a block lie inside it. */
  lemma BlockPlaces(t: Tree)
    requires Block(t, false)
    ensures forall p :: p in Places(Value(t)) ==> p.at + p.n <= OwnerOffset(t.s) + Total(LeafLengths(Value(t)))
  {
    hide Linked, Shaped, Distinct, BlocksDistinct, Widths, Value, Places, OffsetsMatch, LengthLeaves, FieldLeaves,
      Block, Total, LeafLengths, NewLength, LastInStep;
    BlockMakesTree(t, false);
    LeavesOfFields(t);
    PlacesInside(Value(t), FieldLeaves(t), OwnerOffset(t.s), false);
    NewLengthTotal(Value(t));
  }

  /** What has been made of a body counts right if its field fits. */
  lemma GoodBody(v: Sec, body: seq<Action>, o: int, data: seq<byte>, loader: bool)
    requires Follows(v, body, o, data, loader) && FieldFits(body, o, data, loader)
    ensures Good(v, loader) && Total(LeafLengths(v)) == Extents(body)
  {
    hide LeafLengths, Total, Extents, FieldOfList, Good, NatOf, Pow2, Lens;
    LensTotal(body);
    forall a | a in v.accs && a.sub.Some?
      ensures Good(a.sub.value, loader)
    {
      var i :| 0 <= i < |v.accs| && v.accs[i] == a;
      assert Done(v.accs[i], body[i], loader);
    }
    GoodSection(v, loader);
  }

  /** The accessor over what has been built from a body. */
  lemma FilledPending(a: Accessor, u: Tree, s: Section)
    requires Block(u, false) && a.subSection == u.s && u.s.owner == a && u.s.h == s.h
    requires a.parent == s && a.padding.Keeps? && s !in PartsOf(u).secs
    ensures Pending(Kid(a, Some(u)), s, false)
  {
    hide Linked, Shaped, Distinct, BlocksDistinct, Widths, Value, OffsetsMatch, Block, NewLength, PartsOf, LastInStep;
    BlockMakesTree(u, false);
  }

  /** The tree with what has been built below its last accessor. */
  ghost function Filled(t: Tree, a: Accessor, u: Tree): Tree {
    Tree(t.s, t.kids + [Kid(a, Some(u))], t.which)
  }

  ghost function NextBehind(kids: seq<Kid>, a: Accessor, i: nat): (r: Accessor)
    ensures r == a || exists k :: k in kids && k.a == r
  {
    if i + 1 < |kids| then kids[i + 1].a else a
  }

  /** A row and the accessor a behind it, whose contents are being made: how they are linked, ... */
  ghost predicate Chained(t: Tree, a: Accessor, at: int)
    reads t.s, a, OwnerOf(t.s), set k | k in t.kids :: k.a
  {
    && DoublyLinked(t.s, AccsOf(t.kids) + [a])
    && (if t.kids == [] then a else t.kids[0].a).offset == OwnerOffset(t.s)
    && (forall i :: 0 <= i < |t.kids| ==> t.kids[i].a.offset + t.kids[i].a.length == NextBehind(t.kids, a, i).offset)
    && t.s.aclength == LengthAcc(t)
    && (t.which.Some? ==>
          var w := t.which.value;
          && w < |t.kids| && t.kids[w].sub.None? && t.kids[w].a.padding.Keeps?
          && t.kids[w].a.nbytes == t.kids[w].a.length)
    && a.parent == t.s && a.padding.Keeps? && a.offset == at && a.length == 0
  }

  /** ... what has been built below the row, ... */
  ghost predicate AllCounted(s: Section, kids: seq<Kid>)
    reads set k, x | k in kids && x in PartsOfKid(k).accs :: x
    reads set k, x | k in kids && x in PartsOfKid(k).secs :: x
  {
    forall k :: k in kids ==> Pending(k, s, false) && AccInStep(ValueKid(k), false)
  }

  /** ... and its value. */
  ghost predicate HasValue(t: Tree, v: Sec)
    reads PartsOf(t).accs, PartsOf(t).secs
  {
    Value(t) == v
  }

  lemma WaitingNow(t: Tree, a: Accessor, name: string, v: Sec, at: int)
    requires t.s.h.buffer.Valid() && Made(a, t.s, name, SectionOwner, 0, at)
    requires Block(Extended(t, a, SectionOwner), false)
    requires Value(Extended(t, a, SectionOwner)) == v.(accs := v.accs + [MadeAcc(SectionOwner, 0, at)])
    requires t.which.Some? ==> t.which.value < |t.kids|
    ensures Chained(t, a, at) && AllCounted(t.s, t.kids) && HasValue(t, v)
  {
    hide Pending, AccInStep, DoublyLinked, Contiguous, ValueKid, ValueAll, End;
    var t', n := Extended(t, a, SectionOwner), |t.kids|;
    OpenRow(t', false);
    FieldInBlock(t', false);
    assert AccsOf(t'.kids) == AccsOf(t.kids) + [a];
    ExtendedAccs(t, a, SectionOwner, name, 0, at);
    forall i | 0 <= i < n
      ensures t'.kids[i] == t.kids[i]
    {
    }
    assert t'.kids[n].a == a;
    assert (if t.kids == [] then a else t.kids[0].a).offset == OwnerOffset(t.s);
    forall i | 0 <= i < |t.kids|
      ensures t.kids[i].a.offset + t.kids[i].a.length == NextBehind(t.kids, a, i).offset
    {
      assert t'.kids[i + 1].a == NextBehind(t.kids, a, i);
    }
    assert Chained(t, a, at);
    forall k | k in t.kids
      ensures Pending(k, t.s, false) && AccInStep(ValueKid(k), false)
    {
      var i :| 0 <= i < n && t.kids[i] == k;
      assert t'.kids[i] == k;
    }
    assert Value(t').accs[..n] == ValueAll(t.kids) && (v.accs + [MadeAcc(SectionOwner, 0, at)])[..|v.accs|] == v.accs;
  }

  /** The section and its contents. */
  lemma WaitingOver(t: Tree, a: Accessor, v: Sec, at: int, u: Tree)
    requires Chained(t, a, at) && AllCounted(t.s, t.kids) && HasValue(t, v)
    requires Block(u, false) && a.subSection == u.s && u.s.owner == a && u.s.h == t.s.h && t.s !in PartsOf(u).secs
    ensures Block(Filled(t, a, u), false)
    ensures Value(Filled(t, a, u)) == v.(accs := v.accs + [Acc(at, 0, Some(Value(u)))])
  {
    hide Pending, AccInStep, DoublyLinked, Contiguous, ValueKid, ValueAll, End, Block, PartsOf;
    var t', k, n := Filled(t, a, u), Kid(a, Some(u)), |t.kids|;
    FilledPending(a, u, t.s);
    assert AccsOf(t'.kids) == AccsOf(t.kids) + [a];
    forall i | 0 <= i < |t'.kids| - 1
      ensures t'.kids[i].a.offset + t'.kids[i].a.length == t'.kids[i + 1].a.offset
    {
      assert t'.kids[i] == t.kids[i] && t'.kids[i + 1].a == NextBehind(t.kids, a, i);
    }
    FilledRow(t, a, u);
    FilledValue(t, a, u, v);
  }

  /** A row whose last accessor got its contents. */
  lemma FilledRow(t: Tree, a: Accessor, u: Tree)
    requires var kids := t.kids + [Kid(a, Some(u))];
             && DoublyLinked(t.s, AccsOf(kids)) && kids[0].a.offset == OwnerOffset(t.s)
             && (forall i :: 0 <= i < |kids| - 1 ==> kids[i].a.offset + kids[i].a.length == kids[i + 1].a.offset)
    requires forall k :: k in t.kids ==> Pending(k, t.s, false) && AccInStep(ValueKid(k), false)
    requires Pending(Kid(a, Some(u)), t.s, false) && FieldKnown(Filled(t, a, u))
    ensures Block(Filled(t, a, u), false)
  {
    hide Pending, AccInStep, DoublyLinked, Contiguous, ValueKid, FieldKnown;
    var kids := t.kids + [Kid(a, Some(u))];
    ContiguousSteps(kids, OwnerOffset(t.s));
    assert forall i :: 0 <= i < |t.kids| ==> kids[i] in t.kids;
  }

  lemma FilledValue(t: Tree, a: Accessor, u: Tree, v: Sec)
    requires v == Sec(ValueAll(t.kids), FieldOf(t), t.s.padding, t.s.length)
    requires t.which.Some? ==> t.which.value < |t.kids|
    ensures Value(Filled(t, a, u)) == v.(accs := v.accs + [Acc(a.offset, a.length, Some(Value(u)))])
  {
    hide ValueAll;
    var kids, n := t.kids + [Kid(a, Some(u))], |t.kids|;
    ValueAppend(kids, n);
    assert kids[..n + 1] == kids && kids[..n] == t.kids && kids[n] == Kid(a, Some(u));
  }

  /** A list of actions. */
  method CreateAll(s: Section, acts: seq<Action>, h: Handle, ghost o: int, ghost data: seq<byte>,
                   ghost known: set<Accessor>) returns (ok: bool, ghost t: Tree)
    requires s.h == h && !h.partial && h.buffer.Valid() && Indexed(h) && Roomy(h)
    requires DoublyLinked(s, []) && s.aclength == null && s.padding == 0
    requires 0 <= OwnerOffset(s) == o <= h.buffer.ulength && Ahead(o, data, h.buffer.Message())
    requires Regular(acts, o, data, h.loader) && Findable(h, known)
    modifies s, h`indexed, h.accessors, h.buffer`data, h.buffer`ulength, h.buffer.data
    ensures h.buffer.data == old(h.buffer.data) || fresh(h.buffer.data)
    ensures ReachesIf(h.buffer, o, o + Extents(acts), ok, old(MessageIn(h)))
    ensures Possible(AllCertain(acts), h.buffer, o + Extents(acts), old(MessageIn(h))) ==> ok
    ensures ok ==> t.s == s && Stage(t, acts, o, data, h, known)
    ensures ok ==> forall x :: x in PartsOf(t).accs ==> fresh(x)
    ensures ok ==> forall x :: x in PartsOf(t).secs ==> x == s || fresh(x)
    decreases acts, 0
  {
    hide *;
    t := Tree(s, [], None);
    EmptyStage(s, acts, h, o, data, known);
    ok := true;
    var i := 0;
    while i < |acts|
      invariant i <= |acts| && ok && t.s == s
      invariant Stage(t, acts[..i], o, data, h, known)
      invariant ReachesIf(h.buffer, o, o + Extents(acts[..i]), true, old(MessageIn(h)))
      invariant h.buffer.data == old(h.buffer.data) || fresh(h.buffer.data)
      invariant forall x :: x in PartsOf(t).accs ==> fresh(x)
      invariant forall x :: x in PartsOf(t).secs ==> x == s || fresh(x)
    {
      NextAction(acts, i, o, data, h.loader);
      StageMeans(t, acts[..i], o, data, h, known);
      ghost var octets := MessageIn(h);
      ReachedNow(h.buffer, o, o + Extents(acts[..i]), old(MessageIn(h)));
      ok, t := CreateOne(s, acts[i], h, t, acts[..i], o, data, known);
      ReachesFurther(h.buffer, o, o + Extents(acts[..i]), o + Extents(acts[..i + 1]), ok, old(MessageIn(h)), octets);
      if !ok {
        PartPossible(acts, i);
        PossibleLater(AllCertain(acts), Certain(acts[i]), h.buffer, o, o + Extents(acts[..i]), o + Extents(acts),
                      o + Extents(acts[..i + 1]), old(MessageIn(h)), octets);
        NotReached(h.buffer, o, o + Extents(acts[..i + 1]), o + Extents(acts), old(MessageIn(h)));
        return;
      }
      i := i + 1;
    }
    assert acts[..i] == acts;
  }

  /** Nothing has been made. */
  lemma EmptyStage(s: Section, acts: seq<Action>, h: Handle, o: int, data: seq<byte>, known: set<Accessor>)
    requires s.h == h && !h.partial && h.buffer.Valid() && Indexed(h)
    requires DoublyLinked(s, []) && s.aclength == null && s.padding == 0
    requires 0 <= OwnerOffset(s) == o <= h.buffer.ulength && Ahead(o, data, h.buffer.Message()) && Findable(h, known)
    ensures acts[..0] == [] && Extents([]) == 0
    ensures Stage(Tree(s, [], None), acts[..0], o, data, h, known)
    ensures PartsOf(Tree(s, [], None)) == Parts({}, {s})
    ensures ReachesIf(h.buffer, o, o + Extents(acts[..0]), true, MessageIn(h))
  {
    hide Indexed, DoublyLinked, Findable, Value, Places, Stores, Block, PartsOf;
    var t := Tree(s, [], None);
    EmptyValue(t);
    EmptyBlock(t);
    assert LeafAccs(t) == [] && known + LeafSet(t) == known && acts[..0] == [];
  }

  lemma EmptyValue(t: Tree)
    requires t.kids == [] && t.which == None && t.s.padding == 0
    ensures var v := Value(t);
            && v.accs == [] && v.field == None && v.padding == 0 && Total(LeafLengths(v)) == 0
            && Places(v) == [] && Stores(v) == []
    ensures PartsOf(t) == Parts({}, {t.s}) && LeafAccs(t) == []
  {
    var v := Value(t);
    assert v.accs == [];
    assert LeafLengths(v) == LeafLengthsAll([]) == [];
  }

  lemma EmptyBlock(t: Tree)
    requires t.kids == [] && t.which == None && DoublyLinked(t.s, []) && t.s.aclength == null
    ensures Block(t, false)
  {
    assert AccsOf([]) == [];
  }

  lemma NextAction(acts: seq<Action>, i: nat, o: int, data: seq<byte>, loader: bool)
    requires i < |acts| && Regular(acts, o, data, loader)
    ensures acts decreases to acts[i]
    ensures RegularAt(acts[i], o + Extents(acts[..i]), data, loader)
    ensures acts[..i] != [] ==> !Uncounted(acts[..i][|acts[..i]| - 1])
    ensures acts[..i + 1] == acts[..i] + [acts[i]]
    ensures Extents(acts[..i + 1]) == Extents(acts[..i]) + ExtentOf(acts[i])
  {
    hide RegularAt;
    assert acts[..i + 1] == acts[..i] + [acts[i]];
    MoreActions(acts[..i], acts[i]);
    if i > 0 { assert !Uncounted(acts[i - 1]); }
  }

  lemma ReachedNow(b: Buffer, o: int, end: int, was: seq<byte>)
    requires ReachesIf(b, o, end, true, was)
    ensures b.Valid() && Reached(b.growable, o, end, was, b.Message())
  {
  }

  lemma ReachedThrough(b: Buffer, o: int, mid: int, end: int, made: bool, was: seq<byte>, mids: seq<byte>)
    requires Reached(b.growable, o, mid, was, mids) && o <= mid <= end && ReachesIf(b, mid, end, made, mids)
    ensures ReachesIf(b, o, end, made, was)
  {
  }

  /** What is possible as a whole is possible on the way. */
  lemma PossibleLater(all: bool, part: bool, b: Buffer, o: int, mid: int, end: int, end': int, was: seq<byte>,
                      mids: seq<byte>)
    requires (all ==> part) && end' <= end && Reached(b.growable, o, mid, was, mids)
    ensures Possible(all, b, end, was) ==> Possible(part, b, end', mids)
  {
  }

  lemma PartPossible(acts: seq<Action>, i: nat)
    requires i < |acts|
    ensures AllCertain(acts) ==> Certain(acts[i])
    ensures Extents(acts[..i + 1]) <= Extents(acts)
  {
    assert acts[..|acts|] == acts;
    ExtentsGrow(acts, i + 1, |acts|);
  }

  lemma {:induction false} ExtentsGrow(acts: seq<Action>, i: nat, j: nat)
    requires i <= j <= |acts|
    ensures Extents(acts[..i]) <= Extents(acts[..j])
    decreases j - i
  {
    if i < j {
      assert acts[..i + 1] == acts[..i] + [acts[i]];
      MoreActions(acts[..i], acts[i]);
      ExtentsGrow(acts, i + 1, j);
    }
  }

  lemma NotReached(b: Buffer, o: int, end: int, end': int, was: seq<byte>)
    requires ReachesIf(b, o, end, false, was)
    ensures ReachesIf(b, o, end', false, was)
  {
  }

  lemma ReachesFurther(b: Buffer, o: int, mid: int, end: int, made: bool, was: seq<byte>, mids: seq<byte>)
    requires Reached(b.growable, o, mid, was, mids) && mid <= end && ReachesIf(b, o, end, made, mids)
    ensures ReachesIf(b, o, end, made, was)
  {
  }

  method CreateOne(s: Section, act: Action, h: Handle, ghost t: Tree, ghost acts: seq<Action>, ghost o: int,
                   ghost data: seq<byte>, ghost known: set<Accessor>) returns (ok: bool, ghost t': Tree)
    requires t.s == s && Stage(t, acts, o, data, h, known) && Roomy(h)
    requires RegularAt(act, o + Extents(acts), data, h.loader) && (acts != [] ==> !Uncounted(acts[|acts| - 1]))
    modifies PartsOf(t).accs`offset, PartsOf(t).accs`length, PartsOf(t).accs`next
    modifies PartsOf(t).secs`padding, PartsOf(t).secs`length, PartsOf(t).secs`stored
    modifies s`first, s`last, s`aclength, h`indexed, h.accessors, h.buffer`data, h.buffer`ulength, h.buffer.data
    ensures h.buffer.data == old(h.buffer.data) || fresh(h.buffer.data)
    ensures ReachesIf(h.buffer, o, o + Extents(acts) + ExtentOf(act), ok, old(MessageIn(h)))
    ensures Possible(Certain(act), h.buffer, o + Extents(acts) + ExtentOf(act), old(MessageIn(h))) ==> ok
    ensures ok ==> t'.s == s && Stage(t', acts + [act], o, data, h, known)
    ensures ok ==> forall x :: x in PartsOf(t').accs ==> x in PartsOf(t).accs || fresh(x)
    ensures ok ==> forall x :: x in PartsOf(t').secs ==> x in PartsOf(t).secs || fresh(x)
    decreases act
  {
    hide Stage, Extents, PartsOf, MessageIn, ReachesIf, RegularAt, MarkFound;
    if act.Template? {
      ok, t' := AddTemplate(s, act.name, act.body, h, t, acts, o, data, known);
    } else {
      if act.Make? { SettledIf(act.rule, h); }
      ok, t' := AddSimple(s, act, h, t, acts, o, data, known);
    }
  }

  method AddTemplate(s: Section, name: string, body: seq<Action>, h: Handle, ghost t: Tree, ghost acts: seq<Action>,
                     ghost o: int, ghost data: seq<byte>, ghost known: set<Accessor>)
    returns (ok: bool, ghost t': Tree)
    requires t.s == s && Stage(t, acts, o, data, h, known) && Roomy(h)
    requires RegularAt(Template(name, body), o + Extents(acts), data, h.loader)
    requires acts != [] ==> !Uncounted(acts[|acts| - 1])
    modifies PartsOf(t).accs`offset, PartsOf(t).accs`length, PartsOf(t).accs`next
    modifies PartsOf(t).secs`padding, PartsOf(t).secs`length, PartsOf(t).secs`stored
    modifies s`first, s`last, s`aclength, h`indexed, h.accessors, h.buffer`data, h.buffer`ulength, h.buffer.data
    ensures h.buffer.data == old(h.buffer.data) || fresh(h.buffer.data)
    ensures ReachesIf(h.buffer, o, o + Extents(acts) + Extents(body), ok, old(MessageIn(h)))
    ensures Possible(AllCertain(body), h.buffer, o + Extents(acts) + Extents(body), old(MessageIn(h))) ==> ok
    ensures ok ==> t'.s == s && Stage(t', acts + [Template(name, body)], o, data, h, known)
    ensures ok ==> forall x :: x in PartsOf(t').accs ==> x in PartsOf(t).accs || fresh(x)
    ensures ok ==> forall x :: x in PartsOf(t').secs ==> x in PartsOf(t).secs || fresh(x)
    decreases body, 1
  {
    hide *;
    ok, t' := false, t;
    ghost var at, was := o + Extents(acts), MessageIn(h);
    OpenTemplate(name, body, at, data, h);
    StageMeans(t, acts, o, data, h, known);
    KidsAlive(t);
    var a;
    ghost var v;
    a, v := BeginTemplate(s, name, h, t, acts, o, data, known);
    ReachedNow(h.buffer, o, at, was);
    MessageIs(h);
    ghost var u, before := t, MessageIn(h);
    ok, u := CreateAll(a.subSection, body, h, at, data, known + LeafSet(t));
    ReachedThrough(h.buffer, o, at, at + Extents(body), ok, was, before);
    if !ok {
      PossibleLater(AllCertain(body), AllCertain(body), h.buffer, o, at, at + Extents(body), at + Extents(body), was,
        before);
      return;
    }
    t' := Filled(t, a, u);
    StageMeans(u, body, at, data, h, known + LeafSet(t));
    ReachedNow(h.buffer, at, at + Extents(body), before);
    MessageIs(h);
    FilledParts(t, a, u);
    FilledBuilt(t, a, v, u, name, body, acts, o, data, h, before);
    FilledMarks(t, a, u, known, h);
    StageFrom(t', acts + [Template(name, body)], o, data, h, known);
  }

  /** Its accessor is made; v is the value of what comes before. */
  method BeginTemplate(s: Section, name: string, h: Handle, ghost t: Tree, ghost acts: seq<Action>, ghost o: int,
                       ghost data: seq<byte>, ghost known: set<Accessor>) returns (a: Accessor, ghost v: Sec)
    requires t.s == s && Stage(t, acts, o, data, h, known) && h.keyId(name) < h.accessors.Length
    requires acts != [] ==> !Uncounted(acts[|acts| - 1])
    modifies PartsOf(t).accs`offset, PartsOf(t).accs`length, PartsOf(t).accs`next
    modifies PartsOf(t).secs`padding, PartsOf(t).secs`length, PartsOf(t).secs`stored
    modifies s`first, s`last, s`aclength, h`indexed, h.accessors, h.buffer`data, h.buffer`ulength, h.buffer.data
    ensures h.buffer.data == old(h.buffer.data) || fresh(h.buffer.data)
    ensures ReachesIf(h.buffer, o, o + Extents(acts), true, old(MessageIn(h))) && OwnerOffset(s) == old(OwnerOffset(s))
    ensures var at := o + Extents(acts);
            && fresh(a) && a.subSection != null && fresh(a.subSection) && a.name == name
            && Chained(t, a, at) && AllCounted(t.s, t.kids) && HasValue(t, v)
            && a.subSection.h == h && a.subSection.aclength == null && a.subSection.padding == 0
            && DoublyLinked(a.subSection, []) && OwnerOffset(a.subSection) == at && a.subSection.owner == a
            && Follows(v, acts, o, data, h.loader) && Seen(v, at, MessageIn(h)) && Findable(h, known + LeafSet(t))
            && Indexed(h) && h.buffer.Valid() && at <= h.buffer.ulength && Ahead(at, data, h.buffer.Message())
  {
    hide Block, Telling, Built, Stage, Follows, Indexed, PartsOf, PartsOfKid, PartsOfAll, Marked, LeafAccs, Extents,
      Value, ValueAll, Made, FieldOf, Chained, AllCounted, HasValue, Seen, LeafSet, DoublyLinked, NatOf, Total,
      LeafLengths, Newest;
    StageMeans(t, acts, o, data, h, known);
    KidsAlive(t);
    var made;
    made, v := AddAccessor(s, name, SectionOwner, 0, h, t, acts, o, data);
    a := made;
    MadeSub(a, s, name, SectionOwner, 0, o + Extents(acts));
    Ready(t, a, name, v, acts, o, data, h);
  }

  lemma StageFrom(t: Tree, acts: seq<Action>, o: int, data: seq<byte>, h: Handle, known: set<Accessor>)
    requires Built(t, acts, o, data, h) && Marked(LeafAccs(t), known) && Findable(h, known + LeafSet(t))
    ensures Stage(t, acts, o, data, h, known)
  {
  }

  lemma FilledParts(t: Tree, a: Accessor, u: Tree)
    ensures var t' := Filled(t, a, u);
            && t'.s == t.s && PartsOf(t').accs == PartsOf(t).accs + {a} + PartsOf(u).accs
            && PartsOf(t').secs == PartsOf(t).secs + PartsOf(u).secs
  {
    hide PartsOf;
    PartsWith(t, Kid(a, Some(u)), t.which);
  }

  lemma MessageIs(h: Handle)
    requires h.buffer.Valid()
    ensures MessageIn(h) == h.buffer.Message()
  {
  }

  lemma FilledMarks(t: Tree, a: Accessor, u: Tree, known: set<Accessor>, h: Handle)
    requires Marked(LeafAccs(t), known) && Marked(LeafAccs(u), known + LeafSet(t))
    requires Findable(h, known + LeafSet(t) + LeafSet(u))
    ensures Marked(LeafAccs(Filled(t, a, u)), known) && Findable(h, known + LeafSet(Filled(t, a, u)))
  {
    hide IndexOf, Marked;
    LeavesJoin(t.kids, Kid(a, Some(u)));
    MarkedJoin(LeafAccs(t), LeafAccs(u), known);
    assert known + LeafSet(Filled(t, a, u)) == known + LeafSet(t) + LeafSet(u);
  }

  lemma FilledBuilt(t: Tree, a: Accessor, v: Sec, u: Tree, name: string, body: seq<Action>, acts: seq<Action>, o: int,
                    data: seq<byte>, h: Handle, before: seq<byte>)
    requires var at := o + Extents(acts);
             && Chained(t, a, at) && AllCounted(t.s, t.kids) && HasValue(t, v) && Follows(v, acts, o, data, h.loader)
             && Seen(v, at, before) && FieldFits(body, at, data, h.loader)
             && Built(u, body, at, data, h) && Reached(h.buffer.growable, at, at + Extents(body), before, MessageIn(h))
    requires Shows(t, acts, h) && t.s.h == h && a.name == name && a.subSection == u.s && u.s.owner == a
    requires t.s !in PartsOf(u).secs
    requires OwnerOffset(t.s) == o >= 0 && OwnerOf(t.s) !! PartsOf(Filled(t, a, u)).accs
    ensures Built(Filled(t, a, u), acts + [Template(name, body)], o, data, h)
  {
    hide Shows, Block, Telling, Follows, Indexed, PartsOf, Extents, FieldOfList, Value, Chained, AllCounted, Denote,
      Places, Stores, FieldFits, Good, Total, LeafLengths, Lens;
    var at, act, t' := o + Extents(acts), Template(name, body), Filled(t, a, u);
    var made := Acc(at, 0, Some(Value(u)));
    WaitingOver(t, a, v, at, u);
    MoreActions(acts, act);
    FollowsMeans(Value(u), body, at, data, h.loader);
    GoodBody(Value(u), body, at, data, h.loader);
    AddedFollows(v, acts, o, data, h.loader, made, act, v.field);
    var v1 := v.(accs := v.accs + [MadeAcc(SectionOwner, 0, at)]);
    TellingMeans(u, MessageIn(h));
    DenoteBefore(Places(v1), Stores(v1), at, before, MessageIn(h));
    FollowsMeans(v, acts, o, data, h.loader);
    FilledTells(v, MadeAcc(SectionOwner, 0, at), Value(u), MessageIn(h));
    TellingMeans(t', MessageIn(h));
    ShowsMore(t, acts, Kid(a, Some(u)), act, t.which, h);
    assert Value(t').accs[|v.accs|] == made;
  }

  lemma OpenTemplate(name: string, body: seq<Action>, at: int, data: seq<byte>, h: Handle)
    requires RegularAt(Template(name, body), at, data, h.loader) && Roomy(h)
    ensures Regular(body, at, data, h.loader) && FieldFits(body, at, data, h.loader) && Storable(SectionOwner, 0)
    ensures h.keyId(name) < h.accessors.Length
  {
  }

  lemma KidsAlive(t: Tree)
    ensures forall x :: x in PartsOf(t).accs ==> allocated(x)
    ensures forall x :: x in PartsOf(t).secs ==> allocated(x)
    ensures forall k, x :: k in t.kids && x in PartsOfKid(k).accs ==> allocated(x)
    ensures forall k, x :: k in t.kids && x in PartsOfKid(k).secs ==> allocated(x)
    ensures forall k :: k in t.kids ==> allocated(k.a)
    ensures forall x :: x in OwnerOf(t.s) ==> allocated(x)
  {
    TreeExists(t);
    forall k | k in t.kids
      ensures forall x :: x in PartsOfKid(k).accs ==> allocated(x)
      ensures forall x :: x in PartsOfKid(k).secs ==> allocated(x)
    {
      KidExists(k);
    }
  }

  /** The new section is ready to be filled. */
  lemma Ready(t: Tree, a: Accessor, name: string, v: Sec, acts: seq<Action>, o: int, data: seq<byte>, h: Handle)
    requires var at, t1 := o + Extents(acts), Extended(t, a, SectionOwner);
             && t.s.h == h && !h.partial && h.buffer.Valid() && Made(a, t.s, name, SectionOwner, 0, at) && 0 <= o
             && Block(t1, false) && Telling(t1, h.buffer.Message()) && Follows(v, acts, o, data, h.loader)
             && Value(t1) == v.(accs := v.accs + [MadeAcc(SectionOwner, 0, at)], field := FieldOf(t1))
             && FieldOf(t1) == v.field && OwnerOffset(t.s) == o
             && (t.which.Some? ==> t.which.value < |t.kids|)
    ensures var at := o + Extents(acts);
            && Chained(t, a, at) && AllCounted(t.s, t.kids) && HasValue(t, v)
            && a.subSection != null && a.subSection.h == h && a.subSection.aclength == null && a.subSection.padding == 0
            && DoublyLinked(a.subSection, []) && OwnerOffset(a.subSection) == at && a.subSection.owner == a
            && Seen(v, at, MessageIn(h))
  {
    hide Block, Follows, Value, DoublyLinked, FieldOf, Places, Stores, Denote, LeafLengths, Total, Extents;
    var at, t1 := o + Extents(acts), Extended(t, a, SectionOwner);
    WaitingNow(t, a, name, v, at);
    BlockPlaces(t1);
    FollowsMeans(v, acts, o, data, h.loader);
    EmptyLast(v, at);
  }

  lemma EmptyLast(v: Sec, at: int)
    ensures Total(LeafLengths(v.(accs := v.accs + [MadeAcc(SectionOwner, 0, at)]))) == Total(LeafLengths(v))
  {
    var made := MadeAcc(SectionOwner, 0, at);
    assert LeafLengthsAcc(made) == [];
    LeafLengthsAppend(v.accs, made);
    assert LeafLengthsAll(v.accs) + [] == LeafLengthsAll(v.accs);
  }

  /** The length fields of the section tell, and lie before at, where an empty section comes. */
  ghost predicate Seen(v: Sec, at: int, data: seq<byte>) {
    var v1 := v.(accs := v.accs + [MadeAcc(SectionOwner, 0, at)]);
    Denote(Places(v1), Stores(v1), data) && forall p :: p in Places(v1) ==> p.at + p.n <= at
  }

  // ---------------------------------------------------------------- a whole message

  /** grib_handle_create, and the creation of a section that is parsed again: all accessors are made, then
      sizes are adjusted.  The message can be resized and padded from then on exactly when the data
      does not go on behind the last accessor. */
  method CreateMessage(acts: seq<Action>, h: Handle) returns (ok: bool, err: int, root: Section, ghost t: Tree)
    requires !h.partial && h.buffer.Valid() && Indexed(h) && h.indexed == [] && Roomy(h)
    requires Regular(acts, 0, h.buffer.Message(), h.loader) && FieldFits(acts, 0, h.buffer.Message(), h.loader)
    modifies h`indexed, h.accessors, h.buffer`data, h.buffer`ulength, h.buffer.data
    ensures Possible(AllCertain(acts), h.buffer, Extents(acts), old(MessageIn(h))) ==> ok
    ensures ok ==>
              && err == GRIB_SUCCESS && fresh(root) && t.s == root && MessageTree(t, h) && Shows(t, acts, h)
              && LeafLengths(Value(t)) == Lens(acts) && root.length == Extents(acts) && MarksBefore(LeafAccs(t))
              && Reached(h.buffer.growable, 0, Extents(acts), old(MessageIn(h)), MessageIn(h))
              && (SoundTree(t, h) <==> |old(MessageIn(h))| <= Extents(acts))
  {
    hide *;
    root := new Section(h, null);
    err := GRIB_SUCCESS;
    ghost var data, update := h.buffer.Message(), if h.loader then 1 else 0;
    MessageIs(h);
    NewRoot(root, h, data);
    ok, t := CreateAll(root, acts, h, 0, data, {});
    if !ok { return; }
    ghost var loader, v, was := h.loader, Value(t), MessageIn(h);
    StageMeans(t, acts, 0, data, h, {});
    WholeBlock(t, acts, data, h);
    WholeAdjusts(v, acts, data, h.loader);
    FollowsMeans(v, acts, 0, data, h.loader);
    ReachedNow(h.buffer, 0, Extents(acts), data);
    TreeExists(t);
    err := AdjustSizes(root, if h.loader then 1 else 0, h, Some(t));
    MessageIs(h);
    WholeAdjusted(v, FieldLeaves(t), update, was, MessageIn(h));
    ReachedStill(h.buffer.growable, Extents(acts), data, was, MessageIn(h));
    WholeSound(t, h, acts);
    MarkedIsBefore(LeafAccs(t));
  }

  lemma NewRoot(root: Section, h: Handle, data: seq<byte>)
    requires root.h == h && root.owner == null && root.first == null && root.last == null && h.buffer.Valid()
    requires h.indexed == [] && data == h.buffer.Message()
    ensures DoublyLinked(root, []) && OwnerOffset(root) == 0 && Ahead(0, data, h.buffer.Message()) && Findable(h, {})
    ensures |data| == h.buffer.ulength && OwnerOf(root) == {}
  {
  }

  lemma WholeBlock(t: Tree, acts: seq<Action>, data: seq<byte>, h: Handle)
    requires Built(t, acts, 0, data, h) && t.s.owner == null
    ensures Linked(t, h) && Distinct(t) && Shaped(t) && LengthLeaves(Value(t), FieldLeaves(t))
    ensures OffsetsMatch(Value(t), 0, 1, false) && Readable(Value(t), MessageIn(h))
    ensures Follows(Value(t), acts, 0, data, h.loader)
    ensures PartsOfOpt(Some(t)) == PartsOf(t)
  {
    hide Block, Linked, Distinct, Shaped, BlocksDistinct, Widths, Value, LengthLeaves, FieldLeaves, OffsetsMatch,
      Places, Stores, Denote, Apart, Follows, Indexed, NewLength, LastInStep;
    BlockMakesTree(t, false);
    LeavesOfFields(t);
    FieldsApart(Value(t), FieldLeaves(t), 0, false);
    TellingMeans(t, MessageIn(h));
  }

  /** Sizes can be adjusted. */
  lemma WholeAdjusts(v: Sec, acts: seq<Action>, data: seq<byte>, loader: bool)
    requires Follows(v, acts, 0, data, loader) && FieldFits(acts, 0, data, loader) && OffsetsMatch(v, 0, 1, false)
    ensures var r := Adjust(v, 0, if loader then 1 else 0, false);
            && r.err == GRIB_SUCCESS && r.state.length == Extents(acts)
  {
    hide Adjust, OffsetsMatch, Follows, FieldFits, FieldsFit, FieldsHold, Modest, NewLength, Extents, LeafLengths,
      Total, Lens;
    GoodBody(v, acts, 0, data, loader);
    AdjustSucceedsIff(v, 0, if loader then 1 else 0, false);
    NewLengthTotal(v);
    if loader {
      HoldsFits(v, 1);
    } else {
      ModestReadsRight(v, 0);
      ReadingFits(v);
    }
  }

  lemma WholeAdjusted(v: Sec, fl: seq<nat>, update: nat, was: seq<byte>, now: seq<byte>)
    requires var r := Adjust(v, 0, update, false); r.err == GRIB_SUCCESS && Rewritten(v, r.state, was, now)
    requires OffsetsMatch(v, 0, 1, false) && LengthLeaves(v, fl) && Readable(v, was)
    ensures var v' := Adjust(v, 0, update, false).state;
            && OffsetsMatch(v', 0, 1, false) && LengthLeaves(v', fl) && LeafLengths(v') == LeafLengths(v)
            && Readable(v', now) && |now| == |was|
  {
    hide FieldsFit, NewLength, Adjust, OffsetsMatch, LeafLengths, LeafOffsets, Places, Stores, Denote, Apart, Total;
    var v' := Adjust(v, 0, update, false).state;
    AdjustKeepsOffsets(v, 0, update, false);
    AdjustKeepsLeaves(v, 0, update, false);
    AdjustSucceedsIff(v, 0, update, false);
    AdjustKeepsPlaces(v, 0, update, false);
    forall i | 0 <= i < |fl|
      ensures LeafOffsets(v')[fl[i]] == LeafOffsets(v)[fl[i]]
    {
      MatchedOffsets(v, 0, false, fl[i]);
      MatchedOffsets(v', 0, false, fl[i]);
    }
  }

  lemma ReachedStill(growable: bool, end: int, was: seq<byte>, mids: seq<byte>, now: seq<byte>)
    requires Reached(growable, 0, end, was, mids) && |now| == |mids|
    ensures Reached(growable, 0, end, was, now)
    ensures |now| == end <==> |was| <= end
  {
  }

  lemma WholeSound(t: Tree, h: Handle, acts: seq<Action>)
    requires Linked(t, h) && Distinct(t) && Shaped(t) && t.s.owner == null && h.buffer.Valid() && !h.partial
    requires LengthLeaves(Value(t), FieldLeaves(t)) && OffsetsMatch(Value(t), 0, 1, false)
    requires Readable(Value(t), MessageIn(h)) && LeafLengths(Value(t)) == Lens(acts)
    ensures MessageTree(t, h) && (SoundTree(t, h) <==> |MessageIn(h)| == Extents(acts))
    ensures Value(t).length == t.s.length
  {
    hide Linked, Distinct, Shaped, Value, LengthLeaves, FieldLeaves, OffsetsMatch, Readable, LeafLengths, Total,
      Lens, Widths, Extents;
    WidthsOfLeaves(t);
    LensTotal(acts);
    assert Value(t).length == t.s.length by { LengthOfValue(t); }
  }

  lemma LengthOfValue(t: Tree)
    ensures Value(t).length == t.s.length
  {
  }
}
