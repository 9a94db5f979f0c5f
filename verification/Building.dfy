/** A block built by factory and push is a tree of the kind that adjusting, moving and padding work on. */
module Building {
  import opened Layout
  import opened LengthFields
  import opened Sections
  import opened Paddings
  import opened Replacing
  import opened Blocks
  import opened Counting
  import opened PaddingOrder
  import opened PaddingLoop

  ghost function AccsOf(kids: seq<Kid>): (r: seq<Accessor>)
    ensures |r| == |kids| && forall i :: 0 <= i < |r| ==> r[i] == kids[i].a
  {
    seq(|kids|, i requires 0 <= i < |kids| => kids[i].a)
  }

  // ---------------------------------------------------------------- no object twice

  /** The section around s. */
  function Up(s: Section): Section? {
    if s.owner == null then null else s.owner.parent
  }

  function Climb(s: Section, n: nat): Section? {
    if n == 0 then s
    else
      var u := Up(s);
      if u == null then null else Climb(u, n - 1)
  }

  lemma {:induction false} ClimbNext(s: Section, n: nat)
    ensures Climb(s, n + 1) == var c := Climb(s, n); if c == null then null else Up(c)
    decreases n
  {
    if n > 0 && Up(s) != null { ClimbNext(Up(s), n - 1); }
  }

  /** The accessors of every block are different ones. */
  ghost predicate BlocksDistinct(t: Tree)
    decreases t, 1
  {
    AllDifferent(t.kids) && BlocksDistinctAll(t.kids)
  }

  ghost predicate AllDifferent(kids: seq<Kid>) {
    forall i, j :: 0 <= i < j < |kids| ==> kids[i].a != kids[j].a
  }

  ghost predicate BlocksDistinctKid(k: Kid)
    decreases k
  {
    k.sub.Some? ==> BlocksDistinct(k.sub.value)
  }

  ghost predicate BlocksDistinctAll(kids: seq<Kid>)
    decreases kids, 0
  {
    kids == [] || (BlocksDistinctKid(kids[0]) && BlocksDistinctAll(kids[1..]))
  }

  /** Climbing from a section of a tree leads to its root, through sections of the tree. */
  lemma {:induction false} Reaches(t: Tree, q: Section) returns (d: nat)
    requires Shaped(t) && q in PartsOf(t).secs
    ensures Climb(q, d) == t.s
    ensures forall e: nat :: e <= d ==> Climb(q, e) in PartsOf(t).secs
    decreases t, 1
  {
    hide PartsOfAll, ShapedAll;
    if q == t.s { return 0; }
    var i;
    d, i := ReachesAll(t.kids, t.s, q);
  }

  /** In a block it leads, at last, to the section below one of the accessors and then to the section
      of the block. */
  lemma {:induction false} ReachesAll(kids: seq<Kid>, s: Section, q: Section) returns (d: nat, i: nat)
    requires ShapedAll(kids, s) && q in PartsOfAll(kids).secs
    ensures d > 0 && Climb(q, d) == s
    ensures forall e: nat :: e < d ==> Climb(q, e) in PartsOfAll(kids).secs
    ensures i < |kids| && kids[i].sub.Some?
    ensures Climb(q, d - 1) == kids[i].sub.value.s && kids[i].sub.value.s.owner == kids[i].a
    decreases kids, 0
  {
    hide PartsOf, Shaped, Climb;
    assert kids decreases to kids[0];
    if q in PartsOfKid(kids[0]).secs {
      var t := kids[0].sub.value;
      d := Reaches(t, q);
      ClimbNext(q, d);
      d, i := d + 1, 0;
    } else {
      d, i := ReachesAll(kids[1..], s, q);
      i := i + 1;
    }
  }

  /** An accessor of a block, or one below it. */
  lemma {:induction false} ParentInside(t: Tree, x: Accessor)
    requires Shaped(t) && x in PartsOf(t).accs
    ensures x.parent in PartsOf(t).secs
    decreases t, 1
  {
    hide PartsOfAll, ShapedAll;
    ParentInsideAll(t.kids, t.s, x);
  }

  lemma {:induction false} ParentInsideAll(kids: seq<Kid>, s: Section, x: Accessor)
    requires ShapedAll(kids, s) && x in PartsOfAll(kids).accs
    ensures (x.parent == s && exists i :: 0 <= i < |kids| && kids[i].a == x) || x.parent in PartsOfAll(kids).secs
    decreases kids, 0
  {
    hide PartsOf, Shaped;
    assert kids decreases to kids[0];
    if x == kids[0].a {
    } else if x in PartsOfKid(kids[0]).accs {
      ParentInside(kids[0].sub.value, x);
    } else {
      ParentInsideAll(kids[1..], s, x);
      if x.parent !in PartsOfAll(kids[1..]).secs {
        var i :| 0 <= i < |kids[1..]| && kids[1..][i].a == x;
        assert kids[i + 1].a == x;
      }
    }
  }

  /** A tree whose blocks hold different accessors and whose root is not met below itself meets no
      object twice. */
  lemma {:induction false} ShapedDistinct(t: Tree)
    requires Shaped(t) && BlocksDistinct(t) && t.s !in PartsOfAll(t.kids).secs
    ensures Distinct(t)
    decreases t, 1
  {
    ShapedDistinctAll(t.kids, t.s);
  }

  lemma {:induction false} ShapedDistinctAll(kids: seq<Kid>, s: Section)
    requires ShapedAll(kids, s) && BlocksDistinctAll(kids) && AllDifferent(kids) && s !in PartsOfAll(kids).secs
    ensures DistinctAll(kids)
    decreases kids, 0
  {
    hide PartsOfKid, ShapedKid, BlocksDistinctKid, DistinctKid;
    if kids != [] {
      ShapedDistinctAll(kids[1..], s);
      KidDistinct(kids[0], s);
      SectionsApart(kids, s);
      AccessorsApart(kids, s);
    }
  }

  lemma {:induction false} KidDistinct(k: Kid, s: Section)
    requires ShapedKid(k) && BlocksDistinctKid(k) && k.a.parent == s && s !in PartsOfKid(k).secs
    ensures DistinctKid(k)
    decreases k
  {
    hide PartsOfAll, ShapedAll, BlocksDistinctAll, DistinctAll;
    if k.sub.Some? {
      var t := k.sub.value;
      if t.s in PartsOfAll(t.kids).secs { NotBelow(t, s); }
      ShapedDistinct(t);
      if k.a in PartsOf(t).accs { ParentInside(t, k.a); }
    }
  }

  /** If a section were met below itself, the section around it would be, too. */
  lemma NotBelow(t: Tree, s: Section)
    requires Shaped(t) && t.s in PartsOfAll(t.kids).secs && Up(t.s) == s
    ensures s in PartsOf(t).secs
  {
    hide PartsOfAll, ShapedAll;
    var d, i := ReachesAll(t.kids, t.s, t.s);
    assert Climb(t.s, 1) == Climb(s, 0) == s;
  }

  /** Two accessors of a block have no section in common below them, ... */
  lemma SectionsApart(kids: seq<Kid>, s: Section)
    requires ShapedAll(kids, s) && AllDifferent(kids) && s !in PartsOfAll(kids).secs && kids != []
    ensures PartsOfKid(kids[0]).secs !! PartsOfAll(kids[1..]).secs
  {
    forall q | q in PartsOfKid(kids[0]).secs
      ensures q !in PartsOfAll(kids[1..]).secs
    {
      if q in PartsOfAll(kids[1..]).secs { OneWayUp(kids, s, q); }
    }
  }

  /** ... because the way up from it is the same one. */
  lemma OneWayUp(kids: seq<Kid>, s: Section, q: Section)
    requires ShapedAll(kids, s) && AllDifferent(kids) && kids != []
    requires q in PartsOfKid(kids[0]).secs && q in PartsOfAll(kids[1..]).secs
    ensures s in PartsOfAll(kids).secs
  {
    hide PartsOf, Shaped, Climb, PartsOfAll;
    var t := kids[0].sub.value;
    var d := Reaches(t, q);
    ClimbNext(q, d);
    var c, i := ReachesAll(kids[1..], s, q);
    BothIn(kids);
    assert kids[1..][i].a == kids[i + 1].a != kids[0].a;
  }

  lemma BothIn(kids: seq<Kid>)
    requires kids != []
    ensures Within(PartsOfKid(kids[0]), PartsOfAll(kids)) && Within(PartsOfAll(kids[1..]), PartsOfAll(kids))
  {
  }

  /** ... and no accessor either. */
  lemma AccessorsApart(kids: seq<Kid>, s: Section)
    requires ShapedAll(kids, s) && AllDifferent(kids) && s !in PartsOfAll(kids).secs && kids != []
    requires PartsOfKid(kids[0]).secs !! PartsOfAll(kids[1..]).secs
    ensures PartsOfKid(kids[0]).accs !! PartsOfAll(kids[1..]).accs
  {
    hide PartsOf, Shaped;
    var k, rest := kids[0], kids[1..];
    assert forall i :: 0 <= i < |rest| ==> rest[i].a == kids[i + 1].a != k.a;
    forall x | x in PartsOfKid(k).accs
      ensures x !in PartsOfAll(rest).accs
    {
      if x in PartsOfAll(rest).accs {
        ParentInsideAll(rest, s, x);
        if x != k.a { ParentInside(k.sub.value, x); }
      }
    }
  }

  // ---------------------------------------------------------------- the block

  /** What has been built below an accessor of section s is a tree whose offsets agree; its bytes may
      not have been counted yet. */
  ghost predicate Pending(k: Kid, s: Section, partial: bool)
    reads PartsOfKid(k).accs, PartsOfKid(k).secs
  {
    && k.a.parent == s && LinkedKid(k, s.h) && ShapedKid(k) && BlocksDistinctKid(k) && WidthsKid(k)
    && (s.owner != null ==> s !in PartsOfKid(k).secs)
    && (k.sub.Some? ==> OffsetsMatch(Value(k.sub.value), k.a.offset, 1, partial))
  }

  ghost predicate WidthsKid(k: Kid)
    reads PartsOfKid(k).accs`length
  {
    k.sub.Some? ==> Widths(k.sub.value)
  }

  /** The accessor that stores the length of the section is one of the block, as wide as it is long. */
  ghost predicate FieldKnown(t: Tree)
    reads t.s`aclength, OwnField(t)`length
  {
    && t.s.aclength == LengthAcc(t)
    && (t.which.Some? ==>
          && t.which.value < |t.kids| && t.kids[t.which.value].sub.None? && LengthAcc(t).padding.Keeps?
          && LengthAcc(t).nbytes == LengthAcc(t).length)
  }

  ghost function OwnField(t: Tree): set<Accessor> {
    if LengthAcc(t) == null then {} else {LengthAcc(t)}
  }

  /** A row of accessors as the factory and the push leave it: well linked and contiguous; the bytes of
      all but the last have been counted. */
  ghost predicate Row(s: Section, kids: seq<Kid>, partial: bool)
    reads *
  {
    && DoublyLinked(s, AccsOf(kids)) && Contiguous(AccsOf(kids), OwnerOffset(s))
    && (forall k :: k in kids ==> Pending(k, s, partial))
    && (forall i :: 0 <= i < |kids| - 1 ==> AccInStep(ValueKid(kids[i]), partial))
  }

  /** The block of a section. */
  ghost predicate Block(t: Tree, partial: bool)
    reads *
  {
    Row(t.s, t.kids, partial) && FieldKnown(t)
  }

  ghost predicate LastInStep(kids: seq<Kid>, partial: bool)
    reads *
  {
    kids != [] ==> AccInStep(ValueKid(kids[|kids| - 1]), partial)
  }

  /** Its pointers are those of a tree that meets no object twice, its stored offsets are the recomputed
      ones, and once the last accessor is counted, its length is where the next accessor would go.  The
      block of a root section is a message. */
  lemma BlockMakesTree(t: Tree, partial: bool)
    requires Block(t, partial)
    ensures Linked(t, t.s.h) && Shaped(t) && Distinct(t) && BlocksDistinct(t) && Widths(t)
    ensures OffsetsMatch(Value(t), OwnerOffset(t.s), 1, partial)
    ensures LastInStep(t.kids, partial) ==>
              OwnerOffset(t.s) + NewLength(Value(t), 1, partial) == End(AccsOf(t.kids), OwnerOffset(t.s))
    ensures t.s.owner == null ==> MessageTree(t, t.s.h)
  {
    hide LinkedAll, ShapedAll, DistinctAll, BlocksDistinctAll, OffsetsMatchAll, NewLengths, ValueAll, PartsOfAll,
      Pending, FieldAccsAll, AccInStep;
    assert t.kids[0..] == t.kids;
    FromKid(t, partial, 0);
    DifferentAccs(t.s, t.kids);
    PendingBlocks(t.s, t.kids, partial);
    ShapedDistinct(t);
  }

  lemma DifferentAccs(s: Section, kids: seq<Kid>)
    requires DoublyLinked(s, AccsOf(kids))
    ensures AllDifferent(kids) && AccsOf(kids)[..0] == []
    ensures s.first == AccAt(kids, 0)
  {
    assert forall i :: 0 <= i < |kids| ==> AccsOf(kids)[i] == kids[i].a;
  }

  lemma {:induction false} PendingBlocks(s: Section, kids: seq<Kid>, partial: bool)
    requires forall k :: k in kids ==> Pending(k, s, partial)
    ensures BlocksDistinctAll(kids) && s !in PartsOfAll(kids).secs
    ensures forall a :: a in FieldAccsAll(kids) ==> a.nbytes == a.length
    decreases |kids|
  {
    hide LinkedKid, ShapedKid, BlocksDistinctKid, OffsetsMatch, NewLength, PartsOfKid, Value, FieldAccsKid, WidthsKid;
    if kids != [] {
      assert kids[0] in kids && Pending(kids[0], s, partial);
      PendingBlocks(s, kids[1..], partial);
      OwnedBelow(kids[0]);
      WidthsBelow(kids[0]);
    }
  }

  lemma WidthsBelow(k: Kid)
    requires WidthsKid(k)
    ensures forall a :: a in FieldAccsKid(k) ==> a.nbytes == a.length
  {
    if k.sub.Some? { FieldsInsideTree(k.sub.value); }
  }

  /** A section below an accessor has an owner. */
  lemma {:induction false} OwnedBelow(k: Kid)
    requires ShapedKid(k)
    ensures forall q :: q in PartsOfKid(k).secs ==> q.owner != null
    decreases k
  {
    if k.sub.Some? { OwnedBelowAll(k.sub.value.kids, k.sub.value.s); }
  }

  lemma {:induction false} OwnedBelowAll(kids: seq<Kid>, s: Section)
    requires ShapedAll(kids, s)
    ensures forall q :: q in PartsOfAll(kids).secs ==> q.owner != null
    decreases kids, 0
  {
    hide PartsOfKid, ShapedKid;
    if kids != [] {
      OwnedBelow(kids[0]);
      OwnedBelowAll(kids[1..], s);
    }
  }

  lemma {:induction false} FromKid(t: Tree, partial: bool, i: nat)
    requires Block(t, partial) && i <= |t.kids|
    ensures var rest, start := t.kids[i..], End(AccsOf(t.kids)[..i], OwnerOffset(t.s));
            && LinkedAll(rest, t.s.h) && ShapedAll(rest, t.s)
            && OffsetsMatchAll(ValueAll(rest), start, 1, partial)
            && (LastInStep(t.kids, partial) ==>
                  start + NewLengths(ValueAll(rest), 1, partial) == End(AccsOf(t.kids), OwnerOffset(t.s)))
    decreases |t.kids| - i
  {
    hide *;
    var rest := t.kids[i..];
    if i < |t.kids| {
      FromKid(t, partial, i + 1);
      KidInBlock(t, partial, i);
      assert rest[0] == t.kids[i] && rest[1..] == t.kids[i + 1..];
      AccAtIs(t.kids, i + 1);
      OneMore(rest, t.s, partial);
    } else {
      NoMore(t.s, t.kids, partial);
    }
  }

  lemma NoMore(s: Section, kids: seq<Kid>, partial: bool)
    ensures AccsOf(kids)[..|kids|] == AccsOf(kids) && kids[|kids|..] == []
    ensures LinkedAll([], s.h) && ShapedAll([], s) && ValueAll([]) == [] && NewLengths([], 1, partial) == 0
    ensures forall o :: OffsetsMatchAll([], o, 1, partial)
  {
  }

  lemma KidInBlock(t: Tree, partial: bool, i: nat)
    requires Block(t, partial) && i < |t.kids|
    ensures t.kids[i].a.next == AccAt(t.kids, i + 1) && Pending(t.kids[i], t.s, partial)
    ensures t.kids[i].a.offset == End(AccsOf(t.kids)[..i], OwnerOffset(t.s))
    ensures End(AccsOf(t.kids)[..i + 1], OwnerOffset(t.s)) == t.kids[i].a.offset + t.kids[i].a.length
    ensures i < |t.kids| - 1 || LastInStep(t.kids, partial) ==> AccInStep(ValueKid(t.kids[i]), partial)
  {
    hide Pending, AccInStep, DoublyLinked, Contiguous, FieldKnown, End, AccAt;
    NextInList(t.s, AccsOf(t.kids), i);
    PlaceInList(AccsOf(t.kids), OwnerOffset(t.s), i);
    AccAtIs(t.kids, i + 1);
  }

  lemma AccAtIs(kids: seq<Kid>, i: nat)
    ensures AccAt(kids, i) == At(AccsOf(kids), i)
    ensures 0 < i <= |kids| ==> AccAt(kids[i - 1..], 1) == AccAt(kids, i)
  {
  }

  lemma NextInList(s: Section, accs: seq<Accessor>, i: nat)
    requires DoublyLinked(s, accs) && i < |accs|
    ensures accs[i].next == At(accs, i + 1)
  {
  }

  lemma PlaceInList(accs: seq<Accessor>, offset: int, i: nat)
    requires Contiguous(accs, offset) && i < |accs|
    ensures accs[i].offset == End(accs[..i], offset)
    ensures End(accs[..i + 1], offset) == accs[i].offset + accs[i].length
  {
    assert accs[..i + 1][i] == accs[i];
  }

  /** An accessor in front of a chain. */
  lemma OneMore(kids: seq<Kid>, s: Section, partial: bool)
    requires kids != [] && Pending(kids[0], s, partial) && kids[0].a.next == AccAt(kids, 1)
    requires LinkedAll(kids[1..], s.h) && ShapedAll(kids[1..], s)
    requires kids[1..] != [] ==> AccInStep(ValueKid(kids[0]), partial)
    requires OffsetsMatchAll(ValueAll(kids[1..]), kids[0].a.offset + kids[0].a.length, 1, partial)
    ensures LinkedAll(kids, s.h) && ShapedAll(kids, s)
    ensures OffsetsMatchAll(ValueAll(kids), kids[0].a.offset, 1, partial)
    ensures AccInStep(ValueKid(kids[0]), partial) ==>
              NewLengths(ValueAll(kids), 1, partial)
              == kids[0].a.length + NewLengths(ValueAll(kids[1..]), 1, partial)
  {
    hide LinkedKid, ShapedKid, OffsetsMatch, NewLength, Value, BlocksDistinctKid, WidthsKid, PartsOfKid;
    var vals := ValueAll(kids);
    assert vals[0] == ValueKid(kids[0]) && vals[1..] == ValueAll(kids[1..]);
    if kids[1..] == [] { assert vals[1..] == []; }
  }

  // ---------------------------------------------------------------- whole messages

  /** The block of a root section, whose length fields hold what its sections say, is a message that can
      be resized and padded, exactly when the buffer ends where the lengths of its leaves say. */
  lemma BuiltIsSound(t: Tree)
    requires Block(t, t.s.h.partial) && t.s.owner == null && t.s.h.buffer.Valid()
    requires Denote(Places(Value(t)), Stores(Value(t)), t.s.h.buffer.Message())
    ensures SoundTree(t, t.s.h) <==> t.s.h.buffer.ulength == Total(LeafLengths(Value(t)))
    ensures LastInStep(t.kids, t.s.h.partial) ==> Total(LeafLengths(Value(t))) == End(AccsOf(t.kids), 0)
  {
    hide Linked, Shaped, Distinct, Widths, Value, Places, Stores, OffsetsMatch, NewLength, LengthLeaves,
      FieldLeaves, Denote, BlocksDistinct, Block, LastInStep, LeafLengths, Total, End, Apart;
    BlockMakesTree(t, t.s.h.partial);
    UpdateIgnoresPartial(Value(t), 1, t.s.h.partial);
    NewLengthTotal(Value(t));
    LeavesOfFields(t);
    FieldsApart(Value(t), FieldLeaves(t), 0, t.s.h.partial);
  }

  /** So is a tiled one. */
  lemma TiledIsSound(t: Tree, h: Handle)
    requires MessageTree(t, h) && Widths(t) && h.buffer.Valid()
    requires Tiled(Value(t), 0) && h.buffer.ulength == t.s.length
    requires Denote(Places(Value(t)), Stores(Value(t)), h.buffer.Message())
    ensures SoundTree(t, h)
  {
    hide Linked, Shaped, Distinct, Widths, Places, Stores, OffsetsMatch, Tiled, LengthLeaves, FieldLeaves, Denote;
    TiledInStep(Value(t), h.partial);
    LeavesOfFields(t);
    FieldsApart(Value(t), FieldLeaves(t), 0, h.partial);
  }
}
