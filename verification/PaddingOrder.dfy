/** find_paddings on objects finds what the search over leaf lengths in Paddings finds. */
module PaddingOrder {
  import opened LengthFields
  import opened Sections
  import opened Paddings
  import opened Replacing

  /** Accessors without a section below them, in document order. */
  ghost function LeafAccs(t: Tree): seq<Accessor>
    decreases t, 1
  {
    LeafAccsAll(t.kids)
  }

  ghost function LeafAccsKid(k: Kid): seq<Accessor>
    decreases k
  {
    if k.sub.None? then [k.a] else LeafAccs(k.sub.value)
  }

  ghost function LeafAccsAll(kids: seq<Kid>): seq<Accessor>
    decreases kids, 0
  {
    if kids == [] then [] else LeafAccsKid(kids[0]) + LeafAccsAll(kids[1..])
  }

  ghost function LengthsOf(list: seq<Accessor>): (r: seq<nat>)
    reads (set a | a in list)`length
    ensures |r| == |list| && forall i :: 0 <= i < |r| ==> r[i] == list[i].length
  {
    if list == [] then [] else [list[0].length] + LengthsOf(list[1..])
  }

  lemma LengthsAppend(a: seq<Accessor>, b: seq<Accessor>)
    ensures LengthsOf(a + b) == LengthsOf(a) + LengthsOf(b)
  {
    hide LengthsOf;
  }

  /** The leaf lengths of the tree's value are the lengths of its leaf objects. */
  lemma {:induction false} LeavesOfValue(t: Tree)
    ensures LeafLengths(Value(t)) == LengthsOf(LeafAccs(t))
    decreases t, 1
  {
    LeavesOfValueAll(t.kids);
  }

  lemma {:induction false} LeavesOfValueAll(kids: seq<Kid>)
    ensures LeafLengthsAll(ValueAll(kids)) == LengthsOf(LeafAccsAll(kids))
    decreases kids, 0
  {
    if kids != [] {
      assert kids decreases to kids[0];
      if kids[0].sub.Some? { LeavesOfValue(kids[0].sub.value); }
      LeavesOfValueAll(kids[1..]);
      LengthsAppend(LeafAccsKid(kids[0]), LeafAccsAll(kids[1..]));
    }
  }

  /** What making sections and accessors fixes for good: each accessor knows the section it is in;
      the accessor that owns a section, or stores the length of one, is no padding. */
  ghost predicate Shaped(t: Tree)
    decreases t, 1
  {
    && ShapedAll(t.kids, t.s)
    && (t.which.Some? ==>
          t.which.value < |t.kids| && t.kids[t.which.value].sub.None? && LengthAcc(t).padding.Keeps?)
  }

  ghost predicate ShapedKid(k: Kid)
    decreases k
  {
    k.sub.Some? ==> k.a.padding.Keeps? && k.sub.value.s.owner == k.a && Shaped(k.sub.value)
  }

  ghost predicate ShapedAll(kids: seq<Kid>, s: Section)
    decreases kids, 0
  {
    kids == [] || (kids[0].a.parent == s && ShapedKid(kids[0]) && ShapedAll(kids[1..], s))
  }

  /** The first mismatch, sections below before their owners, is the first leaf in document order
      that has not its preferred size. */
  lemma {:induction false} FoundIsFirstLeaf(t: Tree)
    requires Shaped(t)
    ensures FirstMismatch(PostOrder(t)) == FirstMismatch(LeafAccs(t))
    decreases t, 1
  {
    FoundIsFirstLeafAll(t.kids, t.s);
  }

  lemma {:induction false} FoundIsFirstLeafAll(kids: seq<Kid>, s: Section)
    requires ShapedAll(kids, s)
    ensures FirstMismatch(PostOrderAll(kids)) == FirstMismatch(LeafAccsAll(kids))
    decreases kids, 0
  {
    if kids != [] {
      assert kids decreases to kids[0];
      var k := kids[0];
      FoundIsFirstLeafAll(kids[1..], s);
      MismatchAppend(LeafAccsKid(k), LeafAccsAll(kids[1..]));
      MismatchAppend(PostOrderKid(k), PostOrderAll(kids[1..]));
      if k.sub.Some? {
        FoundIsFirstLeaf(k.sub.value);
        MismatchAppend(PostOrder(k.sub.value), [k.a]);
        assert FirstMismatch([k.a][1..]) == null;
      } else {
        assert [] + [k.a] == [k.a];
      }
    }
  }

  /** Its index; the length of the list if there is none. */
  ghost function Changed(list: seq<Accessor>): (k: nat)
    reads (set a | a in list)`length, (set a | a in list)`offset, (set a | a in list :: a.Mark())`offset
    ensures k <= |list|
    ensures FirstMismatch(list) == if k < |list| then list[k] else null
    ensures forall j :: 0 <= j < k ==> list[j].PreferredSize() == list[j].length
    ensures k < |list| ==> list[k].PreferredSize() != list[k].length
  {
    if list == [] || list[0].PreferredSize() != list[0].length then 0 else Changed(list[1..]) + 1
  }

  // ---------------------------------------------------------------- objects of a tree, once each

  lemma {:induction false} LeavesApart(t: Tree)
    requires Distinct(t)
    ensures forall a :: a in LeafAccs(t) ==> a in PartsOf(t).accs
    ensures forall i, j :: 0 <= i < j < |LeafAccs(t)| ==> LeafAccs(t)[i] != LeafAccs(t)[j]
    decreases t, 1
  {
    LeavesApartAll(t.kids);
  }

  lemma {:induction false} LeavesApartAll(kids: seq<Kid>)
    requires DistinctAll(kids)
    ensures forall a :: a in LeafAccsAll(kids) ==> a in PartsOfAll(kids).accs
    ensures forall i, j :: 0 <= i < j < |LeafAccsAll(kids)| ==> LeafAccsAll(kids)[i] != LeafAccsAll(kids)[j]
    decreases kids, 0
  {
    if kids != [] {
      LeavesApartKid(kids[0]);
      LeavesApartAll(kids[1..]);
      NoneTwice(LeafAccsKid(kids[0]), LeafAccsAll(kids[1..]), PartsOfKid(kids[0]).accs, PartsOfAll(kids[1..]).accs);
    }
  }

  lemma {:induction false} LeavesApartKid(k: Kid)
    requires DistinctKid(k)
    ensures forall a :: a in LeafAccsKid(k) ==> a in PartsOfKid(k).accs
    ensures forall i, j :: 0 <= i < j < |LeafAccsKid(k)| ==> LeafAccsKid(k)[i] != LeafAccsKid(k)[j]
    decreases k
  {
    if k.sub.Some? { LeavesApart(k.sub.value); }
  }

  lemma NoneTwice(a: seq<Accessor>, b: seq<Accessor>, x: set<Accessor>, y: set<Accessor>)
    requires x !! y && (forall c :: c in a ==> c in x) && (forall c :: c in b ==> c in y)
    requires forall i, j :: 0 <= i < j < |a| ==> a[i] != a[j]
    requires forall i, j :: 0 <= i < j < |b| ==> b[i] != b[j]
    ensures forall i, j :: 0 <= i < j < |a + b| ==> (a + b)[i] != (a + b)[j]
  {
    forall i, j | 0 <= i < j < |a + b|
      ensures (a + b)[i] != (a + b)[j]
    {
      if i < |a| <= j { assert a[i] in a && b[j - |a|] in b; }
    }
  }

  // ---------------------------------------------------------------- length fields

  /** The accessors that store the length of a section, in the order of Places. */
  ghost function FieldAccs(t: Tree): seq<Accessor>
    decreases t, 1
  {
    FieldAccsAll(t.kids) + (if LengthAcc(t) == null then [] else [LengthAcc(t)])
  }

  ghost function FieldAccsKid(k: Kid): seq<Accessor>
    decreases k
  {
    if k.sub.None? then [] else FieldAccs(k.sub.value)
  }

  ghost function FieldAccsAll(kids: seq<Kid>): seq<Accessor>
    decreases kids, 0
  {
    if kids == [] then [] else FieldAccsKid(kids[0]) + FieldAccsAll(kids[1..])
  }

  /** Their octets are at their offsets. */
  lemma {:induction false} PlacesOfValue(t: Tree)
    ensures |Places(Value(t))| == |FieldAccs(t)|
    ensures forall i :: 0 <= i < |FieldAccs(t)| ==>
              Places(Value(t))[i] == Place(FieldAccs(t)[i].offset, FieldAccs(t)[i].nbytes)
    decreases t, 1
  {
    hide PlacesAll, FieldAccsAll, ValueAll;
    PlacesOfValueAll(t.kids);
    if LengthAcc(t) != null { ValueSplit(t.kids, t.which.value); }
  }

  lemma {:induction false} PlacesOfValueAll(kids: seq<Kid>)
    ensures |PlacesAll(ValueAll(kids))| == |FieldAccsAll(kids)|
    ensures forall i :: 0 <= i < |FieldAccsAll(kids)| ==>
              PlacesAll(ValueAll(kids))[i] == Place(FieldAccsAll(kids)[i].offset, FieldAccsAll(kids)[i].nbytes)
    decreases kids, 0
  {
    hide Places, FieldAccs, Value;
    if kids != [] {
      assert kids decreases to kids[0];
      if kids[0].sub.Some? { PlacesOfValue(kids[0].sub.value); }
      PlacesOfValueAll(kids[1..]);
      var v := ValueAll(kids);
      assert v[0] == ValueKid(kids[0]) && v[1..] == ValueAll(kids[1..]);
    }
  }

  /** They are among the leaves, know no padding, and none of them is met twice. */
  lemma {:induction false} FieldAccsAreLeaves(t: Tree)
    requires Distinct(t) && Shaped(t)
    ensures forall a :: a in FieldAccs(t) ==> a in LeafAccs(t) && a in PartsOf(t).accs && a.padding.Keeps?
    ensures forall i, j :: 0 <= i < j < |FieldAccs(t)| ==> FieldAccs(t)[i] != FieldAccs(t)[j]
    decreases t, 1
  {
    hide Distinct, PartsOf;
    OpenDistinct(t);
    FieldAccsAreLeavesAll(t.kids, t.s);
    if LengthAcc(t) != null { OwnIsLeaf(t.kids, t.which.value); }
  }

  lemma OpenDistinct(t: Tree)
    requires Distinct(t)
    ensures DistinctAll(t.kids) && PartsOf(t).accs == PartsOfAll(t.kids).accs
  {
  }

  /** An accessor of the block without a section below it is a leaf and stores no length further
      below. */
  lemma {:induction false} OwnIsLeaf(kids: seq<Kid>, i: nat)
    requires DistinctAll(kids) && i < |kids| && kids[i].sub.None?
    ensures kids[i].a in LeafAccsAll(kids) && kids[i].a in PartsOfAll(kids).accs && kids[i].a !in FieldAccsAll(kids)
    decreases i
  {
    hide FieldAccsKid, DistinctKid;
    FieldsInsideAll(kids[1..]);
    FieldsInsideKid(kids[0]);
    if i > 0 { OwnIsLeaf(kids[1..], i - 1); } else { assert FieldAccsKid(kids[0]) == [] by { NoFieldBelow(kids[0]); } }
  }

  lemma NoFieldBelow(k: Kid)
    requires k.sub.None?
    ensures FieldAccsKid(k) == []
  {
  }

  lemma {:induction false} FieldsInsideAll(kids: seq<Kid>)
    ensures forall a :: a in FieldAccsAll(kids) ==> a in PartsOfAll(kids).accs
    decreases kids, 0
  {
    hide FieldAccsKid, PartsOfKid;
    if kids != [] {
      FieldsInsideKid(kids[0]);
      FieldsInsideAll(kids[1..]);
    }
  }

  lemma {:induction false} FieldsInsideKid(k: Kid)
    ensures forall a :: a in FieldAccsKid(k) ==> a in PartsOfKid(k).accs
    decreases k
  {
    if k.sub.Some? { FieldsInsideTree(k.sub.value); }
  }

  lemma {:induction false} FieldsInsideTree(t: Tree)
    ensures forall a :: a in FieldAccs(t) ==> a in PartsOf(t).accs
    decreases t, 1
  {
    hide FieldAccsAll, PartsOfAll;
    FieldsInsideAll(t.kids);
    if LengthAcc(t) != null { KidInside(t.kids, t.which.value); }
  }

  lemma {:induction false} KidInside(kids: seq<Kid>, i: nat)
    requires i < |kids|
    ensures kids[i].a in PartsOfAll(kids).accs
    decreases i
  {
    if i > 0 { KidInside(kids[1..], i - 1); }
  }

  lemma {:induction false} FieldAccsAreLeavesAll(kids: seq<Kid>, s: Section)
    requires DistinctAll(kids) && ShapedAll(kids, s)
    ensures forall a :: a in FieldAccsAll(kids) ==>
              a in LeafAccsAll(kids) && a in PartsOfAll(kids).accs && a.padding.Keeps?
    ensures forall i, j :: 0 <= i < j < |FieldAccsAll(kids)| ==> FieldAccsAll(kids)[i] != FieldAccsAll(kids)[j]
    decreases kids, 0
  {
    hide FieldAccsKid, PartsOfKid, DistinctKid, ShapedKid, LeafAccsKid;
    if kids != [] {
      FieldAccsAreLeavesKid(kids[0]);
      FieldAccsAreLeavesAll(kids[1..], s);
      NoneTwice(FieldAccsKid(kids[0]), FieldAccsAll(kids[1..]), PartsOfKid(kids[0]).accs, PartsOfAll(kids[1..]).accs);
    }
  }

  lemma {:induction false} FieldAccsAreLeavesKid(k: Kid)
    requires DistinctKid(k) && ShapedKid(k)
    ensures forall a :: a in FieldAccsKid(k) ==> a in LeafAccsKid(k) && a in PartsOfKid(k).accs && a.padding.Keeps?
    ensures forall i, j :: 0 <= i < j < |FieldAccsKid(k)| ==> FieldAccsKid(k)[i] != FieldAccsKid(k)[j]
    decreases k
  {
    hide FieldAccs, Distinct, Shaped, LeafAccs;
    if k.sub.Some? { FieldAccsAreLeaves(k.sub.value); }
  }

  /** The first place of an accessor in the list. */
  ghost function IndexOf(list: seq<Accessor>, a: Accessor): (i: nat)
    ensures i <= |list| && (a in list ==> i < |list| && list[i] == a)
  {
    if list == [] || list[0] == a then 0 else IndexOf(list[1..], a) + 1
  }

  /** The length fields as places in the list of leaves. */
  ghost function FieldLeaves(t: Tree): (fl: seq<nat>)
    ensures |fl| == |FieldAccs(t)|
  {
    seq(|FieldAccs(t)|, i requires 0 <= i < |FieldAccs(t)| => IndexOf(LeafAccs(t), FieldAccs(t)[i]))
  }

  /** Every length accessor is as long as the number it stores. */
  ghost predicate Widths(t: Tree)
    reads PartsOf(t).accs`length
  {
    forall a :: a in FieldAccs(t) && a in PartsOf(t).accs ==> a.nbytes == a.length
  }

  /** So the places of the value are leaves of the value. */
  lemma LeavesOfFields(t: Tree)
    requires Distinct(t) && Shaped(t) && Widths(t)
    ensures LengthLeaves(Value(t), FieldLeaves(t))
    ensures forall j :: 0 <= j < |LeafAccs(t)| && !LeafAccs(t)[j].padding.Keeps? ==> j !in FieldLeaves(t)
  {
    hide Distinct, Shaped, LeafAccs, FieldAccs, Value, PartsOf, Places, LeafLengths, LeafOffsets;
    var fl, accs := FieldLeaves(t), FieldAccs(t);
    PlacesOfValue(t);
    LeavesOfValue(t);
    OffsetsOfValue(t);
    FieldAccsAreLeaves(t);
    forall i | 0 <= i < |fl|
      ensures fl[i] < |LeafAccs(t)| && LeafAccs(t)[fl[i]] == accs[i] && accs[i].padding.Keeps?
      ensures accs[i] in PartsOf(t).accs && accs[i].nbytes == accs[i].length
    {
      assert accs[i] in accs;
    }
  }

  /** Stored offsets of the leaf objects. */
  lemma {:induction false} OffsetsOfValue(t: Tree)
    ensures |LeafOffsets(Value(t))| == |LeafAccs(t)|
    ensures forall i :: 0 <= i < |LeafAccs(t)| ==> LeafOffsets(Value(t))[i] == LeafAccs(t)[i].offset
    decreases t, 1
  {
    OffsetsOfValueAll(t.kids);
  }

  lemma {:induction false} OffsetsOfValueAll(kids: seq<Kid>)
    ensures |LeafOffsetsAll(ValueAll(kids))| == |LeafAccsAll(kids)|
    ensures forall i :: 0 <= i < |LeafAccsAll(kids)| ==>
              LeafOffsetsAll(ValueAll(kids))[i] == LeafAccsAll(kids)[i].offset
    decreases kids, 0
  {
    if kids != [] {
      assert kids decreases to kids[0];
      if kids[0].sub.Some? { OffsetsOfValue(kids[0].sub.value); }
      OffsetsOfValueAll(kids[1..]);
    }
  }

  /** The stored numbers do not depend on offsets and lengths of accessors. */
  ghost function StoresOf(t: Tree): seq<nat>
    reads PartsOf(t).secs`stored
    decreases t, 1
  {
    StoresOfAll(t.kids) + OwnStore(FieldOf(t))
  }

  ghost function StoresOfKid(k: Kid): seq<nat>
    reads PartsOfKid(k).secs`stored
    decreases k
  {
    if k.sub.None? then [] else StoresOf(k.sub.value)
  }

  ghost function StoresOfAll(kids: seq<Kid>): seq<nat>
    reads PartsOfAll(kids).secs`stored
    decreases kids, 0
  {
    if kids == [] then [] else StoresOfKid(kids[0]) + StoresOfAll(kids[1..])
  }

  lemma {:induction false} StoresOfValue(t: Tree)
    ensures Stores(Value(t)) == StoresOf(t)
    decreases t, 1
  {
    StoresOfValueAll(t.kids);
  }

  lemma {:induction false} StoresOfValueAll(kids: seq<Kid>)
    ensures StoresAll(ValueAll(kids)) == StoresOfAll(kids)
    decreases kids, 0
  {
    hide Stores, Value, StoresOf;
    if kids != [] {
      assert kids decreases to kids[0];
      if kids[0].sub.Some? { StoresOfValue(kids[0].sub.value); }
      StoresOfValueAll(kids[1..]);
      var v := ValueAll(kids);
      assert v[0] == ValueKid(kids[0]) && v[1..] == ValueAll(kids[1..]);
    }
  }

  /** The leaves say how wide the length fields are. */
  lemma WidthsOfLeaves(t: Tree)
    requires Distinct(t) && Shaped(t) && LengthLeaves(Value(t), FieldLeaves(t))
    ensures Widths(t)
  {
    hide Distinct, Shaped, LeafAccs, FieldAccs, Value, PartsOf, Places, LeafLengths, LeafOffsets;
    var fl, accs := FieldLeaves(t), FieldAccs(t);
    PlacesOfValue(t);
    LeavesOfValue(t);
    FieldAccsAreLeaves(t);
    forall a | a in accs
      ensures a.nbytes == a.length
    {
      var i :| 0 <= i < |accs| && accs[i] == a;
      assert LeafAccs(t)[fl[i]] == a;
    }
  }

  /** t is the tree of objects below the root section of a message. */
  ghost predicate MessageTree(t: Tree, h: Handle)
    reads PartsOf(t).secs`first, PartsOf(t).secs`aclength, PartsOf(t).accs`next, PartsOf(t).accs`subSection
  {
    Linked(t, h) && Distinct(t) && Shaped(t) && t.s.owner == null
  }
}
