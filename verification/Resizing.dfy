/** Resizing a padding in a message of linked objects, and the loop that restores preferred sizes
    (src/grib_buffer.cc, src/grib_accessor_class.cc). */
module Resizing {
  import opened Results
  import opened Layout
  import opened Sections
  import opened Paddings
  import opened PaddingOrder

  // ---------------------------------------------------------------- the way to a leaf

  /** The blocks on the way from the root to leaf k, outermost first, each of them from the accessor
      on through which the way leads. */
  ghost function Way(t: Tree, k: nat): (w: seq<seq<Kid>>)
    requires k < |LeafAccs(t)|
    ensures w != [] && forall d :: 0 <= d < |w| ==> w[d] != []
    decreases t, 1
  {
    WayAll(t.kids, k)
  }

  ghost function WayAll(kids: seq<Kid>, k: nat): (w: seq<seq<Kid>>)
    requires k < |LeafAccsAll(kids)|
    ensures w != [] && forall d :: 0 <= d < |w| ==> w[d] != []
    decreases kids, 0
  {
    assert kids decreases to kids[0];
    var here := |LeafAccsKid(kids[0])|;
    if k >= here then WayAll(kids[1..], k - here)
    else if kids[0].sub.None? then [kids]
    else [kids] + Way(kids[0].sub.value, k)
  }

  /** Everything that comes after the leaf, at every level. */
  ghost function Behind(w: seq<seq<Kid>>): set<Accessor>
    requires forall d :: 0 <= d < |w| ==> w[d] != []
  {
    if w == [] then {} else PartsOfAll(w[0][1..]).accs + Behind(w[1..])
  }

  /** The accessor through which the way leads at level d - 1. */
  ghost function Before(w: seq<seq<Kid>>, d: nat): Accessor?
    requires d <= |w| && forall d :: 0 <= d < |w| ==> w[d] != []
  {
    if d == 0 then null else w[d - 1][0].a
  }

  /** A way from section s down to leaf, through the objects in parts. */
  ghost predicate Climbs(w: seq<seq<Kid>>, s: Section, leaf: Accessor, parts: Parts)
    requires forall d :: 0 <= d < |w| ==> w[d] != []
  {
    && w != [] && w[0][0].a.parent == s
    && DistinctAll(w[0]) && Within(PartsOfAll(w[0]), parts)
    && if |w| == 1 then w[0][0].a == leaf
       else
         var sub := w[1][0].a.parent;
         sub.owner == w[0][0].a && Climbs(w[1..], sub, leaf, PartsOfKid(w[0][0]))
  }

  lemma {:induction false} WayClimbs(t: Tree, k: nat)
    requires Distinct(t) && Shaped(t) && k < |LeafAccs(t)|
    ensures Climbs(Way(t, k), t.s, LeafAccs(t)[k], PartsOf(t))
    decreases t, 1
  {
    WayClimbsAll(t.kids, k, t.s);
    Wider(Way(t, k), t.s, LeafAccs(t)[k], PartsOfAll(t.kids), PartsOf(t));
  }

  lemma {:induction false} WayClimbsAll(kids: seq<Kid>, k: nat, s: Section)
    requires DistinctAll(kids) && ShapedAll(kids, s) && k < |LeafAccsAll(kids)|
    ensures Climbs(WayAll(kids, k), s, LeafAccsAll(kids)[k], PartsOfAll(kids))
    decreases kids, 0
  {
    hide Distinct, Shaped, Way, LeafAccs, PartsOf, Climbs;
    assert kids decreases to kids[0];
    var here := |LeafAccsKid(kids[0])|;
    var w, leaf := WayAll(kids, k), LeafAccsAll(kids)[k];
    if k >= here {
      WayClimbsAll(kids[1..], k - here, s);
      Wider(w, s, leaf, PartsOfAll(kids[1..]), PartsOfAll(kids));
    } else if kids[0].sub.Some? {
      var t := kids[0].sub.value;
      WayClimbs(t, k);
      Wider(Way(t, k), t.s, leaf, PartsOf(t), PartsOfKid(kids[0]));
      Deeper(kids, Way(t, k), s, t.s, leaf);
    } else {
      Arrives(kids, s);
    }
  }

  lemma Wider(w: seq<seq<Kid>>, s: Section, leaf: Accessor, parts: Parts, more: Parts)
    requires (forall d :: 0 <= d < |w| ==> w[d] != []) && Climbs(w, s, leaf, parts) && Within(parts, more)
    ensures Climbs(w, s, leaf, more)
  {
  }

  lemma Arrives(kids: seq<Kid>, s: Section)
    requires kids != [] && DistinctAll(kids) && kids[0].a.parent == s
    ensures Climbs([kids], s, kids[0].a, PartsOfAll(kids))
  {
  }

  lemma Deeper(kids: seq<Kid>, w: seq<seq<Kid>>, s: Section, sub: Section, leaf: Accessor)
    requires kids != [] && DistinctAll(kids) && kids[0].a.parent == s && sub.owner == kids[0].a
    requires (forall d :: 0 <= d < |w| ==> w[d] != []) && Climbs(w, sub, leaf, PartsOfKid(kids[0]))
    ensures Climbs([kids] + w, s, leaf, PartsOfAll(kids))
  {
    assert ([kids] + w)[1..] == w;
  }

  /** What the climb relies on at level d. */
  lemma {:induction false} ClimbAt(w: seq<seq<Kid>>, s: Section, leaf: Accessor, parts: Parts, d: nat)
    requires (forall d :: 0 <= d < |w| ==> w[d] != []) && Climbs(w, s, leaf, parts) && d < |w|
    ensures DistinctAll(w[d]) && Within(PartsOfAll(w[d]), parts)
    ensures Behind(w[d + 1..]) <= PartsOfKid(w[d][0]).accs
    ensures w[d][0].a.parent.owner == if d == 0 then s.owner else w[d - 1][0].a
    ensures Behind(w) <= parts.accs && Before(w, |w|) == leaf
  {
    hide PartsOfKid, DistinctKid, DistinctAll;
    if |w| > 1 {
      ClimbAt(w[1..], w[1][0].a.parent, leaf, PartsOfKid(w[0][0]), if d == 0 then 0 else d - 1);
      assert w[1..][|w| - 2] == w[|w| - 1];
      if d > 0 { assert w[1..][d - 1] == w[d] && w[1..][d..] == w[d + 1..]; }
    }
  }

  lemma {:induction false} WayLinked(t: Tree, k: nat, h: Handle)
    requires Linked(t, h) && k < |LeafAccs(t)|
    ensures forall d :: 0 <= d < |Way(t, k)| ==> LinkedAll(Way(t, k)[d], h)
    decreases t, 1
  {
    WayLinkedAll(t.kids, k, h);
  }

  lemma {:induction false} WayLinkedAll(kids: seq<Kid>, k: nat, h: Handle)
    requires LinkedAll(kids, h) && k < |LeafAccsAll(kids)|
    ensures forall d :: 0 <= d < |WayAll(kids, k)| ==> LinkedAll(WayAll(kids, k)[d], h)
    decreases kids, 0
  {
    assert kids decreases to kids[0];
    var here := |LeafAccsKid(kids[0])|;
    if k >= here { WayLinkedAll(kids[1..], k - here, h); }
    else if kids[0].sub.Some? { WayLinked(kids[0].sub.value, k, h); }
  }

  // ---------------------------------------------------------------- update_offsets_after

  /** All accessors behind the leaf, in its section and in the sections around it, move by len. */
  method UpdateOffsetsAfter(leaf: Accessor, len: int, ghost h: Handle, ghost t: Tree, ghost k: nat)
    requires Linked(t, h) && Distinct(t) && Shaped(t) && t.s.owner == null
    requires k < |LeafAccs(t)| && leaf == LeafAccs(t)[k]
    modifies PartsOf(t).accs`offset
    ensures forall x :: x in PartsOf(t).accs ==>
              x.offset == old(OffsetsOf(PartsOf(t).accs))[x] + if x in Behind(Way(t, k)) then len else 0
  {
    hide Linked, Distinct, Shaped, PartsOf, Way, LeafAccs, LinkedAll, DistinctAll, PartsOfAll, PartsOfKid,
      Climbs;
    ghost var w, offsets := Way(t, k), OffsetsOf(PartsOf(t).accs);
    ghost var d := |w|;
    var a: Accessor? := leaf;
    WayClimbs(t, k);
    ClimbAt(w, t.s, leaf, PartsOf(t), 0);
    TreeExists(t);
    while a != null
      invariant 0 <= d <= |w| && a == Before(w, d)
      invariant Linked(t, h)
      invariant forall x :: x in PartsOf(t).accs ==>
                  x.offset == offsets[x] + if x in Behind(w[d..]) then len else 0
      decreases d
    {
      WayLinked(t, k, h);
      d := d - 1;
      ClimbAt(w, t.s, leaf, PartsOf(t), d);
      MoveSiblings(a, len, h, w[d], PartsOf(t).accs);
      assert w[d..][0] == w[d] && w[d..][1..] == w[d + 1..];
      a := a.parent.owner;
    }
    assert w[0..] == w;
  }

  method MoveSiblings(a: Accessor, len: int, ghost h: Handle, ghost kids: seq<Kid>, ghost all: set<Accessor>)
    requires kids != [] && a == kids[0].a && LinkedAll(kids, h) && DistinctAll(kids)
    requires PartsOfAll(kids).accs <= all
    modifies all`offset
    ensures PartsOfAll(kids[1..]).accs !! PartsOfKid(kids[0]).accs
    ensures forall x :: x in all ==>
              x.offset == old(OffsetsOf(all))[x] + if x in PartsOfAll(kids[1..]).accs then len else 0
  {
    KidsExist(kids[1..]);
    UpdateOffsets(a.next, len, h, kids[1..]);
  }

  // ---------------------------------------------------------------- offsets and lengths, detached

  /** Offsets and lengths of accessors, as they were at some time. */
  datatype Positions = Positions(off: map<Accessor, int>, len: map<Accessor, nat>) {
    function Off(a: Accessor): int { if a in off then off[a] else 0 }
    function Len(a: Accessor): nat { if a in len then len[a] else 0 }
  }

  ghost function PositionsNow(accs: set<Accessor>): (p: Positions)
    reads accs`offset, accs`length
    ensures forall a :: a in accs ==> p.Off(a) == a.offset && p.Len(a) == a.length
  {
    Positions(map a | a in accs :: a.offset, map a | a in accs :: a.length)
  }

  /** The value of the tree if offsets and lengths of its accessors were these. */
  ghost function ValueWith(t: Tree, p: Positions): Sec
    reads PartsOf(t).secs`padding, PartsOf(t).secs`length, PartsOf(t).secs`stored
    decreases t, 1
  {
    Sec(ValuesWith(t.kids, p), FieldOf(t), t.s.padding, t.s.length)
  }

  ghost function KidWith(k: Kid, p: Positions): Acc
    reads PartsOfKid(k).secs`padding, PartsOfKid(k).secs`length, PartsOfKid(k).secs`stored
    decreases k
  {
    Acc(p.Off(k.a), p.Len(k.a), if k.sub.None? then None else Some(ValueWith(k.sub.value, p)))
  }

  ghost function ValuesWith(kids: seq<Kid>, p: Positions): seq<Acc>
    reads PartsOfAll(kids).secs`padding, PartsOfAll(kids).secs`length, PartsOfAll(kids).secs`stored
    decreases kids, 0
  {
    if kids == [] then [] else [KidWith(kids[0], p)] + ValuesWith(kids[1..], p)
  }

  lemma {:induction false} ValueWithNow(t: Tree, p: Positions)
    requires forall a :: a in PartsOf(t).accs ==> p.Off(a) == a.offset && p.Len(a) == a.length
    ensures ValueWith(t, p) == Value(t)
    decreases t, 1
  {
    ValuesWithNow(t.kids, p);
  }

  lemma {:induction false} ValuesWithNow(kids: seq<Kid>, p: Positions)
    requires forall a :: a in PartsOfAll(kids).accs ==> p.Off(a) == a.offset && p.Len(a) == a.length
    ensures ValuesWith(kids, p) == ValueAll(kids)
    decreases kids, 0
  {
    if kids != [] {
      ValueKidWithNow(kids[0], p);
      ValuesWithNow(kids[1..], p);
    }
  }

  lemma {:induction false} ValueKidWithNow(k: Kid, p: Positions)
    requires forall a :: a in PartsOfKid(k).accs ==> p.Off(a) == a.offset && p.Len(a) == a.length
    ensures KidWith(k, p) == ValueKid(k)
    decreases k
  {
    if k.sub.Some? { ValueWithNow(k.sub.value, p); }
  }

  /** Every accessor moved by delta. */
  lemma {:induction false} MovedWith(t: Tree, p: Positions, q: Positions, delta: int)
    requires forall a :: a in PartsOf(t).accs ==> q.Off(a) == p.Off(a) + delta && q.Len(a) == p.Len(a)
    ensures ValueWith(t, q) == Moved(ValueWith(t, p), delta)
    decreases t, 1
  {
    MovedWithAll(t.kids, p, q, delta);
  }

  lemma {:induction false} MovedWithAll(kids: seq<Kid>, p: Positions, q: Positions, delta: int)
    requires forall a :: a in PartsOfAll(kids).accs ==> q.Off(a) == p.Off(a) + delta && q.Len(a) == p.Len(a)
    ensures ValuesWith(kids, q) == MovedAll(ValuesWith(kids, p), delta)
    decreases kids, 0
  {
    if kids != [] {
      MovedKidWith(kids[0], p, q, delta);
      MovedWithAll(kids[1..], p, q, delta);
    }
  }

  lemma {:induction false} MovedKidWith(k: Kid, p: Positions, q: Positions, delta: int)
    requires forall a :: a in PartsOfKid(k).accs ==> q.Off(a) == p.Off(a) + delta && q.Len(a) == p.Len(a)
    ensures KidWith(k, q) == MovedAcc(KidWith(k, p), delta)
    decreases k
  {
    if k.sub.Some? { MovedWith(k.sub.value, p, q, delta); }
  }

  lemma {:induction false} SameWith(t: Tree, p: Positions, q: Positions)
    requires forall a :: a in PartsOf(t).accs ==> q.Off(a) == p.Off(a) && q.Len(a) == p.Len(a)
    ensures ValueWith(t, q) == ValueWith(t, p)
    decreases t, 1
  {
    SameWithAll(t.kids, p, q);
  }

  lemma {:induction false} SameWithAll(kids: seq<Kid>, p: Positions, q: Positions)
    requires forall a :: a in PartsOfAll(kids).accs ==> q.Off(a) == p.Off(a) && q.Len(a) == p.Len(a)
    ensures ValuesWith(kids, q) == ValuesWith(kids, p)
    decreases kids, 0
  {
    if kids != [] {
      SameKidWith(kids[0], p, q);
      SameWithAll(kids[1..], p, q);
    }
  }

  lemma {:induction false} SameKidWith(k: Kid, p: Positions, q: Positions)
    requires forall a :: a in PartsOfKid(k).accs ==> q.Off(a) == p.Off(a) && q.Len(a) == p.Len(a)
    ensures KidWith(k, q) == KidWith(k, p)
    decreases k
  {
    if k.sub.Some? { SameWith(k.sub.value, p, q); }
  }

  lemma {:induction false} LeavesWith(t: Tree, p: Positions)
    ensures forall a :: a in LeafAccs(t) ==> a in PartsOf(t).accs
    ensures |LeafLengths(ValueWith(t, p))| == |LeafAccs(t)|
    ensures forall i :: 0 <= i < |LeafAccs(t)| ==> LeafLengths(ValueWith(t, p))[i] == p.Len(LeafAccs(t)[i])
    decreases t, 1
  {
    LeavesWithAll(t.kids, p);
  }

  lemma {:induction false} LeavesWithAll(kids: seq<Kid>, p: Positions)
    ensures forall a :: a in LeafAccsAll(kids) ==> a in PartsOfAll(kids).accs
    ensures |LeafLengthsAll(ValuesWith(kids, p))| == |LeafAccsAll(kids)|
    ensures forall i :: 0 <= i < |LeafAccsAll(kids)| ==>
              LeafLengthsAll(ValuesWith(kids, p))[i] == p.Len(LeafAccsAll(kids)[i])
    decreases kids, 0
  {
    if kids != [] {
      LeavesKidWith(kids[0], p);
      LeavesWithAll(kids[1..], p);
    }
  }

  lemma {:induction false} LeavesKidWith(k: Kid, p: Positions)
    ensures forall a :: a in LeafAccsKid(k) ==> a in PartsOfKid(k).accs
    ensures |LeafLengthsAcc(KidWith(k, p))| == |LeafAccsKid(k)|
    ensures forall i :: 0 <= i < |LeafAccsKid(k)| ==> LeafLengthsAcc(KidWith(k, p))[i] == p.Len(LeafAccsKid(k)[i])
    decreases k
  {
    if k.sub.Some? { LeavesWith(k.sub.value, p); }
  }

  /** Leaf k has its new length and everything behind it has moved by the difference. */
  ghost predicate Grown(accs: set<Accessor>, leaf: Accessor, behind: set<Accessor>, p: Positions, q: Positions, n: nat)
  {
    forall a :: a in accs ==>
      && q.Off(a) == p.Off(a) + (if a in behind then n - p.Len(leaf) else 0)
      && q.Len(a) == if a == leaf then n else p.Len(a)
  }

  /** Which is what resizing means for the value of the tree. */
  lemma {:induction false} ResizedWith(t: Tree, k: nat, p: Positions, q: Positions, n: nat)
    requires Distinct(t) && k < |LeafAccs(t)|
    requires Grown(PartsOf(t).accs, LeafAccs(t)[k], Behind(Way(t, k)), p, q, n)
    ensures k < |LeafLengths(ValueWith(t, p))|
    ensures ValueWith(t, q) == Resized(ValueWith(t, p), k, n)
    decreases t, 1
  {
    ResizedWithAll(t.kids, k, p, q, n);
  }

  lemma {:induction false} ResizedWithAll(kids: seq<Kid>, k: nat, p: Positions, q: Positions, n: nat)
    requires DistinctAll(kids) && k < |LeafAccsAll(kids)|
    requires Grown(PartsOfAll(kids).accs, LeafAccsAll(kids)[k], Behind(WayAll(kids, k)), p, q, n)
    ensures k < |LeafLengthsAll(ValuesWith(kids, p))|
    ensures ValuesWith(kids, q) == ResizedAll(ValuesWith(kids, p), k, n)
    decreases kids, 1
  {
    hide PartsOfKid, LeafAccsKid, LeafLengthsAcc, KidWith, MovedAcc, ResizedAcc, DistinctKid, Grown;
    var kid, leaf := kids[0], LeafAccsAll(kids)[k];
    var here, rest := |LeafAccsKid(kid)|, PartsOfAll(kids[1..]).accs;
    assert PartsOfAll(kids).accs == PartsOfKid(kid).accs + rest;
    LeavesKidWith(kid, p);
    LeavesWithAll(kids[1..], p);
    if k < here {
      ResizedHereWith(kids, k, p, q, n);
    } else {
      WayInside(kids[1..], k - here);
      GrownLater(PartsOfKid(kid).accs, rest, leaf, Behind(WayAll(kids, k)), p, q, n);
      ResizedWithAll(kids[1..], k - here, p, q, n);
      SameKidWith(kid, p, q);
    }
  }

  /** The leaf is in the first kid. */
  lemma {:induction false} ResizedHereWith(kids: seq<Kid>, k: nat, p: Positions, q: Positions, n: nat)
    requires DistinctAll(kids) && kids != [] && k < |LeafAccsKid(kids[0])|
    requires Grown(PartsOfAll(kids).accs, LeafAccsKid(kids[0])[k], Behind(WayAll(kids, k)), p, q, n)
    ensures k < |LeafLengthsAll(ValuesWith(kids, p))|
    ensures ValuesWith(kids, q) == ResizedAll(ValuesWith(kids, p), k, n)
    decreases kids, 0
  {
    hide PartsOfKid, LeafAccsKid, LeafLengthsAcc, KidWith, MovedAcc, ResizedAcc, DistinctKid, Grown,
      LeafAccsAll, WayAll, Behind;
    assert kids decreases to kids[0];
    var kid, leaf, rest := kids[0], LeafAccsKid(kids[0])[k], PartsOfAll(kids[1..]).accs;
    LeavesKidWith(kid, p);
    BehindKid(kids, k);
    WayInsideKid(kid, k);
    GrownHere(PartsOfKid(kid).accs, rest, leaf, BehindIn(kid, k), p, q, n);
    MovedWithAll(kids[1..], p, q, n - p.Len(leaf));
    ResizedKidWith(kid, k, p, q, n);
  }

  lemma GrownHere(here: set<Accessor>, rest: set<Accessor>, leaf: Accessor, inner: set<Accessor>,
                  p: Positions, q: Positions, n: nat)
    requires here !! rest && leaf in here && inner <= here && Grown(here + rest, leaf, rest + inner, p, q, n)
    ensures Grown(here, leaf, inner, p, q, n)
    ensures forall a :: a in rest ==> q.Off(a) == p.Off(a) + (n - p.Len(leaf)) && q.Len(a) == p.Len(a)
  {
  }

  lemma GrownLater(here: set<Accessor>, rest: set<Accessor>, leaf: Accessor, behind: set<Accessor>,
                   p: Positions, q: Positions, n: nat)
    requires here !! rest && leaf in rest && behind <= rest && Grown(here + rest, leaf, behind, p, q, n)
    ensures Grown(rest, leaf, behind, p, q, n)
    ensures forall a :: a in here ==> q.Off(a) == p.Off(a) && q.Len(a) == p.Len(a)
  {
  }

  lemma {:induction false} ResizedKidWith(kid: Kid, k: nat, p: Positions, q: Positions, n: nat)
    requires DistinctKid(kid) && k < |LeafAccsKid(kid)|
    requires Grown(PartsOfKid(kid).accs, LeafAccsKid(kid)[k], BehindIn(kid, k), p, q, n)
    ensures k < |LeafLengthsAcc(KidWith(kid, p))|
    ensures KidWith(kid, q) == ResizedAcc(KidWith(kid, p), k, n)
    decreases kid
  {
    LeavesKidWith(kid, p);
    if kid.sub.Some? {
      var t := kid.sub.value;
      LeavesWith(t, p);
      WayInside(t.kids, k);
      ResizedWith(t, k, p, q, n);
    }
  }

  /** What is behind leaf k of a kid, inside the kid. */
  ghost function BehindIn(kid: Kid, k: nat): set<Accessor>
    requires k < |LeafAccsKid(kid)|
  {
    if kid.sub.None? then {} else Behind(Way(kid.sub.value, k))
  }

  lemma BehindKid(kids: seq<Kid>, k: nat)
    requires kids != [] && k < |LeafAccsKid(kids[0])|
    ensures Behind(WayAll(kids, k)) == PartsOfAll(kids[1..]).accs + BehindIn(kids[0], k)
  {
    if kids[0].sub.None? {
      assert Behind([kids][1..]) == {};
    } else {
      assert WayAll(kids, k)[1..] == Way(kids[0].sub.value, k);
    }
  }

  /** What is behind a leaf is part of the tree. */
  lemma {:induction false} WayInside(kids: seq<Kid>, k: nat)
    requires k < |LeafAccsAll(kids)|
    ensures Behind(WayAll(kids, k)) <= PartsOfAll(kids).accs
    decreases kids, 0
  {
    hide PartsOfKid;
    var here := |LeafAccsKid(kids[0])|;
    if k >= here { WayInside(kids[1..], k - here); }
    else {
      BehindKid(kids, k);
      WayInsideKid(kids[0], k);
    }
  }

  lemma {:induction false} WayInsideKid(kid: Kid, k: nat)
    requires k < |LeafAccsKid(kid)|
    ensures BehindIn(kid, k) <= PartsOfKid(kid).accs
    decreases kid
  {
    if kid.sub.Some? { WayInside(kid.sub.value.kids, k); }
  }
}
