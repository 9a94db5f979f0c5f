/** What resizing an accessor of a laid-out message and restoring preferred sizes mean for the layout
    as a value (src/grib_buffer.cc, src/grib_accessor_class.cc). */
module Paddings {
  import opened Results
  import opened Layout

  // ---------------------------------------------------------------- leaves in document order

  /** Lengths of the accessors without a section below them, in document order. */
  function LeafLengths(s: Sec): seq<nat>
    decreases s, 1
  {
    LeafLengthsAll(s.accs)
  }

  function LeafLengthsAcc(a: Acc): seq<nat>
    decreases a
  {
    if a.sub.None? then [a.length] else LeafLengths(a.sub.value)
  }

  function LeafLengthsAll(accs: seq<Acc>): seq<nat>
    decreases accs, 0
  {
    if accs == [] then [] else LeafLengthsAcc(accs[0]) + LeafLengthsAll(accs[1..])
  }

  /** Leaf k gets length n and all that follows it, at every level, moves by the difference
      (update_offsets_after, then update_size). */
  function Resized(s: Sec, k: nat, n: nat): Sec
    requires k < |LeafLengths(s)|
    decreases s, 1
  {
    s.(accs := ResizedAll(s.accs, k, n))
  }

  function ResizedAcc(a: Acc, k: nat, n: nat): Acc
    requires k < |LeafLengthsAcc(a)|
    decreases a
  {
    if a.sub.None? then a.(length := n) else a.(sub := Some(Resized(a.sub.value, k, n)))
  }

  function ResizedAll(accs: seq<Acc>, k: nat, n: nat): seq<Acc>
    requires k < |LeafLengthsAll(accs)|
    decreases accs, 0
  {
    var here := LeafLengthsAcc(accs[0]);
    if k < |here| then [ResizedAcc(accs[0], k, n)] + MovedAll(accs[1..], n - here[k])
    else [accs[0]] + ResizedAll(accs[1..], k - |here|, n)
  }

  // ---------------------------------------------------------------- resizing keeps the layout in step

  lemma {:induction false} MovedMatches(s: Sec, ownerOffset: int, delta: int, partial: bool)
    ensures NewLength(Moved(s, delta), 1, partial) == NewLength(s, 1, partial)
    ensures LeafLengths(Moved(s, delta)) == LeafLengths(s)
    ensures OffsetsMatch(s, ownerOffset, 1, partial)
        ==> OffsetsMatch(Moved(s, delta), ownerOffset + delta, 1, partial)
    decreases s, 1
  {
    MovedMatchesAll(s.accs, ownerOffset, delta, partial);
  }

  lemma {:induction false} MovedMatchesAll(accs: seq<Acc>, offset: int, delta: int, partial: bool)
    ensures NewLengths(MovedAll(accs, delta), 1, partial) == NewLengths(accs, 1, partial)
    ensures LeafLengthsAll(MovedAll(accs, delta)) == LeafLengthsAll(accs)
    ensures OffsetsMatchAll(accs, offset, 1, partial)
        ==> OffsetsMatchAll(MovedAll(accs, delta), offset + delta, 1, partial)
    decreases accs, 0
  {
    if accs != [] {
      assert accs decreases to accs[0];
      if accs[0].sub.Some? { MovedMatches(accs[0].sub.value, offset, delta, partial); }
      MovedMatchesAll(accs[1..], offset + NewLengthAcc(accs[0], 1, partial), delta, partial);
    }
  }

  lemma {:induction false} ResizedMatches(s: Sec, k: nat, n: nat, ownerOffset: int, partial: bool)
    requires k < |LeafLengths(s)|
    ensures NewLength(Resized(s, k, n), 1, partial) == NewLength(s, 1, partial) + n - LeafLengths(s)[k]
    ensures LeafLengths(Resized(s, k, n)) == LeafLengths(s)[k := n]
    ensures OffsetsMatch(s, ownerOffset, 1, partial)
        ==> OffsetsMatch(Resized(s, k, n), ownerOffset, 1, partial)
    decreases s, 1
  {
    ResizedMatchesAll(s.accs, k, n, ownerOffset, partial);
  }

  lemma {:induction false} ResizedMatchesAll(accs: seq<Acc>, k: nat, n: nat, offset: int, partial: bool)
    requires k < |LeafLengthsAll(accs)|
    ensures NewLengths(ResizedAll(accs, k, n), 1, partial)
         == NewLengths(accs, 1, partial) + n - LeafLengthsAll(accs)[k]
    ensures LeafLengthsAll(ResizedAll(accs, k, n)) == LeafLengthsAll(accs)[k := n]
    ensures OffsetsMatchAll(accs, offset, 1, partial)
        ==> OffsetsMatchAll(ResizedAll(accs, k, n), offset, 1, partial)
    decreases accs, 0
  {
    assert accs decreases to accs[0];
    if k < |LeafLengthsAcc(accs[0])| {
      hide *;
      ResizedAccMatches(accs[0], k, n, offset, partial);
      ResizedHere(accs, k, n, offset, partial);
    } else {
      hide *;
      FirstOf(accs, offset, partial);
      ResizedLater(accs, k, n);
      var here, next := |LeafLengthsAcc(accs[0])|, offset + NewLengthAcc(accs[0], 1, partial);
      UpdateOne(LeafLengthsAcc(accs[0]), LeafLengthsAll(accs[1..]), k, n);
      ResizedMatchesAll(accs[1..], k - here, n, next, partial);
      FrontOf(accs[0], ResizedAll(accs[1..], k - here, n), offset, partial);
    }
  }

  /** The leaf is, or is below, the first accessor. */
  lemma ResizedHere(accs: seq<Acc>, k: nat, n: nat, offset: int, partial: bool)
    requires accs != [] && k < |LeafLengthsAcc(accs[0])|
    requires var a, b := accs[0], ResizedAcc(accs[0], k, n);
             && NewLengthAcc(b, 1, partial) == NewLengthAcc(a, 1, partial) + n - LeafLengthsAcc(a)[k]
             && LeafLengthsAcc(b) == LeafLengthsAcc(a)[k := n]
             && (FirstMatches(a, offset, partial) ==> FirstMatches(b, offset, partial))
    ensures k < |LeafLengthsAll(accs)|
    ensures NewLengths(ResizedAll(accs, k, n), 1, partial)
         == NewLengths(accs, 1, partial) + n - LeafLengthsAll(accs)[k]
    ensures LeafLengthsAll(ResizedAll(accs, k, n)) == LeafLengthsAll(accs)[k := n]
    ensures OffsetsMatchAll(accs, offset, 1, partial)
        ==> OffsetsMatchAll(ResizedAll(accs, k, n), offset, 1, partial)
  {
    hide *;
    var delta := n - LeafLengthsAcc(accs[0])[k];
    FirstOf(accs, offset, partial);
    ResizedFirst(accs, k, n);
    UpdateOne(LeafLengthsAcc(accs[0]), LeafLengthsAll(accs[1..]), k, n);
    MovedMatchesAll(accs[1..], offset + NewLengthAcc(accs[0], 1, partial), delta, partial);
    FrontOf(ResizedAcc(accs[0], k, n), MovedAll(accs[1..], delta), offset, partial);
  }

  lemma {:induction false} ResizedAccMatches(a: Acc, k: nat, n: nat, offset: int, partial: bool)
    requires k < |LeafLengthsAcc(a)|
    ensures NewLengthAcc(ResizedAcc(a, k, n), 1, partial) == NewLengthAcc(a, 1, partial) + n - LeafLengthsAcc(a)[k]
    ensures LeafLengthsAcc(ResizedAcc(a, k, n)) == LeafLengthsAcc(a)[k := n]
    ensures FirstMatches(a, offset, partial) ==> FirstMatches(ResizedAcc(a, k, n), offset, partial)
    decreases a
  {
    hide Resized, OffsetsMatch, NewLength, LeafLengths;
    if a.sub.Some? { ResizedMatches(a.sub.value, k, n, offset, partial); }
  }

  lemma UpdateOne(a: seq<nat>, b: seq<nat>, k: nat, n: nat)
    requires k < |a + b|
    ensures (a + b)[k := n] == if k < |a| then a[k := n] + b else a + b[k - |a| := n]
    ensures (a + b)[k] == if k < |a| then a[k] else b[k - |a|]
  {
  }

  predicate FirstMatches(a: Acc, offset: int, partial: bool) {
    a.offset == offset && (a.sub.Some? ==> OffsetsMatch(a.sub.value, offset, 1, partial))
  }

  /** A block, seen from its first accessor. */
  lemma FirstOf(accs: seq<Acc>, offset: int, partial: bool)
    requires accs != []
    ensures NewLengths(accs, 1, partial) == NewLengthAcc(accs[0], 1, partial) + NewLengths(accs[1..], 1, partial)
    ensures LeafLengthsAll(accs) == LeafLengthsAcc(accs[0]) + LeafLengthsAll(accs[1..])
    ensures OffsetsMatchAll(accs, offset, 1, partial) <==>
              && FirstMatches(accs[0], offset, partial)
              && OffsetsMatchAll(accs[1..], offset + NewLengthAcc(accs[0], 1, partial), 1, partial)
  {
  }

  lemma FrontOf(a: Acc, rest: seq<Acc>, offset: int, partial: bool)
    ensures NewLengths([a] + rest, 1, partial) == NewLengthAcc(a, 1, partial) + NewLengths(rest, 1, partial)
    ensures LeafLengthsAll([a] + rest) == LeafLengthsAcc(a) + LeafLengthsAll(rest)
    ensures OffsetsMatchAll([a] + rest, offset, 1, partial) <==>
              && FirstMatches(a, offset, partial)
              && OffsetsMatchAll(rest, offset + NewLengthAcc(a, 1, partial), 1, partial)
  {
    hide *;
    FirstOf([a] + rest, offset, partial);
    assert ([a] + rest)[1..] == rest;
  }

  lemma ResizedFirst(accs: seq<Acc>, k: nat, n: nat)
    requires accs != [] && k < |LeafLengthsAcc(accs[0])|
    ensures k < |LeafLengthsAll(accs)|
    ensures ResizedAll(accs, k, n)
         == [ResizedAcc(accs[0], k, n)] + MovedAll(accs[1..], n - LeafLengthsAcc(accs[0])[k])
  {
  }

  lemma ResizedLater(accs: seq<Acc>, k: nat, n: nat)
    requires accs != [] && |LeafLengthsAcc(accs[0])| <= k < |LeafLengthsAll(accs)|
    ensures k - |LeafLengthsAcc(accs[0])| < |LeafLengthsAll(accs[1..])|
    ensures ResizedAll(accs, k, n) == [accs[0]] + ResizedAll(accs[1..], k - |LeafLengthsAcc(accs[0])|, n)
  {
  }

  /** Adjusting never touches the length of a leaf, even when it fails half way. */
  lemma {:induction false} AdjustKeepsLeaves(s: Sec, ownerOffset: int, update: nat, partial: bool)
    ensures LeafLengths(Adjust(s, ownerOffset, update, partial).state) == LeafLengths(s)
    decreases s, 1
  {
    WalkKeepsLeaves(s.accs, ownerOffset, if update > 0 then 0 else s.padding, update, partial);
  }

  lemma {:induction false} WalkKeepsLeaves(accs: seq<Acc>, offset: int, length: nat, update: nat, partial: bool)
    ensures LeafLengthsAll(Walk(accs, offset, length, update, partial).accs) == LeafLengthsAll(accs)
    decreases accs, 0
  {
    if accs != [] {
      assert accs decreases to accs[0];
      if accs[0].sub.Some? { AdjustKeepsLeaves(accs[0].sub.value, accs[0].offset, update, partial); }
      var l := AdjustAcc(accs[0], update, partial).state.length;
      WalkKeepsLeaves(accs[1..], offset + l, length + l, update, partial);
    }
  }

  /** In a tiled message one leaf changes its length, what follows is moved, and the sizes are
      adjusted: this succeeds exactly when the fields accept the new lengths, and then the message is
      laid out without gap again, that leaf has its new length, every other leaf its old one. */
  lemma ResizeRetiles(root: Sec, k: nat, n: nat, partial: bool)
    requires Tiled(root, 0) && k < |LeafLengths(root)|
    ensures var r := Adjust(Resized(root, k, n), 0, 1, partial);
            && (r.err == GRIB_SUCCESS <==> FieldsFit(Resized(root, k, n), 1))
            && (r.err == GRIB_SUCCESS ==>
                  && Laid(r.state, 0)
                  && LeafLengths(r.state) == LeafLengths(root)[k := n]
                  && r.state.length == root.length + n - LeafLengths(root)[k])
  {
    TiledIsStable(root, 0, partial);
    AdjustSucceedsIff(root, 0, 1, partial);
    ResizedMatches(root, k, n, 0, partial);
    AdjustSucceedsIff(Resized(root, k, n), 0, 1, partial);
    if Adjust(Resized(root, k, n), 0, 1, partial).err == GRIB_SUCCESS {
      AdjustTiles(Resized(root, k, n), 0, 1, partial);
      AdjustKeepsLeaves(Resized(root, k, n), 0, 1, partial);
    }
  }

  // ---------------------------------------------------------------- where the leaves are

  /** Stored offsets of the leaves, in document order. */
  function LeafOffsets(s: Sec): (r: seq<int>)
    ensures |r| == |LeafLengths(s)|
    decreases s, 1
  {
    LeafOffsetsAll(s.accs)
  }

  function LeafOffsetsAcc(a: Acc): (r: seq<int>)
    ensures |r| == |LeafLengthsAcc(a)|
    decreases a
  {
    if a.sub.None? then [a.offset] else LeafOffsets(a.sub.value)
  }

  function LeafOffsetsAll(accs: seq<Acc>): (r: seq<int>)
    ensures |r| == |LeafLengthsAll(accs)|
    decreases accs, 0
  {
    if accs == [] then [] else LeafOffsetsAcc(accs[0]) + LeafOffsetsAll(accs[1..])
  }

  function Total(lengths: seq<nat>): nat {
    if lengths == [] then 0 else lengths[0] + Total(lengths[1..])
  }

  lemma {:induction false} TotalAppend(a: seq<nat>, b: seq<nat>)
    ensures Total(a + b) == Total(a) + Total(b)
  {
    if a == [] {
      assert a + b == b;
    } else {
      TotalAppend(a[1..], b);
      assert (a + b)[1..] == a[1..] + b;
    }
  }

  lemma {:induction false} NewLengthTotal(s: Sec)
    ensures NewLength(s, 1, false) == Total(LeafLengths(s))
    decreases s, 1
  {
    NewLengthsTotal(s.accs);
  }

  lemma {:induction false} NewLengthsTotal(accs: seq<Acc>)
    ensures NewLengths(accs, 1, false) == Total(LeafLengthsAll(accs))
    decreases accs, 0
  {
    hide NewLength, LeafLengths;
    if accs != [] {
      assert accs decreases to accs[0];
      if accs[0].sub.Some? { NewLengthTotal(accs[0].sub.value); }
      NewLengthsTotal(accs[1..]);
      TotalAppend(LeafLengthsAcc(accs[0]), LeafLengthsAll(accs[1..]));
      if accs[0].sub.None? { assert LeafLengthsAcc(accs[0])[1..] == []; }
    }
  }

  /** When stored offsets agree with the lengths, a leaf starts where the leaves before it end. */
  lemma {:induction false} MatchedOffsets(s: Sec, o: int, partial: bool, k: nat)
    requires OffsetsMatch(s, o, 1, partial) && k < |LeafLengths(s)|
    ensures LeafOffsets(s)[k] == o + Total(LeafLengths(s)[..k])
    decreases s, 1
  {
    MatchedOffsetsAll(s.accs, o, partial, k);
  }

  lemma {:induction false} MatchedOffsetsAll(accs: seq<Acc>, o: int, partial: bool, k: nat)
    requires OffsetsMatchAll(accs, o, 1, partial) && k < |LeafLengthsAll(accs)|
    ensures LeafOffsetsAll(accs)[k] == o + Total(LeafLengthsAll(accs)[..k])
    decreases accs, 0
  {
    assert accs decreases to accs[0];
    var a, here, rest := accs[0], LeafLengthsAcc(accs[0]), LeafLengthsAll(accs[1..]);
    if k < |here| {
      if a.sub.Some? { MatchedOffsets(a.sub.value, o, partial, k); }
      assert (here + rest)[..k] == here[..k];
    } else {
      NewLengthIsTotal(a, partial);
      MatchedOffsetsAll(accs[1..], o + NewLengthAcc(a, 1, partial), partial, k - |here|);
      assert (here + rest)[..k] == here + rest[..k - |here|];
      TotalAppend(here, rest[..k - |here|]);
    }
  }

  lemma NewLengthIsTotal(a: Acc, partial: bool)
    ensures NewLengthAcc(a, 1, partial) == Total(LeafLengthsAcc(a))
  {
    if a.sub.Some? {
      UpdateIgnoresPartial(a.sub.value, 1, partial);
      NewLengthTotal(a.sub.value);
    } else {
      assert LeafLengthsAcc(a)[1..] == [];
    }
  }

  /** Adjusting leaves agreeing offsets alone: when lengths are rewritten, even if one does not fit its
      field; when reading, if it succeeds. */
  lemma {:induction false} AdjustKeepsOffsets(s: Sec, o: int, update: nat, partial: bool)
    requires OffsetsMatch(s, o, 1, partial)
    requires update > 0 || Adjust(s, o, update, partial).err == GRIB_SUCCESS
    ensures OffsetsMatch(Adjust(s, o, update, partial).state, o, 1, partial)
    decreases s, 1
  {
    hide Walk, OffsetsMatchAll;
    WalkKeepsOffsets(s.accs, o, o, if update > 0 then 0 else s.padding, update, partial);
  }

  /** o is where the block should start, offset where the walk is. */
  lemma {:induction false} WalkKeepsOffsets(accs: seq<Acc>, o: int, offset: int, length: nat, update: nat,
                                            partial: bool)
    requires OffsetsMatchAll(accs, o, 1, partial)
    requires (update > 0 && offset == o) || Walk(accs, offset, length, update, partial).err == GRIB_SUCCESS
    ensures OffsetsMatchAll(Walk(accs, offset, length, update, partial).accs, o, 1, partial)
    decreases accs, 0
  {
    hide Walk, Adjust, OffsetsMatch, NewLength, LeafLengths;
    if accs != [] {
      assert accs decreases to accs[0];
      var a, r := accs[0], AdjustAcc(accs[0], update, partial);
      WalkCases(accs, offset, length, update, partial);
      if a.sub.Some? {
        AdjustKeepsOffsets(a.sub.value, o, update, partial);
        AdjustKeepsLeaves(a.sub.value, o, update, partial);
        AdjustSucceedsIff(a.sub.value, o, update, partial);
        if update > 0 {
          UpdateIgnoresPartial(a.sub.value, update, partial);
          UpdateIgnoresPartial(a.sub.value, 1, partial);
        }
      }
      NewLengthIsTotal(a, partial);
      NewLengthIsTotal(r.state, partial);
      if r.err == GRIB_SUCCESS {
        var l := r.state.length;
        WalkKeepsOffsets(accs[1..], o + NewLengthAcc(a, 1, partial), offset + l, length + l, update, partial);
      }
    } else {
      WalkNone(offset, length, update, partial);
    }
  }

  lemma TotalParts(lengths: seq<nat>, k: nat)
    requires k < |lengths|
    ensures Total(lengths[..k]) + lengths[k] + Total(lengths[k + 1..]) == Total(lengths)
    ensures Total(lengths[..k]) + lengths[k] == Total(lengths[..k + 1])
  {
    hide Total;
    assert lengths == lengths[..k] + ([lengths[k]] + lengths[k + 1..]);
    TotalAppend(lengths[..k], [lengths[k]] + lengths[k + 1..]);
    TotalAppend([lengths[k]], lengths[k + 1..]);
    assert lengths[..k + 1] == lengths[..k] + [lengths[k]];
    TotalAppend(lengths[..k], [lengths[k]]);
    TotalOne(lengths[k]);
  }

  lemma TotalOne(n: nat)
    ensures Total([n]) == n
  {
    assert [n][1..] == [];
  }

  /** Where leaf j starts after leaf k got length n. */
  lemma TotalUpdated(lengths: seq<nat>, k: nat, n: nat, j: nat)
    requires k < |lengths| && j <= |lengths|
    ensures Total(lengths[k := n][..j])
         == Total(lengths[..j]) + (if j > k then n - lengths[k] else 0)
  {
    if j <= k {
      assert lengths[k := n][..j] == lengths[..j];
    } else {
      TotalParts(lengths[..j], k);
      TotalParts(lengths[k := n][..j], k);
      assert lengths[..j][..k] == lengths[k := n][..j][..k];
      assert lengths[..j][k + 1..] == lengths[k := n][..j][k + 1..];
    }
  }

  lemma {:induction false} TotalOrder(lengths: seq<nat>, i: nat, j: nat)
    requires i <= j <= |lengths|
    ensures Total(lengths[..i]) <= Total(lengths[..j])
    decreases j - i
  {
    if i < j {
      TotalOrder(lengths, i, j - 1);
      TotalParts(lengths, j - 1);
    }
  }

  // ---------------------------------------------------------------- when the result is tiled

  /** What the fields have to hold depends on the leaves alone. */
  lemma {:induction false} AdjustHolds(s: Sec, ownerOffset: int, update: nat, partial: bool)
    ensures FieldsHold(Adjust(s, ownerOffset, update, partial).state) == FieldsHold(s)
    decreases s, 1
  {
    hide Walk, LeafLengthsAll, NewLengths, FieldsHoldAll;
    var start := if update > 0 then 0 else s.padding;
    var w := Walk(s.accs, ownerOffset, start, update, partial);
    WalkHolds(s.accs, ownerOffset, start, update, partial);
    WalkKeepsLeaves(s.accs, ownerOffset, start, update, partial);
    NewLengthsTotal(s.accs);
    NewLengthsTotal(w.accs);
  }

  lemma {:induction false} WalkHolds(accs: seq<Acc>, offset: int, length: nat, update: nat, partial: bool)
    ensures FieldsHoldAll(Walk(accs, offset, length, update, partial).accs) == FieldsHoldAll(accs)
    decreases accs, 0
  {
    hide Walk, Adjust, FieldsHold;
    if accs != [] {
      assert accs decreases to accs[0];
      WalkCases(accs, offset, length, update, partial);
      if accs[0].sub.Some? { AdjustHolds(accs[0].sub.value, accs[0].offset, update, partial); }
      var l := AdjustAcc(accs[0], update, partial).state.length;
      WalkHolds(accs[1..], offset + l, length + l, update, partial);
    } else {
      WalkNone(offset, length, update, partial);
    }
  }

  /** A length in the range of its field is accepted. */
  lemma {:induction false} HoldsFits(s: Sec, update: nat)
    requires FieldsHold(s)
    ensures FieldsFit(s, update)
    decreases s, 1
  {
    HoldsFitsAll(s.accs, update);
  }

  lemma {:induction false} HoldsFitsAll(accs: seq<Acc>, update: nat)
    requires FieldsHoldAll(accs)
    ensures FieldsFitAll(accs, update)
    decreases accs, 0
  {
    hide FieldsHold, FieldsFit;
    if accs != [] {
      assert accs decreases to accs[0];
      if accs[0].sub.Some? { HoldsFits(accs[0].sub.value, update); }
      HoldsFitsAll(accs[1..], update);
    }
  }

  lemma {:induction false} LaidLengths(s: Sec, o: int)
    requires Laid(s, o)
    ensures NewLength(s, 1, false) == s.length
    decreases s, 1
  {
    LaidLengthsAll(s.accs, o);
  }

  lemma {:induction false} LaidLengthsAll(accs: seq<Acc>, o: int)
    requires LaidAll(accs, o)
    ensures NewLengths(accs, 1, false) == Sum(accs)
    decreases accs, 0
  {
    hide Laid, NewLength;
    if accs != [] {
      assert accs decreases to accs[0];
      if accs[0].sub.Some? { LaidLengths(accs[0].sub.value, o); }
      LaidLengthsAll(accs[1..], o + accs[0].length);
    }
  }

  lemma {:induction false} TiledHolds(s: Sec, o: int)
    requires Laid(s, o) && Told(s) && StoredFits(s)
    ensures FieldsHold(s)
    decreases s, 1
  {
    LaidLengthsAll(s.accs, o);
    TiledHoldsAll(s.accs, o);
  }

  lemma {:induction false} TiledHoldsAll(accs: seq<Acc>, o: int)
    requires LaidAll(accs, o) && ToldAll(accs) && StoredFitsAll(accs)
    ensures FieldsHoldAll(accs)
    decreases accs, 0
  {
    hide Laid, Told, StoredFits, FieldsHold;
    if accs != [] {
      assert accs decreases to accs[0];
      if accs[0].sub.Some? { TiledHolds(accs[0].sub.value, o); }
      TiledHoldsAll(accs[1..], o + accs[0].length);
    }
  }

  /** Offsets that agree before lengths are rewritten agree whatever the update. */
  lemma {:induction false} MatchRewritten(s: Sec, o: int, update: nat, partial: bool)
    requires update > 0
    ensures OffsetsMatch(s, o, update, partial) == OffsetsMatch(s, o, 1, false)
    decreases s, 1
  {
    MatchRewrittenAll(s.accs, o, update, partial);
  }

  lemma {:induction false} MatchRewrittenAll(accs: seq<Acc>, o: int, update: nat, partial: bool)
    requires update > 0
    ensures OffsetsMatchAll(accs, o, update, partial) == OffsetsMatchAll(accs, o, 1, false)
    decreases accs, 0
  {
    hide OffsetsMatch, NewLength;
    if accs != [] {
      assert accs decreases to accs[0];
      if accs[0].sub.Some? {
        MatchRewritten(accs[0].sub.value, o, update, partial);
        UpdateIgnoresPartial(accs[0].sub.value, update, partial);
      }
      MatchRewrittenAll(accs[1..], o + NewLengthAcc(accs[0], 1, false), update, partial);
    }
  }

  /** Whatever an update leaves behind, of a layout whose offsets agree with its leaves, is tiled
      exactly when every length is in the range of its field. */
  lemma AdjustTiledIff(s: Sec, update: nat, partial: bool)
    requires update > 0 && OffsetsMatch(s, 0, 1, partial) && StoredFits(s)
    requires StoredFits(Adjust(s, 0, update, partial).state)
    ensures var s' := Adjust(s, 0, update, partial).state; Tiled(s', 0) <==> FieldsHold(s')
  {
    hide Adjust, Laid, Told, StoredFits, FieldsHold, FieldsFit, OffsetsMatch;
    var r := Adjust(s, 0, update, partial);
    AdjustHolds(s, 0, update, partial);
    MatchRewritten(s, 0, 1, partial);
    MatchRewritten(s, 0, update, partial);
    AdjustSucceedsIff(s, 0, update, partial);
    if r.err == GRIB_SUCCESS {
      AdjustTiles(s, 0, update, partial);
    } else {
      if FieldsHold(s) { HoldsFits(s, update); }
      if Tiled(r.state, 0) { TiledHolds(r.state, 0); }
    }
  }

  // ---------------------------------------------------------------- preferred sizes

  /** None for an accessor that keeps whatever length it has; for a padding, the size it wants,
      which depends on the lengths of what precedes it. */
  type Wish = Option<seq<nat> -> nat>

  function Preferred(wish: Wish, before: seq<nat>, length: nat): nat {
    match wish case None => length case Some(f) => f(before)
  }

  /** Every accessor has its preferred size. */
  ghost predicate Settled(wishes: seq<Wish>, lengths: seq<nat>)
    requires |wishes| == |lengths|
  {
    forall k :: 0 <= k < |lengths| ==> lengths[k] == Preferred(wishes[k], lengths[..k], lengths[k])
  }

  /** The settled lengths, computed from left to right. */
  function Settle(wishes: seq<Wish>, lengths: seq<nat>): (r: seq<nat>)
    requires |wishes| == |lengths|
    ensures |r| == |lengths|
  {
    if lengths == [] then []
    else
      var n := |lengths| - 1;
      var before := Settle(wishes[..n], lengths[..n]);
      before + [Preferred(wishes[n], before, lengths[n])]
  }

  /** They are settled, and the only settled lengths that leave the other accessors alone. */
  lemma {:induction false} SettleUnique(wishes: seq<Wish>, lengths: seq<nat>, other: seq<nat>)
    requires |wishes| == |lengths| == |other|
    ensures Settled(wishes, Settle(wishes, lengths))
    ensures forall k :: 0 <= k < |lengths| && wishes[k].None? ==> Settle(wishes, lengths)[k] == lengths[k]
    ensures Settled(wishes, other) && (forall k :: 0 <= k < |lengths| && wishes[k].None? ==> other[k] == lengths[k])
        ==> other == Settle(wishes, lengths)
  {
    if lengths != [] {
      var n := |lengths| - 1;
      SettleUnique(wishes[..n], lengths[..n], other[..n]);
      var r := Settle(wishes, lengths);
      assert r[..n] == Settle(wishes[..n], lengths[..n]);
      forall k | 0 <= k < |r|
        ensures r[k] == Preferred(wishes[k], r[..k], r[k])
      {
        assert r[..k] == r[..n][..k];
      }
      if Settled(wishes, other) && (forall k :: 0 <= k < |lengths| && wishes[k].None? ==> other[k] == lengths[k]) {
        forall k | 0 <= k < n
          ensures other[..n][k] == Preferred(wishes[..n][k], other[..n][..k], other[..n][k])
        {
          assert other[..k] == other[..n][..k];
        }
        assert other == other[..n] + [other[n]];
      }
    }
  }

  lemma ResizedLeaves(root: Sec, k: nat, n: nat, partial: bool)
    requires k < |LeafLengths(root)|
    ensures LeafLengths(Adjust(Resized(root, k, n), 0, 1, partial).state) == LeafLengths(root)[k := n]
  {
    hide *;
    ResizedMatches(root, k, n, 0, partial);
    AdjustKeepsLeaves(Resized(root, k, n), 0, 1, partial);
  }

  /** The tree after leaves k, k + 1, ... have been given their preferred sizes, one after the other. */
  function Sweep(root: Sec, wishes: seq<Wish>, partial: bool, k: nat): Sec
    requires |wishes| == |LeafLengths(root)| && k <= |wishes|
    decreases |wishes| - k
  {
    if k == |wishes| then root
    else
      var lengths := LeafLengths(root);
      var size := Preferred(wishes[k], lengths[..k], lengths[k]);
      if size == lengths[k] then Sweep(root, wishes, partial, k + 1)
      else
        ResizedLeaves(root, k, size, partial);
        Sweep(Adjust(Resized(root, k, size), 0, 1, partial).state, wishes, partial, k + 1)
  }

  lemma {:induction false} SweepSkips(root: Sec, wishes: seq<Wish>, partial: bool, k: nat, m: nat)
    requires |wishes| == |LeafLengths(root)| && k <= m <= |wishes|
    requires var l := LeafLengths(root); forall j :: k <= j < m ==> l[j] == Preferred(wishes[j], l[..j], l[j])
    ensures Sweep(root, wishes, partial, k) == Sweep(root, wishes, partial, m)
    decreases m - k
  {
    if k < m { SweepSkips(root, wishes, partial, k + 1, m); }
  }

  lemma SweepResizes(root: Sec, wishes: seq<Wish>, partial: bool, k: nat)
    requires |wishes| == |LeafLengths(root)| && k < |wishes|
    requires var l := LeafLengths(root); l[k] != Preferred(wishes[k], l[..k], l[k])
    ensures var l := LeafLengths(root);
            var next := Adjust(Resized(root, k, Preferred(wishes[k], l[..k], l[k])), 0, 1, partial).state;
            && |LeafLengths(next)| == |wishes|
            && Sweep(root, wishes, partial, k) == Sweep(next, wishes, partial, k + 1)
  {
    var l := LeafLengths(root);
    ResizedLeaves(root, k, Preferred(wishes[k], l[..k], l[k]), partial);
  }

  lemma SweepEnds(root: Sec, wishes: seq<Wish>, partial: bool, k: nat)
    requires |wishes| == |LeafLengths(root)| == k
    ensures Sweep(root, wishes, partial, k) == root
  {
  }

  /** The first k lengths are settled, the paddings after them and all other accessors as at the
      start. */
  ghost predicate Progress(wishes: seq<Wish>, start: seq<nat>, lengths: seq<nat>, k: nat) {
    && |wishes| == |start| == |lengths| && k <= |lengths|
    && (forall j :: 0 <= j < k ==> lengths[j] == Preferred(wishes[j], lengths[..j], lengths[j]))
    && (forall j :: 0 <= j < |lengths| && (wishes[j].None? || k <= j) ==> lengths[j] == start[j])
  }

  lemma ProgressStep(wishes: seq<Wish>, start: seq<nat>, lengths: seq<nat>, k: nat)
    requires Progress(wishes, start, lengths, k) && k < |lengths|
    ensures var size := Preferred(wishes[k], lengths[..k], lengths[k]);
            Progress(wishes, start, lengths[k := size], k + 1)
  {
    var size := Preferred(wishes[k], lengths[..k], lengths[k]);
    forall j | 0 <= j <= k
      ensures lengths[k := size][..j] == lengths[..j]
    {
    }
  }

  lemma ProgressOn(wishes: seq<Wish>, start: seq<nat>, lengths: seq<nat>, k: nat, m: nat)
    requires Progress(wishes, start, lengths, k) && m <= |lengths|
    requires forall j :: 0 <= j < m ==> lengths[j] == Preferred(wishes[j], lengths[..j], lengths[j])
    requires m < |lengths| ==> lengths[m] != Preferred(wishes[m], lengths[..m], lengths[m])
    ensures k <= m && Progress(wishes, start, lengths, m)
  {
  }
}
