/** What replacing the bytes of one accessor does to those of all others, length fields included
    (src/grib_buffer.cc, src/grib_accessor_class.cc). */
module Replacing {
  import opened Results
  import opened Bits
  import opened Layout
  import opened LengthFields
  import opened Buffers
  import opened Paddings

  /** Every leaf lies inside the first n bytes. */
  predicate LeavesInside(root: Sec, n: nat) {
    forall k :: 0 <= k < |LeafLengths(root)| ==>
      0 <= LeafOffsets(root)[k] && LeafOffsets(root)[k] + LeafLengths(root)[k] <= n
  }

  /** The bytes leaf k stands for. */
  function LeafBytes(root: Sec, data: seq<byte>, k: nat): seq<byte>
    requires k < |LeafLengths(root)| && LeavesInside(root, |data|)
  {
    data[LeafOffsets(root)[k]..LeafOffsets(root)[k] + LeafLengths(root)[k]]
  }

  /** The message is as long as its leaves and its offsets agree with their lengths. */
  predicate InStep(root: Sec, n: nat, partial: bool) {
    OffsetsMatch(root, 0, 1, partial) && n == Total(LeafLengths(root))
  }

  lemma InStepLeaves(root: Sec, n: nat, partial: bool)
    requires InStep(root, n, partial)
    ensures LeavesInside(root, n)
    ensures forall k :: 0 <= k < |LeafLengths(root)| ==> LeafOffsets(root)[k] == Total(LeafLengths(root)[..k])
  {
    hide Total, LeafLengths, LeafOffsets, OffsetsMatch;
    forall k | 0 <= k < |LeafLengths(root)|
      ensures 0 <= LeafOffsets(root)[k] == Total(LeafLengths(root)[..k])
      ensures LeafOffsets(root)[k] + LeafLengths(root)[k] <= n
    {
      MatchedOffsets(root, 0, partial, k);
      TotalParts(LeafLengths(root), k);
    }
  }

  lemma TiledInStep(root: Sec, partial: bool)
    requires Tiled(root, 0)
    ensures InStep(root, root.length, partial)
  {
    TiledIsStable(root, 0, partial);
    AdjustSucceedsIff(root, 0, 1, partial);
    UpdateIgnoresPartial(root, 1, partial);
    NewLengthTotal(root);
  }

  /** The same, seen from the lengths alone. */
  lemma SplicedLeaf(data: seq<byte>, lengths: seq<nat>, k: nat, p: seq<byte>, j: nat)
    requires |data| == Total(lengths) && k < |lengths| && j < |lengths|
    ensures Total(lengths[..k]) + lengths[k] <= |data| && Total(lengths[..j]) + lengths[j] <= |data|
    ensures var data', l := Spliced(data, Total(lengths[..k]), lengths[k], p), lengths[k := |p|];
            var at, was := Total(l[..j]), Total(lengths[..j]);
            && at + l[j] <= |data'|
            && data'[at..at + l[j]] == if j == k then p else data[was..was + lengths[j]]
  {
    hide Total;
    TotalUpdated(lengths, k, |p|, j);
    TotalParts(lengths, j);
    TotalParts(lengths, k);
    if j < k {
      TotalOrder(lengths, j + 1, k);
    } else if j > k {
      TotalOrder(lengths, k + 1, j);
    }
    SplicedSlice(data, Total(lengths[..k]), lengths[k], p, Total(lengths[..j]), lengths[j]);
  }

  /** A slice beside the replaced stretch, and the stretch itself. */
  lemma SplicedSlice(data: seq<byte>, at: nat, size: nat, p: seq<byte>, from: nat, n: nat)
    requires at + size <= |data| && from + n <= |data|
    ensures var data' := Spliced(data, at, size, p);
            && data'[at..at + |p|] == p
            && (from + n <= at ==> data'[from..from + n] == data[from..from + n])
            && (at + size <= from ==>
                  data'[from + |p| - size..from + |p| - size + n] == data[from..from + n])
  {
  }

  // ---------------------------------------------------------------- length fields among the leaves

  /** fl says which leaves are the length fields of s, in the order of Places. */
  ghost predicate LengthLeaves(s: Sec, fl: seq<nat>) {
    && |fl| == |Places(s)|
    && (forall i, j :: 0 <= i < j < |fl| ==> fl[i] != fl[j])
    && forall i :: 0 <= i < |fl| ==>
         fl[i] < |LeafLengths(s)| && Places(s)[i] == Place(LeafOffsets(s)[fl[i]], LeafLengths(s)[fl[i]])
  }

  /** When offsets agree, different leaves share no octet. */
  lemma LeavesDisjoint(s: Sec, o: int, partial: bool, i: nat, j: nat)
    requires OffsetsMatch(s, o, 1, partial) && i < |LeafLengths(s)| && j < |LeafLengths(s)| && i != j
    ensures Disjoint(Place(LeafOffsets(s)[i], LeafLengths(s)[i]), Place(LeafOffsets(s)[j], LeafLengths(s)[j]))
  {
    hide Total, LeafLengths, LeafOffsets, OffsetsMatch;
    var l := LeafLengths(s);
    MatchedOffsets(s, o, partial, i);
    MatchedOffsets(s, o, partial, j);
    TotalParts(l, i);
    TotalParts(l, j);
    if i < j { TotalOrder(l, i + 1, j); } else { TotalOrder(l, j + 1, i); }
  }

  /** So length fields do not overlap, ... */
  lemma FieldsApart(s: Sec, fl: seq<nat>, o: int, partial: bool)
    requires OffsetsMatch(s, o, 1, partial) && LengthLeaves(s, fl)
    ensures Apart(Places(s))
  {
    hide LeafLengths, LeafOffsets, OffsetsMatch, Places, Disjoint;
    forall i, j | 0 <= i < j < |fl|
      ensures Disjoint(Places(s)[i], Places(s)[j])
    {
      LeavesDisjoint(s, o, partial, fl[i], fl[j]);
    }
  }

  /** ... and rewriting them leaves the bytes of all other leaves alone. */
  lemma OthersKept(s: Sec, fl: seq<nat>, partial: bool, was: seq<byte>, now: seq<byte>, j: nat)
    requires InStep(s, |was|, partial) && LengthLeaves(s, fl) && SameElsewhere(Places(s), was, now)
    requires j < |LeafLengths(s)| && j !in fl
    ensures LeavesInside(s, |was|) && LeafBytes(s, now, j) == LeafBytes(s, was, j)
  {
    hide LeafLengths, LeafOffsets, OffsetsMatch, Places, Disjoint;
    InStepLeaves(s, |was|, partial);
    forall i | 0 <= i < |Places(s)|
      ensures Disjoint(Place(LeafOffsets(s)[j], LeafLengths(s)[j]), Places(s)[i])
    {
      LeavesDisjoint(s, 0, partial, j, fl[i]);
    }
    StretchKept(Places(s), was, now, LeafOffsets(s)[j], LeafLengths(s)[j]);
  }

  // ---------------------------------------------------------------- replacing

  /** Leaf k denotes p, every other leaf that is not a length field the bytes it denoted. */
  ghost predicate Replaced(s: Sec, was: seq<byte>, s': Sec, now: seq<byte>, fl: seq<nat>, k: nat, p: seq<byte>) {
    && k < |LeafLengths(s)| && LeafLengths(s') == LeafLengths(s)[k := |p|]
    && LeavesInside(s, |was|) && LeavesInside(s', |now|)
    && forall j :: 0 <= j < |LeafLengths(s)| && j !in fl ==>
         LeafBytes(s', now, j) == if j == k then p else LeafBytes(s, was, j)
  }

  /** The bytes of leaf k are replaced and the leaf and what follows it are moved to match: the message
      stays in step and every other leaf denotes the bytes it denoted, wherever it has moved to; so
      the length fields can still be read. */
  lemma SpliceKeepsBytes(s: Sec, was: seq<byte>, s': Sec, fl: seq<nat>, k: nat, p: seq<byte>, partial: bool)
    requires InStep(s, |was|, partial) && LengthLeaves(s, fl) && LengthLeaves(s', fl)
    requires k < |LeafLengths(s)| && k !in fl && LeafLengths(s') == LeafLengths(s)[k := |p|]
    requires OffsetsMatch(s', 0, 1, partial) && Stores(s') == Stores(s) && Readable(s, was)
    ensures LeavesInside(s, |was|)
    ensures var now := Spliced(was, LeafOffsets(s)[k], LeafLengths(s)[k], p);
            InStep(s', |now|, partial) && Replaced(s, was, s', now, fl, k, p) && Readable(s', now)
  {
    hide Total, LeafLengths, LeafOffsets, OffsetsMatch, Places, Stores;
    var lengths := LeafLengths(s);
    InStepLeaves(s, |was|, partial);
    var now := Spliced(was, LeafOffsets(s)[k], lengths[k], p);
    SplicedTotal(lengths, k, |p|);
    InStepLeaves(s', |now|, partial);
    forall j | 0 <= j < |lengths|
      ensures LeafBytes(s', now, j) == if j == k then p else LeafBytes(s, was, j)
    {
      SplicedLeaf(was, lengths, k, p, j);
    }
    FieldsApart(s', fl, 0, partial);
    FieldsSpliced(s, was, s', now, fl, k);
  }

  lemma SplicedTotal(lengths: seq<nat>, k: nat, n: nat)
    requires k < |lengths|
    ensures Total(lengths[k := n]) == Total(lengths) + n - lengths[k]
  {
    hide Total;
    TotalUpdated(lengths, k, n, |lengths|);
    assert lengths[..|lengths|] == lengths && lengths[k := n][..|lengths|] == lengths[k := n];
  }

  lemma FieldsSpliced(s: Sec, was: seq<byte>, s': Sec, now: seq<byte>, fl: seq<nat>, k: nat)
    requires LengthLeaves(s, fl) && LengthLeaves(s', fl) && k !in fl && Denote(Places(s), Stores(s), was)
    requires k < |LeafLengths(s)| == |LeafLengths(s')| && Stores(s') == Stores(s)
    requires forall j :: 0 <= j < |LeafLengths(s)| && j != k ==> LeafLengths(s')[j] == LeafLengths(s)[j]
    requires LeavesInside(s, |was|) && LeavesInside(s', |now|)
    requires forall j :: 0 <= j < |LeafLengths(s)| && j != k ==> LeafBytes(s', now, j) == LeafBytes(s, was, j)
    ensures Denote(Places(s'), Stores(s'), now)
  {
    hide LeafLengths, LeafOffsets, Places, Stores, LeavesInside, NatOf;
    forall i | 0 <= i < |fl|
      ensures Inside(Places(s')[i], |now|)
      ensures NatOf(now[Places(s')[i].at..Places(s')[i].at + Places(s')[i].n]) == Stores(s')[i]
    {
      FieldSpliced(s, was, s', now, fl, k, i);
    }
  }

  lemma FieldSpliced(s: Sec, was: seq<byte>, s': Sec, now: seq<byte>, fl: seq<nat>, k: nat, i: nat)
    requires LengthLeaves(s, fl) && LengthLeaves(s', fl) && i < |fl| && fl[i] != k && Denote(Places(s), Stores(s), was)
    requires |LeafLengths(s)| == |LeafLengths(s')| && Stores(s') == Stores(s)
    requires LeafLengths(s')[fl[i]] == LeafLengths(s)[fl[i]]
    requires LeavesInside(s, |was|) && LeavesInside(s', |now|)
    requires LeafBytes(s', now, fl[i]) == LeafBytes(s, was, fl[i])
    ensures var p := Places(s')[i]; Inside(p, |now|) && NatOf(now[p.at..p.at + p.n]) == Stores(s')[i]
  {
    hide LeafLengths, LeafOffsets, Places, Stores, NatOf;
    assert Inside(Places(s)[i], |was|);
    assert LeafBytes(s, was, fl[i]) == was[Places(s)[i].at..Places(s)[i].at + Places(s)[i].n];
  }

  /** Then sizes are adjusted, which rewrites length fields and nothing else. */
  lemma AdjustKeepsBytes(s: Sec, fl: seq<nat>, update: nat, partial: bool, was: seq<byte>, now: seq<byte>)
    requires update > 0 && InStep(s, |was|, partial) && LengthLeaves(s, fl) && Readable(s, was)
    requires Rewritten(s, Adjust(s, 0, update, partial).state, was, now)
    ensures var s' := Adjust(s, 0, update, partial).state;
            && InStep(s', |now|, partial) && LengthLeaves(s', fl) && Readable(s', now)
            && LeafLengths(s') == LeafLengths(s) && LeavesInside(s, |was|) && LeavesInside(s', |now|)
            && forall j :: 0 <= j < |LeafLengths(s)| && j !in fl ==> LeafBytes(s', now, j) == LeafBytes(s, was, j)
  {
    hide Total, LeafLengths, LeafOffsets, OffsetsMatch, Places, Stores, Adjust, Apart, Denote, SameElsewhere;
    var s' := Adjust(s, 0, update, partial).state;
    AdjustKeepsOffsets(s, 0, update, partial);
    AdjustKeepsLeaves(s, 0, update, partial);
    MatchRewritten(s, 0, 1, partial);
    MatchRewritten(s, 0, update, partial);
    AdjustKeepsPlaces(s, 0, update, partial);
    SameSize(Places(s), was, now);
    InStepLeaves(s, |was|, partial);
    InStepLeaves(s', |now|, partial);
    assert LeafOffsets(s') == LeafOffsets(s);
    forall j | 0 <= j < |LeafLengths(s)| && j !in fl
      ensures LeafBytes(s', now, j) == LeafBytes(s, was, j)
    {
      OthersKept(s, fl, partial, was, now, j);
    }
  }

  lemma SameSize(places: seq<Place>, was: seq<byte>, now: seq<byte>)
    requires SameElsewhere(places, was, now)
    ensures |was| == |now|
  {
  }

  lemma ResizedReadable(s: Sec, was: seq<byte>, mid: Sec, fl: seq<nat>, k: nat, p: seq<byte>, partial: bool)
    requires InStep(s, |was|, partial) && LengthLeaves(s, fl) && LengthLeaves(mid, fl) && Readable(s, was)
    requires k < |LeafLengths(s)| && k !in fl && mid == Resized(s, k, |p|) && Stores(mid) == Stores(s)
    ensures LeavesInside(s, |was|)
    ensures Readable(mid, Spliced(was, LeafOffsets(s)[k], LeafLengths(s)[k], p))
  {
    hide LeafLengths, LeafOffsets, LengthLeaves, Readable, Resized, Stores, LeafBytes, Spliced, OffsetsMatch;
    ResizedMatches(s, k, |p|, 0, partial);
    SpliceKeepsBytes(s, was, mid, fl, k, p, partial);
  }

  /** Nothing moves when the size stays. */
  lemma SameSizeReplaced(s: Sec, was: seq<byte>, fl: seq<nat>, k: nat, p: seq<byte>, partial: bool)
    requires InStep(s, |was|, partial) && LengthLeaves(s, fl) && Readable(s, was)
    requires k < |LeafLengths(s)| && k !in fl && |p| == LeafLengths(s)[k]
    ensures LeavesInside(s, |was|)
    ensures var now := Spliced(was, LeafOffsets(s)[k], LeafLengths(s)[k], p);
            InStep(s, |now|, partial) && Replaced(s, was, s, now, fl, k, p) && Readable(s, now)
  {
    hide LeafLengths, LeafOffsets, LengthLeaves, Readable, Stores, LeafBytes, Spliced, OffsetsMatch;
    assert LeafLengths(s)[k := |p|] == LeafLengths(s);
    SpliceKeepsBytes(s, was, s, fl, k, p, partial);
  }

  /** Both steps together. */
  lemma ReplaceKeepsBytes(s: Sec, was: seq<byte>, mid: Sec, fl: seq<nat>, k: nat, p: seq<byte>, partial: bool,
                          now: seq<byte>)
    requires InStep(s, |was|, partial) && LengthLeaves(s, fl) && LengthLeaves(mid, fl) && Readable(s, was)
    requires k < |LeafLengths(s)| && k !in fl && mid == Resized(s, k, |p|) && Stores(mid) == Stores(s)
    requires LeavesInside(s, |was|)
    requires Rewritten(mid, Adjust(mid, 0, 1, partial).state,
                       Spliced(was, LeafOffsets(s)[k], LeafLengths(s)[k], p), now)
    ensures var s' := Adjust(mid, 0, 1, partial).state;
            && InStep(s', |now|, partial) && Readable(s', now) && LengthLeaves(s', fl)
            && Replaced(s, was, s', now, fl, k, p)
            && (Tiled(s', 0) <==> FieldsHold(s'))
            && (Adjust(mid, 0, 1, partial).err == GRIB_SUCCESS ==> (Tells(s', now) <==> FieldsHold(s')))
  {
    hide LeafLengths, LeafOffsets, LengthLeaves, Readable, Rewritten, Adjust, Resized, Stores, LeafBytes,
      Spliced, OffsetsMatch, Tiled, Tells, FieldsHold;
    var data := Spliced(was, LeafOffsets(s)[k], LeafLengths(s)[k], p);
    ResizedMatches(s, k, |p|, 0, partial);
    SpliceKeepsBytes(s, was, mid, fl, k, p, partial);
    AdjustKeepsBytes(mid, fl, 1, partial, data, now);
    AdjustedTells(mid, 1, partial, data, now);
  }

  /** Whether the lengths are in range decides whether the result is tiled and its length fields tell
      the lengths. */
  lemma AdjustedTells(s: Sec, update: nat, partial: bool, was: seq<byte>, now: seq<byte>)
    requires update > 0 && OffsetsMatch(s, 0, 1, partial) && Readable(s, was)
    requires Readable(Adjust(s, 0, update, partial).state, now)
    ensures var r := Adjust(s, 0, update, partial);
            && (Tiled(r.state, 0) <==> FieldsHold(r.state))
            && (r.err == GRIB_SUCCESS ==> (Tells(r.state, now) <==> FieldsHold(r.state)))
  {
    hide Readable, Adjust, OffsetsMatch, Tells, Told, FieldsHold, StoredFits, Laid;
    ReadableTells(s, was);
    ReadableTells(Adjust(s, 0, update, partial).state, now);
    AdjustTiledIff(s, update, partial);
    if Adjust(s, 0, update, partial).err == GRIB_SUCCESS { AdjustTiles(s, 0, update, partial); }
  }

  lemma ReadableTells(s: Sec, data: seq<byte>)
    requires Readable(s, data)
    ensures StoredFits(s) && (Tells(s, data) <==> Told(s))
  {
    TellsIffTold(s, data);
  }
}
