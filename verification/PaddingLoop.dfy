/** Replacing the bytes of an accessor, and the loop that restores preferred sizes, on linked objects
    (src/grib_buffer.cc, src/accessor/grib_accessor_class_padding.cc, src/grib_accessor_class.cc). */
module PaddingLoop {
  import opened Results
  import opened Bits
  import opened Layout
  import opened LengthFields
  import opened Buffers
  import opened Sections
  import opened Paddings
  import opened Replacing
  import opened Settling
  import opened PaddingOrder
  import opened Resizing

  /** A message of linked objects in step with its buffer. */
  ghost predicate SoundTree(t: Tree, h: Handle): (sound: bool)
    reads PartsOf(t).secs, PartsOf(t).accs, h.buffer, h.buffer.data
    ensures sound ==> h.buffer.Valid()
  {
    && MessageTree(t, h) && Widths(t) && h.buffer.Valid()
    && InStep(Value(t), |h.buffer.Message()|, h.partial) && Readable(Value(t), h.buffer.Message())
  }

  ghost function MessageOf(t: Tree, h: Handle): Message
    requires h.buffer.Valid()
    reads PartsOf(t).secs, PartsOf(t).accs, h.buffer, h.buffer.data
  {
    Message(Value(t), h.buffer.Message())
  }

  /** What that says about values, and about leaf k. */
  lemma SoundParts(t: Tree, h: Handle)
    requires SoundTree(t, h)
    ensures Sound(MessageOf(t, h), FieldLeaves(t), h.partial) && LeavesInside(Value(t), |h.buffer.Message()|)
    ensures |LeafAccs(t)| == |LeafLengths(Value(t))|
    ensures forall k :: 0 <= k < |LeafAccs(t)| ==>
              && LeafAccs(t)[k] in PartsOf(t).accs
              && LeafAccs(t)[k].offset == LeafOffsets(Value(t))[k] >= 0
              && LeafAccs(t)[k].length == LeafLengths(Value(t))[k]
              && LeafAccs(t)[k].offset + LeafAccs(t)[k].length <= |h.buffer.Message()|
    ensures forall k :: 0 <= k < |LeafAccs(t)| && LeafAccs(t)[k] !in FieldAccs(t) ==> k !in FieldLeaves(t)
  {
    hide Linked, Distinct, Shaped, PartsOf, LeafAccs, Value, LeafLengths, LeafOffsets, FieldAccs, Readable,
      OffsetsMatch;
    LeavesOfFields(t);
    LeavesApart(t);
    LeavesOfValue(t);
    OffsetsOfValue(t);
    InStepLeaves(Value(t), |h.buffer.Message()|, h.partial);
    FieldAccsAreLeaves(t);
    forall k | 0 <= k < |LeafAccs(t)| && LeafAccs(t)[k] !in FieldAccs(t)
      ensures k !in FieldLeaves(t)
    {
      forall i | 0 <= i < |FieldLeaves(t)|
        ensures FieldLeaves(t)[i] != k
      {
        assert FieldAccs(t)[i] in LeafAccs(t);
      }
    }
  }

  /** All offsets from leaf k on are moved and the leaf gets its new length. */
  method Resettle(a: Accessor, newSize: nat, ghost h: Handle, ghost t: Tree, ghost k: nat)
    requires MessageTree(t, h) && k < |LeafAccs(t)| && a == LeafAccs(t)[k] && a in PartsOf(t).accs
    requires Widths(t) && a !in FieldAccs(t)
    modifies PartsOf(t).accs`offset, PartsOf(t).accs`length
    ensures MessageTree(t, h) && Widths(t)
    ensures k < |LeafLengths(old(Value(t)))|
    ensures Value(t) == Resized(old(Value(t)), k, newSize)
  {
    hide Linked, Distinct, Shaped, PartsOf, Way, LeafAccs, FieldAccs, Value, Resized, Grown, ValueWith;
    TreeExists(t);
    ghost var p := PositionsNow(PartsOf(t).accs);
    ValueWithNow(t, p);
    UpdateOffsetsAfter(a, newSize - a.length, h, t, k);
    a.length := newSize;
    ghost var q := PositionsNow(PartsOf(t).accs);
    ValueWithNow(t, q);
    GrownNow(PartsOf(t).accs, a, Behind(Way(t, k)), p, q, newSize);
    ResizedWith(t, k, p, q, newSize);
  }

  lemma GrownNow(accs: set<Accessor>, leaf: Accessor, behind: set<Accessor>, p: Positions, q: Positions, n: nat)
    requires forall a :: a in accs ==>
      && q.Off(a) == p.Off(a) + (if a in behind then n - p.Len(leaf) else 0)
      && q.Len(a) == if a == leaf then n else p.Len(a)
    ensures Grown(accs, leaf, behind, p, q, n)
  {
  }

  /** grib_buffer_replace for an accessor that has no section below it and stores no length, with
      lengths updated and paddings left for later. */
  method Replace(a: Accessor, p: seq<byte>, root: Section, h: Handle, ghost t: Tree, ghost k: nat) returns (err: int)
    requires SoundTree(t, h) && root == t.s && k < |LeafAccs(t)| && a == LeafAccs(t)[k] && a !in FieldAccs(t)
    modifies PartsOf(t).accs`offset, PartsOf(t).accs`length
    modifies PartsOf(t).secs`padding, PartsOf(t).secs`length, PartsOf(t).secs`stored
    modifies h.buffer`data, h.buffer`ulength, h.buffer.data
    ensures SoundTree(t, h) && (h.buffer.data == old(h.buffer.data) || fresh(h.buffer.data))
    ensures Replaced(old(Value(t)), old(h.buffer.Message()), Value(t), h.buffer.Message(), FieldLeaves(t), k, p)
    ensures var r := Adjust(Resized(old(Value(t)), k, |p|), 0, 1, h.partial);
            if |p| == old(a.length) then err == GRIB_SUCCESS && Value(t) == old(Value(t))
            else
              && err == r.err && Value(t) == r.state
              && (Tiled(Value(t), 0) <==> FieldsHold(Value(t)))
              && (err == GRIB_SUCCESS ==> (Tells(Value(t), h.buffer.Message()) <==> FieldsHold(Value(t))))
  {
    hide Linked, Distinct, Shaped, PartsOf, LeafAccs, FieldAccs, Value, Resized, Adjust, Spliced, LeafLengths,
      LeafOffsets, Readable, Rewritten, InStep, LengthLeaves, Replaced, Tiled, Tells, Told, FieldsHold, Laid,
      FieldLeaves, Widths, OffsetsMatch, Stores, LeavesInside;
    ghost var v, was, fl := Value(t), h.buffer.Message(), FieldLeaves(t);
    TreeExists(t);
    SoundParts(t, h);
    StoresOfValue(t);
    h.buffer.Replace(a.offset, a.length, p);
    if |p| != a.length {
      Resettle(a, |p|, h, t, k);
      ghost var mid := Value(t);
      StoresOfValue(t);
      LeavesOfFields(t);
      ResizedReadable(v, was, mid, fl, k, p, h.partial);
      err := AdjustSizes(root, 1, h, Some(t));
      ReplaceKeepsBytes(v, was, mid, fl, k, p, h.partial, h.buffer.Message());
      WidthsOfLeaves(t);
    } else {
      err := GRIB_SUCCESS;
      SameSizeReplaced(v, was, fl, k, p, h.partial);
    }
  }

  /** grib_accessor_padding_t::resize: the padding is filled with zeros. */
  method Resize(a: Accessor, newSize: nat, root: Section, h: Handle, ghost t: Tree, ghost k: nat)
    requires SoundTree(t, h) && root == t.s && k < |LeafAccs(t)| && a == LeafAccs(t)[k] && a !in FieldAccs(t)
    modifies PartsOf(t).accs`offset, PartsOf(t).accs`length
    modifies PartsOf(t).secs`padding, PartsOf(t).secs`length, PartsOf(t).secs`stored
    modifies h.buffer`data, h.buffer`ulength, h.buffer.data
    ensures SoundTree(t, h) && (h.buffer.data == old(h.buffer.data) || fresh(h.buffer.data))
    ensures Replaced(old(Value(t)), old(h.buffer.Message()), Value(t), h.buffer.Message(), FieldLeaves(t), k,
                     Zeros(newSize))
    ensures newSize != old(a.length) ==>
              && Value(t) == Adjust(Resized(old(Value(t)), k, newSize), 0, 1, h.partial).state
              && (Tiled(Value(t), 0) <==> FieldsHold(Value(t)))
    ensures a.length == newSize
  {
    hide Linked, Distinct, Shaped, PartsOf, LeafAccs, FieldAccs, Value, Resized, Adjust, LeafLengths,
      LeafOffsets, SoundTree, Tiled, Tells, FieldsHold, FieldLeaves, Zeros, LeafBytes, LeavesInside;
    var _ := Replace(a, Zeros(newSize), root, h, t, k);
    LeavesOfValue(t);
  }

  // ---------------------------------------------------------------- wishes

  /** What the padding classes want, at any distance from the mark: the length they have; their amount if
      that is not negative; to end at a place, if they start before it; to make the distance even; or to make it
      a multiple, with at least one byte and, unless they start before the mark, at most one multiple more. */
  lemma PreferredMeans(p: Padding, at: int, mark: int, length: nat)
    ensures var n := Wanted(p, at, mark, length);
            && (p.Keeps? ==> n == length)
            && (p.Pad? ==> n == if p.amount >= 0 then p.amount else 0)
            && (p.PadTo? ==> at + n == if at < mark + p.distance then mark + p.distance else at)
            && (p.PadToEven? ==> n <= 1 && (at + n - mark) % 2 == 0)
            && (p.PadToMultiple? ==>
                  && 1 <= n < 2 * p.multiple && (mark <= at ==> n <= p.multiple)
                  && exists q :: at + n - mark == MultipleOf(q, p.multiple))
  {
    if p.PadToMultiple? { MultipleReached(at - mark, p.multiple); }
  }

  lemma MultipleReached(d: int, m: pos)
    ensures var n := ToMultiple(d, m);
            && 1 <= n < 2 * m && (d >= 0 ==> n <= m) && exists q :: d + n == MultipleOf(q, m)
  {
    var up := d + m - 1;
    var q := if up >= 0 then up / m else -(-up / m);
    var n := ToMultiple(d, m);
    QuotientTimes(up, m);
    NegatedTimes(-up / m, m);
    OneMoreTime(q, m);
    MultipleBounds(d, m, q * m, n);
    assert d + n == MultipleOf(q, m) || d + n == MultipleOf(q + 1, m);
  }

  lemma MultipleBounds(d: int, m: pos, p: int, n: int)
    requires n == (if p - d == 0 then m else p - d)
    requires if d + m - 1 >= 0 then d <= p <= d + m - 1 else d + m - 1 <= p < d + m - 1 + m
    ensures 1 <= n < 2 * m && (d >= 0 ==> n <= m)
    ensures d + n == p || d + n == p + m
  {
  }

  lemma OneMoreTime(q: int, m: nat)
    ensures MultipleOf(q, m) == q * m && MultipleOf(q + 1, m) == q * m + m
  {
  }

  lemma NegatedTimes(q: int, m: int)
    ensures (-q) * m == -(q * m)
  {
  }

  function MultipleOf(q: int, m: nat): int { q * m }

  /** Paddings that count from a mark. */
  predicate HasMark(p: Padding) { !p.Keeps? && !p.Pad? }

  /** The preferred size of leaf k as a function of the lengths of the leaves before it. */
  ghost function WishAt(list: seq<Accessor>, k: nat): Wish
    requires k < |list|
  {
    var p := list[k].padding;
    if p.Keeps? then None
    else if p.Pad? then Some(_ => Wanted(p, 0, 0, 0))
    else
      var i := IndexOf(list, p.mark);
      Some((before: seq<nat>) => Wanted(p, Total(before), Total(if i <= |before| then before[..i] else []), 0))
  }

  ghost function WishesOf(list: seq<Accessor>): (r: seq<Wish>)
    ensures |r| == |list|
  {
    seq(|list|, k requires 0 <= k < |list| => WishAt(list, k))
  }

  /** Paddings count from accessors that come before them. */
  ghost predicate MarksBefore(list: seq<Accessor>) {
    forall k :: 0 <= k < |list| && HasMark(list[k].padding) ==>
      list[k].padding.mark in list && IndexOf(list, list[k].padding.mark) <= k
  }

  /** While offsets are the sums of the lengths before them, what an accessor prefers is its wish. */
  lemma PreferredIsWish(list: seq<Accessor>, k: nat)
    requires MarksBefore(list) && k < |list|
    requires forall i :: 0 <= i < |list| ==> list[i].offset == Total(LengthsOf(list)[..i])
    ensures list[k].PreferredSize() == Preferred(WishesOf(list)[k], LengthsOf(list)[..k], list[k].length)
  {
    hide Total, LengthsOf, Wanted;
    var a, l := list[k], LengthsOf(list);
    if HasMark(a.padding) {
      var i := IndexOf(list, a.padding.mark);
      assert l[..k][..i] == l[..i];
      AnyLength(a.padding, a.offset, a.padding.mark.offset, a.length);
    } else {
      NoMark(a);
    }
  }

  lemma NoMark(a: Accessor)
    requires !HasMark(a.padding)
    ensures a.PreferredSize() == if a.padding.Keeps? then a.length else Wanted(a.padding, 0, 0, 0)
  {
  }

  /** A padding does not look at its present length. */
  lemma AnyLength(p: Padding, at: int, mark: int, length: nat)
    requires !p.Keeps?
    ensures Wanted(p, at, mark, length) == Wanted(p, at, mark, 0)
  {
  }

  /** In step, the search on objects finds the first leaf whose length is not its wish. */
  lemma ChangedIsUnsettled(t: Tree, n: nat, partial: bool)
    requires Shaped(t) && InStep(Value(t), n, partial) && MarksBefore(LeafAccs(t))
    ensures var k, l, w := Changed(LeafAccs(t)), LeafLengths(Value(t)), WishesOf(LeafAccs(t));
            && |l| == |w| == |LeafAccs(t)|
            && FirstMismatch(PostOrder(t)) == (if k < |l| then LeafAccs(t)[k] else null)
            && (forall j :: 0 <= j < k ==> l[j] == Preferred(w[j], l[..j], l[j]))
            && (k < |l| ==> l[k] != Preferred(w[k], l[..k], l[k]))
            && (k < |l| ==> LeafAccs(t)[k].PreferredSize() == Preferred(w[k], l[..k], l[k]))
  {
    hide LeafAccs, Value, PostOrder, InStep, Shaped, LeafOffsets, LeafLengths, Preferred, Total, FirstMismatch;
    FoundIsFirstLeaf(t);
    LeavesOfValue(t);
    OffsetsOfValue(t);
    InStepLeaves(Value(t), n, partial);
    var list := LeafAccs(t);
    forall j | 0 <= j < |list|
      ensures list[j].PreferredSize() == Preferred(WishesOf(list)[j], LengthsOf(list)[..j], list[j].length)
    {
      PreferredIsWish(list, j);
    }
  }

  // ---------------------------------------------------------------- grib_update_paddings

  /** All objects the search looks at exist. */
  lemma OrderExists(t: Tree)
    ensures forall a :: a in PostOrder(t) ==> allocated(a) && allocated(a.Mark())
    ensures forall a :: a in LeafAccs(t) ==> allocated(a) && allocated(a.Mark())
    ensures forall a :: a in PartsOf(t).accs ==> allocated(a)
    ensures forall s :: s in PartsOf(t).secs ==> allocated(s)
  {
    TreeExists(t);
    forall a | a in PostOrder(t)
      ensures allocated(a)
    {
      PostOrderComplete(t, a);
    }
    LeavesWith(t, Positions(map[], map[]));
  }

  /** From a state with k leaves settled to the first one that is not. */
  lemma Onward(t: Tree, h: Handle, m0: Message, w: seq<Wish>, k: nat)
    requires SoundTree(t, h) && MarksBefore(LeafAccs(t)) && w == WishesOf(LeafAccs(t))
    requires Swept(m0, FieldLeaves(t), w, h.partial, MessageOf(t, h), k)
    ensures var m := Changed(LeafAccs(t)); k <= m && Swept(m0, FieldLeaves(t), w, h.partial, MessageOf(t, h), m)
    ensures var m := Changed(LeafAccs(t));
            FirstMismatch(PostOrder(t)) == if m < |LeafAccs(t)| then LeafAccs(t)[m] else null
  {
    hide Value, LeafAccs, Shaped, Linked, Distinct, Widths, LeafLengths, Preferred, InStep, MarksBefore,
      Changed, FirstMismatch, PostOrder, WishesOf, LeafOffsets, Progress, Sweep, Sound, SameBytes, FieldLeaves,
      Readable;
    ChangedIsUnsettled(t, |h.buffer.Message()|, h.partial);
    SweptOn(m0, FieldLeaves(t), w, h.partial, MessageOf(t, h), k, Changed(LeafAccs(t)));
  }

  /** The loop is about to resize changed, which is leaf k, or to end. */
  ghost predicate Looping(t: Tree, h: Handle, m0: Message, w: seq<Wish>, changed: Accessor?, k: nat): (looping: bool)
    reads *
    ensures looping ==> SoundTree(t, h)
  {
    && SoundTree(t, h) && MarksBefore(LeafAccs(t)) && w == WishesOf(LeafAccs(t))
    && Swept(m0, FieldLeaves(t), w, h.partial, MessageOf(t, h), k)
    && changed == FirstMismatch(PostOrder(t)) && k == Changed(LeafAccs(t))
    && changed == if k < |LeafAccs(t)| then LeafAccs(t)[k] else null
  }

  /** The search that starts a round, k leaves being settled. */
  method FindChanged(root: Section, h: Handle, ghost t: Tree, ghost m0: Message, ghost w: seq<Wish>, ghost k: nat)
    returns (changed: Accessor?, ghost m: nat)
    requires SoundTree(t, h) && root == t.s && MarksBefore(LeafAccs(t)) && w == WishesOf(LeafAccs(t))
    requires Swept(m0, FieldLeaves(t), w, h.partial, MessageOf(t, h), k)
    ensures k <= m && Looping(t, h, m0, w, changed, m)
  {
    hide Linked, Distinct, Shaped, PartsOf, LeafAccs, Value, Swept, PostOrder, FirstMismatch, WishesOf,
      MarksBefore, Changed, Wanted, InStep, LeafLengths, LeafOffsets, Preferred, FieldLeaves, Readable;
    Onward(t, h, m0, w, k);
    m := Changed(LeafAccs(t));
    OrderExists(t);
    changed := FindPaddings(root, h, Some(t));
  }

  /** What resizing leaf k relies on. */
  lemma Found(t: Tree, h: Handle, m0: Message, w: seq<Wish>, a: Accessor, k: nat)
    requires Looping(t, h, m0, w, a, k)
    ensures k < |LeafAccs(t)| == |LeafLengths(Value(t))| && a == LeafAccs(t)[k] && a !in FieldAccs(t)
    ensures var l := LeafLengths(Value(t));
            && a.length == l[k] && a.PreferredSize() == Preferred(w[k], l[..k], l[k]) != l[k]
    ensures k !in FieldLeaves(t)
  {
    hide Linked, PartsOf, LeafAccs, Value, Swept, PostOrder, FirstMismatch, WishesOf, MarksBefore, Distinct,
      Shaped, Changed, InStep, LeafLengths, LeafOffsets, Preferred, FieldLeaves, Readable, FieldAccs,
      LeavesInside, Widths;
    SoundParts(t, h);
    ChangedIsUnsettled(t, |h.buffer.Message()|, h.partial);
    FieldAccsAreLeaves(t);
  }

  /** One round of the loop. */
  method ResizeFound(a: Accessor, root: Section, h: Handle, ghost t: Tree, ghost m0: Message, ghost w: seq<Wish>,
                     ghost k: nat)
    requires Looping(t, h, m0, w, a, k) && root == t.s
    modifies PartsOf(t).accs`offset, PartsOf(t).accs`length
    modifies PartsOf(t).secs`padding, PartsOf(t).secs`length, PartsOf(t).secs`stored
    modifies h.buffer`data, h.buffer`ulength, h.buffer.data
    ensures SoundTree(t, h) && (h.buffer.data == old(h.buffer.data) || fresh(h.buffer.data))
    ensures Swept(m0, FieldLeaves(t), w, h.partial, MessageOf(t, h), k + 1)
  {
    hide SoundTree, PartsOf, LeafAccs, Value, Resized, Adjust, LeafLengths, LeafOffsets, Swept, Tiled,
      FieldsHold, Replaced, PostOrder, FirstMismatch, WishesOf, MarksBefore, Changed, Wanted, Zeros,
      FieldLeaves, FieldAccs, Preferred, LeavesInside;
    Found(t, h, m0, w, a, k);
    ghost var m := MessageOf(t, h);
    Resize(a, a.PreferredSize(), root, h, t, k);
    SoundParts(t, h);
    SweptStep(m0, FieldLeaves(t), w, h.partial, m, MessageOf(t, h), k);
  }

  ghost function LeafOrNull(t: Tree, i: int): Accessor? {
    if 0 <= i < |LeafAccs(t)| then LeafAccs(t)[i] else null
  }

  lemma LoopStarts(t: Tree, h: Handle)
    requires SoundTree(t, h)
    ensures Swept(MessageOf(t, h), FieldLeaves(t), WishesOf(LeafAccs(t)), h.partial, MessageOf(t, h), 0)
  {
    hide SoundTree, LeafAccs, Value, LeafLengths, LeafOffsets, Swept, WishesOf, FieldLeaves, FieldAccs, Sound,
      LeavesInside;
    SoundParts(t, h);
    SweptStart(MessageOf(t, h), FieldLeaves(t), WishesOf(LeafAccs(t)), h.partial);
  }

  /** The loop goes from left to right and never finds the accessor it has just resized. */
  lemma LoopingFacts(t: Tree, h: Handle, m0: Message, w: seq<Wish>, changed: Accessor, k: nat, last: int)
    requires Looping(t, h, m0, w, changed, k) && last < k
    ensures k < |LeafAccs(t)| && changed == LeafOrNull(t, k) && changed != LeafOrNull(t, last)
    ensures SoundTree(t, h) && MarksBefore(LeafAccs(t)) && w == WishesOf(LeafAccs(t))
  {
    hide Linked, Distinct, Shaped, PartsOf, LeafAccs, Value, Swept, FirstMismatch, MarksBefore, WishesOf,
      Changed, InStep, Readable, Widths;
    LeavesApart(t);
  }

  /** Every accessor has its preferred size, the lengths are the settled ones, and the bytes of
      accessors that are neither paddings nor length fields are those of m0. */
  ghost predicate PaddedOut(t: Tree, h: Handle, m0: Message, w: seq<Wish>): (padded: bool)
    reads PartsOf(t).secs, PartsOf(t).accs, (set a | a in PartsOf(t).accs :: a.Mark()), h.buffer, h.buffer.data
    ensures padded ==> SoundTree(t, h)
  {
    && SoundTree(t, h) && |w| == |LeafLengths(m0.layout)|
    && (forall a :: a in PartsOf(t).accs ==> a.PreferredSize() == a.length)
    && Value(t) == Sweep(m0.layout, w, h.partial, 0)
    && LeafLengths(Value(t)) == Settle(w, LeafLengths(m0.layout))
    && SameBytes(m0, FieldLeaves(t), w, MessageOf(t, h))
    && ((FieldsHold(m0.layout) ==> Tiled(m0.layout, 0)) ==> (Tiled(Value(t), 0) <==> FieldsHold(Value(t))))
    && (Tells(Value(t), h.buffer.Message()) <==> Told(Value(t)))
  }

  lemma Finished(t: Tree, h: Handle, m0: Message, w: seq<Wish>, k: nat)
    requires Looping(t, h, m0, w, null, k)
    ensures PaddedOut(t, h, m0, w)
  {
    hide Value, LeafAccs, LeafLengths, Preferred, InStep, MarksBefore, FirstMismatch, PostOrder, WishesOf,
      Changed, LeafOffsets, Progress, Sweep, SameBytes, PartsOf, Linked, Distinct, Shaped, Widths, FieldLeaves,
      Tiled, Told, Tells, FieldsHold, Sound, Settled, Settle, Readable;
    ChangedIsUnsettled(t, |h.buffer.Message()|, h.partial);
    SweptEnd(m0, FieldLeaves(t), w, h.partial, MessageOf(t, h));
    ReadableTells(Value(t), h.buffer.Message());
    NoMismatchIff(PostOrder(t));
    forall a | a in PartsOf(t).accs
      ensures a.PreferredSize() == a.length
    {
      PostOrderComplete(t, a);
    }
  }

  /** The first accessor that has not its preferred size is resized until there is none.  The source
      aborts when the same accessor is found twice in a row; it never is. */
  method UpdatePaddings(root: Section, h: Handle, ghost t: Tree)
    requires SoundTree(t, h) && root == t.s && MarksBefore(LeafAccs(t))
    modifies PartsOf(t).accs`offset, PartsOf(t).accs`length
    modifies PartsOf(t).secs`padding, PartsOf(t).secs`length, PartsOf(t).secs`stored
    modifies h.buffer`data, h.buffer`ulength, h.buffer.data
    ensures h.buffer.Valid() && (h.buffer.data == old(h.buffer.data) || fresh(h.buffer.data))
    ensures PaddedOut(t, h, old(MessageOf(t, h)), WishesOf(LeafAccs(t)))
  {
    hide SoundTree, PartsOf, LeafAccs, Swept, WishesOf, MarksBefore, Looping, FieldLeaves, MessageOf, PaddedOut;
    ghost var m0, w := MessageOf(t, h), WishesOf(LeafAccs(t));
    LoopStarts(t, h);
    ghost var at: nat, lastAt: int := 0, -1;
    var last: Accessor?, changed: Accessor? := null, null;
    changed, at := FindChanged(root, h, t, m0, w, 0);
    while changed != null
      invariant Looping(t, h, m0, w, changed, at)
      invariant h.buffer.data == old(h.buffer.data) || fresh(h.buffer.data)
      invariant -1 <= lastAt < at && last == LeafOrNull(t, lastAt)
      decreases |LeafAccs(t)| - at
    {
      LoopingFacts(t, h, m0, w, changed, at, lastAt);
      assert changed != last;
      ResizeFound(changed, root, h, t, m0, w, at);
      last, lastAt := changed, at;
      changed, at := FindChanged(root, h, t, m0, w, at + 1);
    }
    Finished(t, h, m0, w, at);
  }

  // ---------------------------------------------------------------- grib_buffer_replace

  /** The bytes of accessors that are neither paddings nor length fields, after leaf k got p. */
  ghost predicate KeptOrReplaced(m0: Message, m: Message, fl: seq<nat>, w: seq<Wish>, k: nat, p: seq<byte>) {
    && |w| == |LeafLengths(m0.layout)| == |LeafLengths(m.layout)|
    && LeavesInside(m0.layout, |m0.data|) && LeavesInside(m.layout, |m.data|)
    && forall j :: 0 <= j < |w| && j !in fl && w[j].None? ==>
         LeafBytes(m.layout, m.data, j) == if j == k then p else LeafBytes(m0.layout, m0.data, j)
  }

  lemma ReplacedThenPadded(m0: Message, m1: Message, m: Message, fl: seq<nat>, w: seq<Wish>, k: nat, p: seq<byte>)
    requires Replaced(m0.layout, m0.data, m1.layout, m1.data, fl, k, p) && SameBytes(m1, fl, w, m)
    ensures KeptOrReplaced(m0, m, fl, w, k, p)
  {
    hide LeafLengths, LeavesInside, LeafBytes;
  }

  /** grib_buffer_replace with lengths updated: the bytes are replaced, what follows moves, sizes are
      adjusted and, if asked for and the size has changed, preferred sizes are restored. */
  method BufferReplace(a: Accessor, p: seq<byte>, updatePaddings: bool, root: Section, h: Handle, ghost t: Tree,
                       ghost k: nat) returns (err: int)
    requires SoundTree(t, h) && root == t.s && k < |LeafAccs(t)| && a == LeafAccs(t)[k] && a !in FieldAccs(t)
    requires updatePaddings ==> MarksBefore(LeafAccs(t))
    modifies PartsOf(t).accs`offset, PartsOf(t).accs`length
    modifies PartsOf(t).secs`padding, PartsOf(t).secs`length, PartsOf(t).secs`stored
    modifies h.buffer`data, h.buffer`ulength, h.buffer.data
    ensures SoundTree(t, h)
    ensures k < |LeafLengths(old(Value(t)))|
    ensures var m0, m, w := old(MessageOf(t, h)), MessageOf(t, h), WishesOf(LeafAccs(t));
            var r := Adjust(Resized(m0.layout, k, |p|), 0, 1, h.partial);
            if |p| == old(a.length) then
              && err == GRIB_SUCCESS && m.layout == m0.layout
              && Replaced(m0.layout, m0.data, m.layout, m.data, FieldLeaves(t), k, p)
            else
              && err == r.err && (Tiled(m.layout, 0) <==> FieldsHold(m.layout))
              && if err != GRIB_SUCCESS || !updatePaddings then
                   m.layout == r.state && Replaced(m0.layout, m0.data, m.layout, m.data, FieldLeaves(t), k, p)
                 else
                   && |w| == |LeafLengths(r.state)| && m.layout == Sweep(r.state, w, h.partial, 0)
                   && (forall x :: x in PartsOf(t).accs ==> x.PreferredSize() == x.length)
                   && KeptOrReplaced(m0, m, FieldLeaves(t), w, k, p)
                   && (Tells(m.layout, m.data) <==> Told(m.layout))
  {
    hide SoundTree, PartsOf, LeafAccs, FieldAccs, LeafLengths, WishesOf, MarksBefore, FieldLeaves, Replaced,
      Value, Resized, Adjust, Tiled, FieldsHold, Sweep, Settle, SameBytes, KeptOrReplaced, Tells, Told;
    ghost var m0 := MessageOf(t, h);
    SoundParts(t, h);
    var increase := |p| - a.length;
    err := Replace(a, p, root, h, t, k);
    if err != GRIB_SUCCESS { return; }
    if increase != 0 && updatePaddings {
      ghost var m1 := MessageOf(t, h);
      UpdatePaddings(root, h, t);
      ReplacedThenPadded(m0, m1, MessageOf(t, h), FieldLeaves(t), WishesOf(LeafAccs(t)), k, p);
    }
  }

  // ---------------------------------------------------------------- grib_update_sections_lengths

  /** All lengths are rewritten, whether they have changed or not, then preferred sizes are restored.
      Errors of the first step go unnoticed, as in the source. */
  method UpdateSectionsLengths(root: Section, h: Handle, ghost t: Tree)
    requires SoundTree(t, h) && root == t.s && MarksBefore(LeafAccs(t))
    modifies PartsOf(t).accs`offset, PartsOf(t).accs`length
    modifies PartsOf(t).secs`padding, PartsOf(t).secs`length, PartsOf(t).secs`stored
    modifies h.buffer`data, h.buffer`ulength, h.buffer.data
    ensures SoundTree(t, h) && forall x :: x in PartsOf(t).accs ==> x.PreferredSize() == x.length
    ensures var m0, m, w := old(MessageOf(t, h)), MessageOf(t, h), WishesOf(LeafAccs(t));
            var start := Adjust(m0.layout, 0, 2, h.partial).state;
            && |w| == |LeafLengths(start)| == |LeafLengths(m0.layout)|
            && m.layout == Sweep(start, w, h.partial, 0)
            && LeafLengths(m.layout) == Settle(w, LeafLengths(m0.layout))
            && SameBytes(m0, FieldLeaves(t), w, m)
            && (Tiled(m.layout, 0) <==> FieldsHold(m.layout)) && (Tells(m.layout, m.data) <==> Told(m.layout))
  {
    hide Linked, Distinct, Shaped, PartsOf, LeafAccs, FieldAccs, LeafLengths, WishesOf, MarksBefore, FieldLeaves,
      Value, Adjust, Tiled, FieldsHold, Sweep, Settle, SameBytes, Tells, Told, InStep, Readable, Rewritten,
      LengthLeaves, LeavesInside, OffsetsMatch, LeafBytes, Widths;
    ghost var m0, fl := MessageOf(t, h), FieldLeaves(t);
    TreeExists(t);
    SoundParts(t, h);
    var _ := AdjustSizes(root, 2, h, Some(t));
    ghost var m1 := MessageOf(t, h);
    Rewriting(m0, m1, fl, h.partial);
    WidthsOfLeaves(t);
    UpdatePaddings(root, h, t);
    SameBytesFrom(m0, m1, MessageOf(t, h), fl, WishesOf(LeafAccs(t)));
  }

  /** The first step, seen as values. */
  lemma Rewriting(m0: Message, m1: Message, fl: seq<nat>, partial: bool)
    requires Sound(m0, fl, partial) && m1.layout == Adjust(m0.layout, 0, 2, partial).state
    requires Rewritten(m0.layout, m1.layout, m0.data, m1.data)
    ensures Sound(m1, fl, partial) && LeafLengths(m1.layout) == LeafLengths(m0.layout)
    ensures LeavesInside(m0.layout, |m0.data|) && LeavesInside(m1.layout, |m1.data|)
    ensures forall j :: 0 <= j < |LeafLengths(m0.layout)| && j !in fl ==>
              LeafBytes(m1.layout, m1.data, j) == LeafBytes(m0.layout, m0.data, j)
    ensures Tiled(m1.layout, 0) <==> FieldsHold(m1.layout)
  {
    hide LeafLengths, Adjust, Tiled, FieldsHold, Readable, Rewritten, LengthLeaves, LeavesInside, OffsetsMatch,
      LeafBytes;
    AdjustKeepsBytes(m0.layout, fl, 2, partial, m0.data, m1.data);
    AdjustedTells(m0.layout, 2, partial, m0.data, m1.data);
  }

  lemma SameBytesFrom(m0: Message, m1: Message, m: Message, fl: seq<nat>, w: seq<Wish>)
    requires LeafLengths(m1.layout) == LeafLengths(m0.layout) && SameBytes(m1, fl, w, m)
    requires LeavesInside(m0.layout, |m0.data|) && LeavesInside(m1.layout, |m1.data|)
    requires forall j :: 0 <= j < |LeafLengths(m0.layout)| && j !in fl ==>
               LeafBytes(m1.layout, m1.data, j) == LeafBytes(m0.layout, m0.data, j)
    ensures SameBytes(m0, fl, w, m)
  {
    hide LeafLengths, LeavesInside, LeafBytes;
  }
}
