/** The padding loop, seen as values: layouts with the bytes they describe (src/grib_accessor_class.cc). */
module Settling {
  import opened Bits
  import opened Layout
  import opened LengthFields
  import opened Paddings
  import opened Replacing

  /** The zeros a padding is filled with. */
  function Zeros(n: nat): (r: seq<byte>)
    ensures |r| == n && forall i :: 0 <= i < n ==> r[i] == 0
  {
    seq(n, _ => 0)
  }

  /** A message: its layout and its bytes. */
  datatype Message = Message(layout: Sec, data: seq<byte>)

  /** The message is in step, and its length fields, leaves fl, hold what the layout says. */
  ghost predicate Sound(m: Message, fl: seq<nat>, partial: bool) {
    InStep(m.layout, |m.data|, partial) && LengthLeaves(m.layout, fl) && Readable(m.layout, m.data)
  }

  /** Accessors that are neither paddings nor length fields stand for the bytes they stood for; a
      padding stands for the same bytes too, or for zeros. */
  ghost predicate SameBytes(m0: Message, fl: seq<nat>, wishes: seq<Wish>, m: Message) {
    && |wishes| == |LeafLengths(m0.layout)| == |LeafLengths(m.layout)|
    && LeavesInside(m0.layout, |m0.data|) && LeavesInside(m.layout, |m.data|)
    && forall j :: 0 <= j < |wishes| && j !in fl ==>
         || LeafBytes(m.layout, m.data, j) == LeafBytes(m0.layout, m0.data, j)
         || (wishes[j].Some? && LeafBytes(m.layout, m.data, j) == Zeros(LeafLengths(m.layout)[j]))
  }

  /** A state the padding loop passes through: leaves before k are settled. */
  ghost predicate Swept(m0: Message, fl: seq<nat>, wishes: seq<Wish>, partial: bool, m: Message, k: nat) {
    && |wishes| == |LeafLengths(m0.layout)| == |LeafLengths(m.layout)|
    && Sound(m0, fl, partial) && Sound(m, fl, partial)
    && Progress(wishes, LeafLengths(m0.layout), LeafLengths(m.layout), k)
    && Sweep(m0.layout, wishes, partial, 0) == Sweep(m.layout, wishes, partial, k)
    && SameBytes(m0, fl, wishes, m)
    && ((FieldsHold(m0.layout) ==> Tiled(m0.layout, 0)) ==> (Tiled(m.layout, 0) <==> FieldsHold(m.layout)))
  }

  lemma SweptStart(m0: Message, fl: seq<nat>, wishes: seq<Wish>, partial: bool)
    requires |wishes| == |LeafLengths(m0.layout)| && Sound(m0, fl, partial)
    ensures Swept(m0, fl, wishes, partial, m0, 0)
  {
    InStepLeaves(m0.layout, |m0.data|, partial);
    ReadableTells(m0.layout, m0.data);
    if Tiled(m0.layout, 0) { TiledHolds(m0.layout, 0); }
  }

  /** The leaves up to n turn out to be settled. */
  lemma SweptOn(m0: Message, fl: seq<nat>, wishes: seq<Wish>, partial: bool, m: Message, k: nat, n: nat)
    requires Swept(m0, fl, wishes, partial, m, k) && n <= |wishes|
    requires var l := LeafLengths(m.layout); forall j :: 0 <= j < n ==> l[j] == Preferred(wishes[j], l[..j], l[j])
    requires var l := LeafLengths(m.layout); n < |l| ==> l[n] != Preferred(wishes[n], l[..n], l[n])
    ensures k <= n && Swept(m0, fl, wishes, partial, m, n)
  {
    hide LeafLengths, Sweep, Tiled, FieldsHold, Sound, SameBytes;
    ProgressOn(wishes, LeafLengths(m0.layout), LeafLengths(m.layout), k, n);
    SweepSkips(m.layout, wishes, partial, k, n);
  }

  /** Leaf k is resized. */
  lemma SweptStep(m0: Message, fl: seq<nat>, wishes: seq<Wish>, partial: bool, m: Message, m': Message, k: nat)
    requires Swept(m0, fl, wishes, partial, m, k) && k < |wishes| && k !in fl
    requires var l := LeafLengths(m.layout); l[k] != Preferred(wishes[k], l[..k], l[k])
    requires var l := LeafLengths(m.layout);
             var size := Preferred(wishes[k], l[..k], l[k]);
             && m'.layout == Adjust(Resized(m.layout, k, size), 0, 1, partial).state
             && Sound(m', fl, partial) && Replaced(m.layout, m.data, m'.layout, m'.data, fl, k, Zeros(size))
             && (Tiled(m'.layout, 0) <==> FieldsHold(m'.layout))
    ensures Swept(m0, fl, wishes, partial, m', k + 1)
  {
    hide LeafLengths, LeafOffsets, Sweep, Tiled, FieldsHold, Sound, Adjust, Resized, Progress, LeafBytes,
      LeavesInside;
    var l := LeafLengths(m.layout);
    ProgressStep(wishes, LeafLengths(m0.layout), l, k);
    SweepResizes(m.layout, wishes, partial, k);
    assert wishes[k].Some?;
  }

  /** Where the loop ends. */
  lemma SweptEnd(m0: Message, fl: seq<nat>, wishes: seq<Wish>, partial: bool, m: Message)
    requires Swept(m0, fl, wishes, partial, m, |wishes|)
    ensures m.layout == Sweep(m0.layout, wishes, partial, 0)
    ensures Settled(wishes, LeafLengths(m.layout)) && LeafLengths(m.layout) == Settle(wishes, LeafLengths(m0.layout))
    ensures Sound(m, fl, partial) && SameBytes(m0, fl, wishes, m)
    ensures (FieldsHold(m0.layout) ==> Tiled(m0.layout, 0)) ==> (Tiled(m.layout, 0) <==> FieldsHold(m.layout))
  {
    hide LeafLengths, Sweep, Tiled, FieldsHold, Sound, SameBytes;
    SettleUnique(wishes, LeafLengths(m0.layout), LeafLengths(m.layout));
    SweepEnds(m.layout, wishes, partial, |wishes|);
  }
}
