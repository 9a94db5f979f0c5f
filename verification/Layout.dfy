/** The layout of a message as a value: a tree of sections and accessors with their stored offsets,
    lengths, length fields and padding, and what grib_section_adjust_sizes
    (src/grib_accessor_class.cc) makes of it. */
module Layout {
  import opened Results
  import opened Shifts

  const GRIB_MISSING_LONG := 0x7fff_ffff

  /** The length of a section as stored in the message: the number stored, the accessor of the block
      that stands for it, and its width. */
  datatype LengthField = LengthField(stored: nat, which: nat, octets: nat)

  datatype Acc = Acc(offset: int, length: nat, sub: Option<Sec>)

  datatype Sec = Sec(accs: seq<Acc>, field: Option<LengthField>, padding: nat, length: nat)

  // ---------------------------------------------------------------- grib_section_adjust_sizes

  /** State after the call, and its error code. */
  datatype Outcome<+T> = Outcome(state: T, err: int)

  /** State of a block after the walk, its error code, and the length summed up. */
  datatype Walked = Walked(accs: seq<Acc>, err: int, length: nat)

  /** update: 0 when reading, 1 or more when lengths are to be rewritten (2 forces it).
      ownerOffset is the offset of the accessor that owns the section (0 without one). */
  function Adjust(s: Sec, ownerOffset: int, update: nat, partial: bool): Outcome<Sec>
    decreases s, 1
  {
    var w := Walk(s.accs, ownerOffset, if update > 0 then 0 else s.padding, update, partial);
    if w.err != GRIB_SUCCESS then Outcome(s.(accs := w.accs), w.err)
    else Finish(s.(accs := w.accs), w.length, update, partial)
  }

  function AdjustAcc(a: Acc, update: nat, partial: bool): Outcome<Acc>
    decreases a
  {
    if a.sub.None? then Outcome(a, GRIB_SUCCESS)
    else
      var r := Adjust(a.sub.value, a.offset, update, partial);
      // the length reaches the owning accessor only when the section is finished
      if r.err != GRIB_SUCCESS then Outcome(a.(sub := Some(r.state)), r.err)
      else Outcome(a.(sub := Some(r.state), length := r.state.length), GRIB_SUCCESS)
  }

  function Walk(accs: seq<Acc>, offset: int, length: nat, update: nat, partial: bool): (w: Walked)
    ensures |w.accs| == |accs|
    decreases accs, 0
  {
    if accs == [] then Walked([], GRIB_SUCCESS, length)
    else
      var r := AdjustAcc(accs[0], update, partial);
      if r.err != GRIB_SUCCESS then Walked([r.state] + accs[1..], r.err, length)
      else if offset != r.state.offset then
        Walked([r.state.(offset := offset)] + accs[1..], GRIB_DECODING_ERROR, length)
      else
        var w := Walk(accs[1..], offset + r.state.length, length + r.state.length, update, partial);
        Walked([r.state] + w.accs, w.err, w.length)
  }

  /** pack_long of a length field: up to four octets the range is checked, but not for the number
      that stands for a missing value. */
  predicate Packable(octets: nat, v: nat) {
    octets > 4 || v < Pow2(8 * octets) || v == GRIB_MISSING_LONG
  }

  /** After the walk: the length field is rewritten (update) or believed (reading). */
  function Finish(s: Sec, length: nat, update: nat, partial: bool): Outcome<Sec> {
    if s.field.None? || (s.field.value.stored == length && update <= 1) then
      Outcome(s.(length := length), GRIB_SUCCESS)
    else
      var f := s.field.value;
      if update > 0 then
        if !Packable(f.octets, length) then Outcome(s, GRIB_ENCODING_ERROR)
        else
          // what does not fit the octets is cut off
          var stored := Low(length, 8 * f.octets);
          Outcome(s.(field := Some(f.(stored := stored)), padding := 0, length := length), GRIB_SUCCESS)
      else if partial then Outcome(s.(length := f.stored), GRIB_SUCCESS)
      else
        var plen := if length >= f.stored then length else f.stored;
        Outcome(s.(padding := plen - length, length := plen), GRIB_SUCCESS)
  }

  // ---------------------------------------------------------------- update_offsets (src/grib_buffer.cc)

  /** Everything in a section moves by delta. */
  function Moved(s: Sec, delta: int): Sec
    decreases s, 1
  {
    s.(accs := MovedAll(s.accs, delta))
  }

  function MovedAcc(a: Acc, delta: int): Acc
    decreases a
  {
    Acc(a.offset + delta, a.length, if a.sub.None? then None else Some(Moved(a.sub.value, delta)))
  }

  function MovedAll(accs: seq<Acc>, delta: int): (r: seq<Acc>)
    ensures |r| == |accs|
    decreases accs, 0
  {
    if accs == [] then [] else [MovedAcc(accs[0], delta)] + MovedAll(accs[1..], delta)
  }

  // ---------------------------------------------------------------- the lengths, recomputed

  /** The length a section gets, from its leaves' lengths, paddings and length fields alone. */
  function NewLength(s: Sec, update: nat, partial: bool): nat
    decreases s, 1
  {
    var sum := NewLengths(s.accs, update, partial);
    if update > 0 then sum
    else if s.field.None? || s.field.value.stored == s.padding + sum then s.padding + sum
    else if partial || s.field.value.stored > s.padding + sum then s.field.value.stored
    else s.padding + sum
  }

  function NewLengthAcc(a: Acc, update: nat, partial: bool): nat
    decreases a
  {
    if a.sub.None? then a.length else NewLength(a.sub.value, update, partial)
  }

  function NewLengths(accs: seq<Acc>, update: nat, partial: bool): nat
    decreases accs, 0
  {
    if accs == [] then 0
    else NewLengthAcc(accs[0], update, partial) + NewLengths(accs[1..], update, partial)
  }

  /** Every stored offset, at every depth, is the one recomputed from the new lengths. */
  predicate OffsetsMatch(s: Sec, ownerOffset: int, update: nat, partial: bool)
    decreases s, 1
  {
    OffsetsMatchAll(s.accs, ownerOffset, update, partial)
  }

  predicate OffsetsMatchAll(accs: seq<Acc>, offset: int, update: nat, partial: bool)
    decreases accs, 0
  {
    accs == [] ||
    (assert accs decreases to accs[0];
     && accs[0].offset == offset
     && (accs[0].sub.Some? ==> OffsetsMatch(accs[0].sub.value, offset, update, partial))
     && OffsetsMatchAll(accs[1..], offset + NewLengthAcc(accs[0], update, partial), update, partial))
  }

  /** Every length that has to be packed is accepted by its field. */
  predicate FieldsFit(s: Sec, update: nat)
    decreases s, 1
  {
    && FieldsFitAll(s.accs, update)
    && (update > 0 && s.field.Some? ==>
          var f, sum := s.field.value, NewLengths(s.accs, 1, false);
          (f.stored == sum && update == 1) || Packable(f.octets, sum))
  }

  predicate FieldsFitAll(accs: seq<Acc>, update: nat)
    decreases accs, 0
  {
    accs == [] ||
    (assert accs decreases to accs[0];
     && (accs[0].sub.Some? ==> FieldsFit(accs[0].sub.value, update))
     && FieldsFitAll(accs[1..], update))
  }

  /** Every length is in the range of its field. */
  predicate FieldsHold(s: Sec)
    decreases s, 1
  {
    && FieldsHoldAll(s.accs)
    && (s.field.Some? ==> NewLengths(s.accs, 1, false) < Pow2(8 * s.field.value.octets))
  }

  predicate FieldsHoldAll(accs: seq<Acc>)
    decreases accs, 0
  {
    accs == [] ||
    (assert accs decreases to accs[0];
     (accs[0].sub.Some? ==> FieldsHold(accs[0].sub.value)) && FieldsHoldAll(accs[1..]))
  }

  /** When lengths are rewritten, believing partial messages or not makes no difference, nor does
      forcing it. */
  lemma {:induction false} UpdateIgnoresPartial(s: Sec, update: nat, partial: bool)
    requires update > 0
    ensures NewLength(s, update, partial) == NewLength(s, 1, false)
    decreases s, 1
  {
    UpdateIgnoresPartialAll(s.accs, update, partial);
  }

  lemma {:induction false} UpdateIgnoresPartialAll(accs: seq<Acc>, update: nat, partial: bool)
    requires update > 0
    ensures NewLengths(accs, update, partial) == NewLengths(accs, 1, false)
    decreases accs, 0
  {
    if accs != [] {
      assert accs decreases to accs[0];
      if accs[0].sub.Some? { UpdateIgnoresPartial(accs[0].sub.value, update, partial); }
      UpdateIgnoresPartialAll(accs[1..], update, partial);
    }
  }

  // ---------------------------------------------------------------- one step of the walk

  lemma WalkNone(offset: int, length: nat, update: nat, partial: bool)
    ensures Walk([], offset, length, update, partial) == Walked([], GRIB_SUCCESS, length)
  {
  }

  /** The walk over a block, seen from its first accessor. */
  lemma WalkCases(accs: seq<Acc>, offset: int, length: nat, update: nat, partial: bool)
    requires accs != []
    ensures var w, r := Walk(accs, offset, length, update, partial), AdjustAcc(accs[0], update, partial);
            if r.err != GRIB_SUCCESS then w == Walked([r.state] + accs[1..], r.err, length)
            else if offset != r.state.offset then
              w == Walked([r.state.(offset := offset)] + accs[1..], GRIB_DECODING_ERROR, length)
            else
              var l := r.state.length;
              var rest := Walk(accs[1..], offset + l, length + l, update, partial);
              w == Walked([r.state] + rest.accs, rest.err, rest.length)
  {
  }

  /** A walk that succeeds, one accessor at a time. */
  lemma WalkStep(accs: seq<Acc>, offset: int, length: nat, update: nat, partial: bool)
    requires accs != []
    ensures var w, r := Walk(accs, offset, length, update, partial), AdjustAcc(accs[0], update, partial);
            var rest := Walk(accs[1..], offset + r.state.length, length + r.state.length, update, partial);
            && (w.err == GRIB_SUCCESS <==>
                  r.err == GRIB_SUCCESS && offset == r.state.offset && rest.err == GRIB_SUCCESS)
            && (w.err == GRIB_SUCCESS ==>
                  w.accs[0] == r.state && w.accs[1..] == rest.accs && w.length == rest.length)
  {
    hide AdjustAcc;
    WalkCases(accs, offset, length, update, partial);
  }

  // ---------------------------------------------------------------- when it succeeds

  /** Success means exactly that all stored offsets agree with the recomputed lengths and that
      all packed lengths fit; a disagreement is the decoding error.  On success the section's
      length is the recomputed one. */
  lemma {:induction false} AdjustSucceedsIff(s: Sec, ownerOffset: int, update: nat, partial: bool)
    ensures var r := Adjust(s, ownerOffset, update, partial);
            && (r.err == GRIB_SUCCESS <==>
                  OffsetsMatch(s, ownerOffset, update, partial) && FieldsFit(s, update))
            && (r.err == GRIB_SUCCESS ==> r.state.length == NewLength(s, update, partial))
            && (r.err != GRIB_SUCCESS && FieldsFit(s, update) ==> r.err == GRIB_DECODING_ERROR)
    decreases s, 1
  {
    var start := if update > 0 then 0 else s.padding;
    WalkSucceedsIff(s.accs, ownerOffset, start, update, partial);
    if update > 0 { UpdateIgnoresPartialAll(s.accs, update, partial); }
  }

  lemma {:induction false} WalkSucceedsIff(accs: seq<Acc>, offset: int, length: nat, update: nat, partial: bool)
    ensures var w := Walk(accs, offset, length, update, partial);
            && (w.err == GRIB_SUCCESS <==>
                  OffsetsMatchAll(accs, offset, update, partial) && FieldsFitAll(accs, update))
            && (w.err == GRIB_SUCCESS ==> w.length == length + NewLengths(accs, update, partial))
            && (w.err != GRIB_SUCCESS && FieldsFitAll(accs, update) ==> w.err == GRIB_DECODING_ERROR)
    decreases accs, 0
  {
    hide Walk, Adjust, OffsetsMatch, FieldsFit, NewLength;
    if accs != [] {
      assert accs decreases to accs[0];
      var a := accs[0];
      WalkCases(accs, offset, length, update, partial);
      if a.sub.Some? { AdjustSucceedsIff(a.sub.value, a.offset, update, partial); }
      var l := NewLengthAcc(a, update, partial);
      WalkSucceedsIff(accs[1..], offset + l, length + l, update, partial);
    } else {
      WalkNone(offset, length, update, partial);
    }
  }

  // ---------------------------------------------------------------- conservation

  function Sum(accs: seq<Acc>): nat {
    if accs == [] then 0 else accs[0].length + Sum(accs[1..])
  }

  /** Total length of the accessors that have no section below them. */
  function Leaves(s: Sec): nat
    decreases s, 1
  {
    LeavesAll(s.accs)
  }

  function LeavesAll(accs: seq<Acc>): nat
    decreases accs, 0
  {
    if accs == [] then 0
    else
      assert accs decreases to accs[0];
      (if accs[0].sub.None? then accs[0].length else Leaves(accs[0].sub.value)) + LeavesAll(accs[1..])
  }

  /** At every depth: accessors follow one another without gap from the owner's offset, and owner and
      section agree on the length, which is the sum over the block. */
  predicate Laid(s: Sec, ownerOffset: int)
    decreases s, 1
  {
    LaidAll(s.accs, ownerOffset) && s.length == Sum(s.accs)
  }

  predicate LaidAll(accs: seq<Acc>, offset: int)
    decreases accs, 0
  {
    accs == [] ||
    (assert accs decreases to accs[0];
     && accs[0].offset == offset
     && (accs[0].sub.Some? ==>
           Laid(accs[0].sub.value, offset) && accs[0].sub.value.length == accs[0].length)
     && LaidAll(accs[1..], offset + accs[0].length))
  }

  /** At every depth the length field holds the length of its section. */
  predicate Told(s: Sec)
    decreases s, 1
  {
    ToldAll(s.accs) && (s.field.Some? ==> s.field.value.stored == s.length)
  }

  predicate ToldAll(accs: seq<Acc>)
    decreases accs, 0
  {
    accs == [] ||
    (assert accs decreases to accs[0];
     (accs[0].sub.Some? ==> Told(accs[0].sub.value)) && ToldAll(accs[1..]))
  }

  predicate Tiled(s: Sec, ownerOffset: int) {
    Laid(s, ownerOffset) && Told(s)
  }

  /** What is stored is a number of so many octets. */
  predicate StoredFits(s: Sec)
    decreases s, 1
  {
    StoredFitsAll(s.accs) && (s.field.Some? ==> s.field.value.stored < Pow2(8 * s.field.value.octets))
  }

  predicate StoredFitsAll(accs: seq<Acc>)
    decreases accs, 0
  {
    accs == [] ||
    (assert accs decreases to accs[0];
     (accs[0].sub.Some? ==> StoredFits(accs[0].sub.value)) && StoredFitsAll(accs[1..]))
  }

  /** After a successful update accessors and sections are laid out without gap and no byte was gained
      or lost: the section is as long as its leaves together, which keep their lengths.  The length
      fields say so, too, exactly when every length is in the range of its field. */
  lemma AdjustTiles(s: Sec, ownerOffset: int, update: nat, partial: bool)
    requires update > 0 && Adjust(s, ownerOffset, update, partial).err == GRIB_SUCCESS
    ensures var s' := Adjust(s, ownerOffset, update, partial).state;
            && Laid(s', ownerOffset)
            && s'.length == Leaves(s') == Leaves(s)
            && (StoredFits(s) ==> (Tiled(s', ownerOffset) <==> FieldsHold(s)))
  {
    hide Adjust, Laid, Told, Leaves, StoredFits, FieldsHold;
    AdjustLays(s, ownerOffset, update, partial);
    if StoredFits(s) { AdjustTells(s, ownerOffset, update, partial); }
  }

  lemma {:induction false} AdjustLays(s: Sec, ownerOffset: int, update: nat, partial: bool)
    requires update > 0 && Adjust(s, ownerOffset, update, partial).err == GRIB_SUCCESS
    ensures var s' := Adjust(s, ownerOffset, update, partial).state;
            Laid(s', ownerOffset) && s'.length == Leaves(s') == Leaves(s)
    decreases s, 1
  {
    hide Walk;
    WalkLays(s.accs, ownerOffset, 0, update, partial);
  }

  lemma {:induction false} WalkLays(accs: seq<Acc>, offset: int, length: nat, update: nat, partial: bool)
    requires update > 0 && Walk(accs, offset, length, update, partial).err == GRIB_SUCCESS
    ensures var w := Walk(accs, offset, length, update, partial);
            && LaidAll(w.accs, offset)
            && w.length == length + Sum(w.accs)
            && Sum(w.accs) == LeavesAll(w.accs) == LeavesAll(accs)
    decreases accs, 0
  {
    hide Walk, Adjust, Laid, Leaves;
    if accs != [] {
      assert accs decreases to accs[0];
      var a := accs[0];
      WalkStep(accs, offset, length, update, partial);
      if a.sub.Some? { AdjustLays(a.sub.value, a.offset, update, partial); }
      var r := AdjustAcc(a, update, partial);
      WalkLays(accs[1..], offset + r.state.length, length + r.state.length, update, partial);
    } else {
      WalkNone(offset, length, update, partial);
    }
  }

  lemma {:induction false} AdjustTells(s: Sec, ownerOffset: int, update: nat, partial: bool)
    requires update > 0 && Adjust(s, ownerOffset, update, partial).err == GRIB_SUCCESS && StoredFits(s)
    ensures Told(Adjust(s, ownerOffset, update, partial).state) <==> FieldsHold(s)
    decreases s, 1
  {
    hide Walk, Low;
    var w := Walk(s.accs, ownerOffset, 0, update, partial);
    WalkTells(s.accs, ownerOffset, 0, update, partial);
    WalkSucceedsIff(s.accs, ownerOffset, 0, update, partial);
    UpdateIgnoresPartialAll(s.accs, update, partial);
    if s.field.Some? && w.length < Pow2(8 * s.field.value.octets) { LowSmall(w.length, 8 * s.field.value.octets); }
  }

  lemma {:induction false} WalkTells(accs: seq<Acc>, offset: int, length: nat, update: nat, partial: bool)
    requires update > 0 && Walk(accs, offset, length, update, partial).err == GRIB_SUCCESS && StoredFitsAll(accs)
    ensures ToldAll(Walk(accs, offset, length, update, partial).accs) <==> FieldsHoldAll(accs)
    decreases accs, 0
  {
    hide Walk, Adjust, Told, FieldsHold, StoredFits;
    if accs != [] {
      assert accs decreases to accs[0];
      var a := accs[0];
      WalkStep(accs, offset, length, update, partial);
      if a.sub.Some? { AdjustTells(a.sub.value, a.offset, update, partial); }
      var r := AdjustAcc(a, update, partial);
      WalkTells(accs[1..], offset + r.state.length, length + r.state.length, update, partial);
    } else {
      WalkNone(offset, length, update, partial);
    }
  }

  /** A length that happens to be the number for missing values is accepted by a field of three
      octets, which then holds another one. */
  lemma MissingLengthCut()
    ensures var s := Sec([Acc(0, GRIB_MISSING_LONG, None)], Some(LengthField(0, 0, 3)), 0, 0);
            var r := Adjust(s, 0, 1, false);
            r.err == GRIB_SUCCESS && r.state.length == GRIB_MISSING_LONG && !Tiled(r.state, 0)
  {
    hide Pow2, Low;
    var accs := [Acc(0, GRIB_MISSING_LONG, None)];
    WalkCases(accs, 0, 0, 1, false);
    WalkNone(GRIB_MISSING_LONG, GRIB_MISSING_LONG, 1, false);
    assert accs[1..] == [] && [accs[0]] + [] == accs;
    assert Walk(accs, 0, 0, 1, false) == Walked(accs, GRIB_SUCCESS, GRIB_MISSING_LONG);
    ThreeOctets();
  }

  lemma ThreeOctets()
    ensures Pow2(24) == 0x100_0000
  {
    Octet(0);
    assert Pow2(12) == 2 * Pow2(11) == 4 * Pow2(10) == 8 * Pow2(9) == 16 * Pow2(8);
    assert Pow2(16) == 2 * Pow2(15) == 4 * Pow2(14) == 8 * Pow2(13) == 16 * Pow2(12);
    assert Pow2(20) == 2 * Pow2(19) == 4 * Pow2(18) == 8 * Pow2(17) == 16 * Pow2(16);
    assert Pow2(24) == 2 * Pow2(23) == 4 * Pow2(22) == 8 * Pow2(21) == 16 * Pow2(20);
  }

  /** A tiled layout is left alone by a further (unforced) update. */
  lemma {:induction false} TiledIsStable(s: Sec, ownerOffset: int, partial: bool)
    requires Tiled(s, ownerOffset)
    ensures Adjust(s, ownerOffset, 1, partial) == Outcome(s, GRIB_SUCCESS)
    decreases s, 1
  {
    hide Walk;
    TiledWalk(s.accs, ownerOffset, 0, partial);
  }

  lemma {:induction false} TiledWalk(accs: seq<Acc>, offset: int, length: nat, partial: bool)
    requires LaidAll(accs, offset) && ToldAll(accs)
    ensures Walk(accs, offset, length, 1, partial) == Walked(accs, GRIB_SUCCESS, length + Sum(accs))
    decreases accs, 0
  {
    hide Walk, Adjust, Laid, Told;
    if accs != [] {
      assert accs decreases to accs[0];
      if accs[0].sub.Some? { TiledIsStable(accs[0].sub.value, offset, partial); }
      WalkCases(accs, offset, length, 1, partial);
      TiledWalk(accs[1..], offset + accs[0].length, length + accs[0].length, partial);
      assert [accs[0]] + accs[1..] == accs;
    } else {
      WalkNone(offset, length, 1, partial);
    }
  }

  // ---------------------------------------------------------------- reading

  predicate NoPadding(s: Sec)
    decreases s, 1
  {
    s.padding == 0 && NoPaddingAll(s.accs)
  }

  predicate NoPaddingAll(accs: seq<Acc>)
    decreases accs, 0
  {
    accs == [] ||
    (assert accs decreases to accs[0];
     (accs[0].sub.Some? ==> NoPadding(accs[0].sub.value)) && NoPaddingAll(accs[1..]))
  }

  /** At every depth: a section with a length field is as long as the larger of the field and its
      block, and its padding makes up the difference; any other is as long as its block. */
  predicate Padded(s: Sec)
    decreases s, 1
  {
    && PaddedAll(s.accs)
    && (s.field.Some? ==>
          && s.length == (if s.field.value.stored > Sum(s.accs) then s.field.value.stored else Sum(s.accs))
          && s.padding == s.length - Sum(s.accs))
    && (s.field.None? ==> s.length == Sum(s.accs) && s.padding == 0)
  }

  predicate PaddedAll(accs: seq<Acc>)
    decreases accs, 0
  {
    accs == [] ||
    (assert accs decreases to accs[0];
     && (accs[0].sub.Some? ==> Padded(accs[0].sub.value) && accs[0].sub.value.length == accs[0].length)
     && PaddedAll(accs[1..]))
  }

  /** Reading a whole message whose paddings are still zero. */
  lemma {:induction false} ReadingPads(s: Sec, ownerOffset: int)
    requires NoPadding(s) && Adjust(s, ownerOffset, 0, false).err == GRIB_SUCCESS
    ensures Padded(Adjust(s, ownerOffset, 0, false).state)
    decreases s, 1
  {
    ReadingPadsAll(s.accs, ownerOffset, 0);
  }

  lemma {:induction false} ReadingPadsAll(accs: seq<Acc>, offset: int, length: nat)
    requires NoPaddingAll(accs) && Walk(accs, offset, length, 0, false).err == GRIB_SUCCESS
    ensures var w := Walk(accs, offset, length, 0, false);
            PaddedAll(w.accs) && w.length == length + Sum(w.accs)
    decreases accs, 0
  {
    hide Walk, Adjust, Padded, NoPadding;
    if accs != [] {
      assert accs decreases to accs[0];
      var a := accs[0];
      WalkStep(accs, offset, length, 0, false);
      if a.sub.Some? { ReadingPads(a.sub.value, a.offset); }
      var r := AdjustAcc(a, 0, false);
      ReadingPadsAll(accs[1..], offset + r.state.length, length + r.state.length);
    } else {
      WalkNone(offset, length, 0, false);
    }
  }

  // ---------------------------------------------------------------- reading twice

  /** A stale padding does not disturb a second reading: there is none, or the field already counts
      it, or it is half of what is missing. */
  predicate Undisturbed(padding: nat, sum: nat, field: Option<LengthField>, partial: bool) {
    || field.None? || partial || padding == 0
    || padding + sum == field.value.stored
    || padding + padding + sum == field.value.stored
  }

  predicate Stable(s: Sec, partial: bool)
    decreases s, 1
  {
    StableAll(s.accs, partial) && Undisturbed(s.padding, NewLengths(s.accs, 0, partial), s.field, partial)
  }

  predicate StableAll(accs: seq<Acc>, partial: bool)
    decreases accs, 0
  {
    accs == [] ||
    (assert accs decreases to accs[0];
     (accs[0].sub.Some? ==> Stable(accs[0].sub.value, partial)) && StableAll(accs[1..], partial))
  }

  /** Reading again changes nothing exactly when no section has a disturbing stale padding. */
  lemma {:induction false} ReadingTwiceIff(s: Sec, ownerOffset: int, partial: bool)
    requires Adjust(s, ownerOffset, 0, partial).err == GRIB_SUCCESS
    ensures var r := Adjust(s, ownerOffset, 0, partial);
            Adjust(r.state, ownerOffset, 0, partial) == r <==> Stable(s, partial)
    decreases s, 1
  {
    var w := Walk(s.accs, ownerOffset, s.padding, 0, partial);
    WalkSucceedsIff(s.accs, ownerOffset, s.padding, 0, partial);
    var s' := Adjust(s, ownerOffset, 0, partial).state;
    if StableAll(s.accs, partial) {
      StableWalk(s.accs, ownerOffset, s.padding, s'.padding, partial);
    }
    var w' := Walk(w.accs, ownerOffset, s'.padding, 0, partial);
    if w'.accs == w.accs && w'.err == GRIB_SUCCESS {
      SameWalkIsStable(s.accs, ownerOffset, s.padding, s'.padding, partial);
    }
  }

  /** A layout that is read with a length of 10 and, after its field has been set to 20, again: the
      padding of the first reading disturbs the ones that follow. */
  lemma StalePadding()
    ensures var s := Sec([Acc(0, 4, None)], Some(LengthField(10, 0, 1)), 0, 0);
            var read := Adjust(s, 0, 0, false).state;
            var edited := read.(field := Some(LengthField(20, 0, 1)));
            var again := Adjust(edited, 0, 0, false);
            && read.padding == 6 && again.err == GRIB_SUCCESS && again.state.padding == 10
            && Adjust(again.state, 0, 0, false).state.padding == 6
  {
    var accs := [Acc(0, 4, None)];
    forall length: nat
      ensures Walk(accs, 0, length, 0, false) == Walked(accs, GRIB_SUCCESS, length + 4)
    {
      WalkNone(4, length + 4, 0, false);
      assert accs[1..] == [] && [accs[0]] + [] == accs;
    }
  }

  lemma {:induction false} AccTwiceIff(a: Acc, partial: bool)
    requires AdjustAcc(a, 0, partial).err == GRIB_SUCCESS
    ensures var r := AdjustAcc(a, 0, partial);
            AdjustAcc(r.state, 0, partial) == r <==> (a.sub.Some? ==> Stable(a.sub.value, partial))
    decreases a
  {
    if a.sub.Some? { ReadingTwiceIff(a.sub.value, a.offset, partial); }
  }

  /** A second walk over a stable block changes nothing ... */
  lemma {:induction false} StableWalk(accs: seq<Acc>, offset: int, length: nat, length': nat, partial: bool)
    requires Walk(accs, offset, length, 0, partial).err == GRIB_SUCCESS && StableAll(accs, partial)
    ensures var w := Walk(accs, offset, length, 0, partial);
            && w.length >= length
            && Walk(w.accs, offset, length', 0, partial)
               == Walked(w.accs, GRIB_SUCCESS, length' + (w.length - length))
    decreases accs, 0
  {
    hide AdjustAcc, Adjust, Stable, Walk;
    if accs != [] {
      assert accs decreases to accs[0];
      WalkCases(accs, offset, length, 0, partial);
      AccTwiceIff(accs[0], partial);
      var r := AdjustAcc(accs[0], 0, partial);
      var l := r.state.length;
      StableWalk(accs[1..], offset + l, length + l, length' + l, partial);
      SecondStep(accs, offset, length, length', partial);
    } else {
      WalkNone(offset, length, 0, partial);
      WalkNone(offset, length', 0, partial);
    }
  }

  lemma SecondStep(accs: seq<Acc>, offset: int, length: nat, length': nat, partial: bool)
    requires accs != [] && Walk(accs, offset, length, 0, partial).err == GRIB_SUCCESS
    requires var r := AdjustAcc(accs[0], 0, partial); AdjustAcc(r.state, 0, partial) == r
    requires var l := AdjustAcc(accs[0], 0, partial).state.length;
             var w := Walk(accs[1..], offset + l, length + l, 0, partial);
             && w.length >= length + l
             && Walk(w.accs, offset + l, length' + l, 0, partial)
                == Walked(w.accs, GRIB_SUCCESS, length' + l + (w.length - (length + l)))
    ensures var w := Walk(accs, offset, length, 0, partial);
            && w.length >= length
            && Walk(w.accs, offset, length', 0, partial)
               == Walked(w.accs, GRIB_SUCCESS, length' + (w.length - length))
  {
    hide AdjustAcc, Walk;
    WalkCases(accs, offset, length, 0, partial);
    var w := Walk(accs, offset, length, 0, partial);
    WalkCases(w.accs, offset, length', 0, partial);
    assert w.accs[1..] == Walk(accs[1..], offset + AdjustAcc(accs[0], 0, partial).state.length,
                               length + AdjustAcc(accs[0], 0, partial).state.length, 0, partial).accs;
  }

  /** ... and only over a stable one. */
  lemma {:induction false} SameWalkIsStable(accs: seq<Acc>, offset: int, length: nat, length': nat, partial: bool)
    requires Walk(accs, offset, length, 0, partial).err == GRIB_SUCCESS
    requires var w := Walk(accs, offset, length, 0, partial);
             var w' := Walk(w.accs, offset, length', 0, partial);
             w'.accs == w.accs && w'.err == GRIB_SUCCESS
    ensures StableAll(accs, partial)
    decreases accs, 0
  {
    hide AdjustAcc, Adjust, Stable, Walk;
    if accs != [] {
      assert accs decreases to accs[0];
      WalkStep(accs, offset, length, 0, partial);
      AccTwiceIff(accs[0], partial);
      var r := AdjustAcc(accs[0], 0, partial);
      var l := r.state.length;
      WalkStep(Walk(accs, offset, length, 0, partial).accs, offset, length', 0, partial);
      assert AdjustAcc(r.state, 0, partial).state == r.state;
      SameWalkIsStable(accs[1..], offset + l, length + l, length' + l, partial);
    }
  }
}
