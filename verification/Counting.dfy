/** When counting the bytes of an accessor leaves it in step with what lies below it
    (src/accessor/grib_accessor_class_section.cc). */
module Counting {
  import opened Results
  import opened Layout
  import opened Paddings
  import opened Blocks

  /** The accessor is as long as the leaves below it, and these are where their lengths say. */
  predicate AccInStep(v: Acc, partial: bool) {
    v.sub.Some? ==>
      && OffsetsMatch(v.sub.value, v.offset, 1, partial)
      && v.length == NewLength(v.sub.value, 1, partial)
  }

  /** A reading finds every length that the leaves add up to. */
  predicate ReadsRight(s: Sec, o: int, partial: bool) {
    OffsetsMatch(s, o, 0, partial) && NewLength(s, 0, partial) == NewLength(s, 1, partial)
  }

  /** When counting leaves an accessor in step, whose offsets agree before. */
  predicate CountsRight(v: Acc, name: string, loader: bool, partial: bool) {
    || v.sub.None?
    || (v.length == NewLength(v.sub.value, 1, partial)
        && (loader || v.length > 0 || Underscored(name)))
    || (loader && !Underscored(name) && FieldsFit(v.sub.value, 1))
    || (!loader && !Underscored(name) && v.length == 0 && ReadsRight(v.sub.value, v.offset, partial))
  }

  /** Exactly then. */
  lemma CountedInStepIff(v: Acc, name: string, loader: bool, partial: bool)
    requires v.sub.Some? ==> OffsetsMatch(v.sub.value, v.offset, 1, partial)
    ensures AccInStep(Counted(v, name, loader, partial).0, partial) <==> CountsRight(v, name, loader, partial)
  {
    hide Adjust, OffsetsMatch, NewLength, FieldsFit;
    if v.sub.Some? && !(v.length > 0 && !loader) && !Underscored(name) {
      var s, update := v.sub.value, if loader then 1 else 0;
      var r := Adjust(s, v.offset, update, partial);
      AdjustSucceedsIff(s, v.offset, update, partial);
      AdjustKeepsTotal(s, v.offset, update, partial);
      ReadingFits(s);
      if loader || r.err == GRIB_SUCCESS {
        AdjustKeepsOffsets(s, v.offset, update, partial);
      } else {
        ReadingSpoils(s, v.offset, partial);
      }
    }
  }

  lemma AdjustKeepsTotal(s: Sec, o: int, update: nat, partial: bool)
    ensures NewLength(Adjust(s, o, update, partial).state, 1, partial) == NewLength(s, 1, partial)
  {
    hide *;
    var s' := Adjust(s, o, update, partial).state;
    AdjustKeepsLeaves(s, o, update, partial);
    UpdateIgnoresPartial(s, 1, partial);
    UpdateIgnoresPartial(s', 1, partial);
    NewLengthTotal(s);
    NewLengthTotal(s');
  }

  /** A reading packs nothing. */
  lemma {:induction false} ReadingFits(s: Sec)
    ensures FieldsFit(s, 0)
    decreases s, 1
  {
    ReadingFitsAll(s.accs);
  }

  lemma {:induction false} ReadingFitsAll(accs: seq<Acc>)
    ensures FieldsFitAll(accs, 0)
    decreases accs, 0
  {
    hide FieldsFit;
    if accs != [] {
      assert accs decreases to accs[0];
      if accs[0].sub.Some? { ReadingFits(accs[0].sub.value); }
      ReadingFitsAll(accs[1..]);
    }
  }

  /** A reading that fails has put an accessor somewhere else. */
  lemma {:induction false} ReadingSpoils(s: Sec, o: int, partial: bool)
    requires OffsetsMatch(s, o, 1, partial) && Adjust(s, o, 0, partial).err != GRIB_SUCCESS
    ensures !OffsetsMatch(Adjust(s, o, 0, partial).state, o, 1, partial)
    decreases s, 1
  {
    hide Walk, OffsetsMatchAll;
    WalkSpoils(s.accs, o, o, s.padding, partial);
  }

  /** o is where the block starts, offset where the walk is. */
  lemma {:induction false} WalkSpoils(accs: seq<Acc>, o: int, offset: int, length: nat, partial: bool)
    requires OffsetsMatchAll(accs, o, 1, partial) && Walk(accs, offset, length, 0, partial).err != GRIB_SUCCESS
    ensures !OffsetsMatchAll(Walk(accs, offset, length, 0, partial).accs, o, 1, partial)
    decreases accs, 0
  {
    hide Walk, Adjust, OffsetsMatch, NewLength;
    if accs == [] {
      WalkNone(offset, length, 0, partial);
    } else {
      assert accs decreases to accs[0];
      var a, r := accs[0], AdjustAcc(accs[0], 0, partial);
      WalkCases(accs, offset, length, 0, partial);
      if a.sub.Some? {
        if r.err != GRIB_SUCCESS { ReadingSpoils(a.sub.value, o, partial); }
        AdjustKeepsTotal(a.sub.value, o, 0, partial);
      }
      if r.err == GRIB_SUCCESS && offset == r.state.offset {
        var l := r.state.length;
        WalkSpoils(accs[1..], o + NewLengthAcc(a, 1, partial), offset + l, length + l, partial);
      }
    }
  }

  // ---------------------------------------------------------------- messages that read right

  /** No length field says more than its section contains. */
  predicate Modest(s: Sec)
    decreases s, 1
  {
    && ModestAll(s.accs) && s.padding == 0
    && (s.field.Some? ==> s.field.value.stored <= NewLengths(s.accs, 1, false))
  }

  predicate ModestAll(accs: seq<Acc>)
    decreases accs, 0
  {
    accs == [] ||
    (assert accs decreases to accs[0];
     (accs[0].sub.Some? ==> Modest(accs[0].sub.value)) && ModestAll(accs[1..]))
  }

  /** Whole messages of that kind, the ones built from nothing among them, read right. */
  lemma {:induction false} ModestReadsRight(s: Sec, o: int)
    requires Modest(s) && OffsetsMatch(s, o, 1, false)
    ensures ReadsRight(s, o, false)
    decreases s, 1
  {
    ModestReadsRightAll(s.accs, o);
  }

  lemma {:induction false} ModestReadsRightAll(accs: seq<Acc>, o: int)
    requires ModestAll(accs) && OffsetsMatchAll(accs, o, 1, false)
    ensures OffsetsMatchAll(accs, o, 0, false) && NewLengths(accs, 0, false) == NewLengths(accs, 1, false)
    decreases accs, 0
  {
    hide OffsetsMatch, NewLength, Modest;
    if accs != [] {
      assert accs decreases to accs[0];
      if accs[0].sub.Some? { ModestReadsRight(accs[0].sub.value, o); }
      ModestReadsRightAll(accs[1..], o + NewLengthAcc(accs[0], 1, false));
    }
  }

  /** A section of five bytes, parsed again, with an underscore in second place of its name: it counts
      nothing, and the next accessor is put where it starts. */
  lemma UnderscoreCountsNothing()
    ensures var v := Acc(0, 5, Some(Sec([Acc(0, 5, None)], None, 0, 5)));
            && AccInStep(v, false) && Counted(v, "a_section", true, false) == (v, 0)
  {
    var accs := [Acc(0, 5, None)];
    assert accs[1..] == [];
    assert NewLengths(accs, 1, false) == 5;
  }
}
