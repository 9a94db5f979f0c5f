/** What adjusting leaves behind, section by section and at every depth, said without walking
    (src/grib_accessor_class.cc). */
module Adjusted {
  import opened Results
  import opened Shifts
  import opened Layout

  // ---------------------------------------------------------------- an update

  /** s' is s with all lengths rewritten.  A length field that differs from the sum of the leaves, or any if
      it is forced, gets the low-order octets of that sum, and then there is no padding any more. */
  predicate Updated(s: Sec, s': Sec, update: nat)
    decreases s, 1
  {
    && UpdatedAll(s.accs, s'.accs, update) && s'.length == Leaves(s)
    && match s.field
       case None => s'.field == None && s'.padding == s.padding
       case Some(f) =>
         if f.stored != Leaves(s) || update > 1 then
           s'.field == Some(f.(stored := Leaves(s) % Pow2(8 * f.octets))) && s'.padding == 0
         else
           s'.field == s.field && s'.padding == s.padding
  }

  predicate UpdatedAll(accs: seq<Acc>, accs': seq<Acc>, update: nat)
    decreases accs, 0
  {
    && |accs| == |accs'|
    && (accs == [] ||
        (assert accs decreases to accs[0];
         && accs'[0].offset == accs[0].offset && (accs'[0].sub.Some? <==> accs[0].sub.Some?)
         && (if accs[0].sub.None? then accs'[0].length == accs[0].length
             else Updated(accs[0].sub.value, accs'[0].sub.value, update)
                  && accs'[0].length == accs'[0].sub.value.length)
         && UpdatedAll(accs[1..], accs'[1..], update)))
  }

  /** A successful update leaves exactly that. */
  lemma {:induction false} AdjustUpdates(s: Sec, o: int, update: nat, partial: bool)
    requires update > 0 && Adjust(s, o, update, partial).err == GRIB_SUCCESS
    ensures Updated(s, Adjust(s, o, update, partial).state, update)
    decreases s, 1
  {
    hide Walk, Low;
    WalkUpdates(s.accs, o, 0, update, partial);
    WalkLays(s.accs, o, 0, update, partial);
    if s.field.Some? { ShiftIsArithmetic(Leaves(s), 8 * s.field.value.octets); }
  }

  lemma {:induction false} WalkUpdates(accs: seq<Acc>, offset: int, length: nat, update: nat, partial: bool)
    requires update > 0 && Walk(accs, offset, length, update, partial).err == GRIB_SUCCESS
    ensures UpdatedAll(accs, Walk(accs, offset, length, update, partial).accs, update)
    decreases accs, 0
  {
    hide Walk, Adjust, Updated;
    if accs != [] {
      assert accs decreases to accs[0];
      var a := accs[0];
      WalkStep(accs, offset, length, update, partial);
      if a.sub.Some? { AdjustUpdates(a.sub.value, a.offset, update, partial); }
      var r := AdjustAcc(a, update, partial);
      WalkUpdates(accs[1..], offset + r.state.length, length + r.state.length, update, partial);
    } else {
      WalkNone(offset, length, update, partial);
    }
  }

  /** There is only one such state. */
  lemma {:induction false} UpdatedUnique(s: Sec, s1: Sec, s2: Sec, update: nat)
    requires Updated(s, s1, update) && Updated(s, s2, update)
    ensures s1 == s2
    decreases s, 1
  {
    UpdatedUniqueAll(s.accs, s1.accs, s2.accs, update);
  }

  lemma {:induction false} UpdatedUniqueAll(accs: seq<Acc>, accs1: seq<Acc>, accs2: seq<Acc>, update: nat)
    requires UpdatedAll(accs, accs1, update) && UpdatedAll(accs, accs2, update)
    ensures accs1 == accs2
    decreases accs, 0
  {
    hide Updated;
    if accs != [] {
      assert accs decreases to accs[0];
      if accs[0].sub.Some? {
        UpdatedUnique(accs[0].sub.value, accs1[0].sub.value, accs2[0].sub.value, update);
      }
      UpdatedUniqueAll(accs[1..], accs1[1..], accs2[1..], update);
      assert accs1 == [accs1[0]] + accs1[1..] && accs2 == [accs2[0]] + accs2[1..];
    }
  }

  // ---------------------------------------------------------------- a reading

  /** s' is s as it is read.  The contents are what the block adds up to and the padding of before.  A
      partial message is believed; otherwise a field that says more than there is counts, and the
      difference is padding, and one that says less does not count. */
  predicate ReadAs(s: Sec, s': Sec, partial: bool)
    decreases s, 1
  {
    && ReadAllAs(s.accs, s'.accs, partial) && s'.field == s.field
    && var contents := s.padding + Sum(s'.accs);
       match s.field
       case None => s'.length == contents && s'.padding == s.padding
       case Some(f) =>
         if partial || f.stored == contents then s'.length == f.stored && s'.padding == s.padding
         else if f.stored > contents then s'.length == f.stored && s'.padding == f.stored - contents
         else s'.length == contents && s'.padding == 0
  }

  predicate ReadAllAs(accs: seq<Acc>, accs': seq<Acc>, partial: bool)
    decreases accs, 0
  {
    && |accs| == |accs'|
    && (accs == [] ||
        (assert accs decreases to accs[0];
         && accs'[0].offset == accs[0].offset && (accs'[0].sub.Some? <==> accs[0].sub.Some?)
         && (if accs[0].sub.None? then accs'[0].length == accs[0].length
             else ReadAs(accs[0].sub.value, accs'[0].sub.value, partial)
                  && accs'[0].length == accs'[0].sub.value.length)
         && ReadAllAs(accs[1..], accs'[1..], partial)))
  }

  /** A successful reading leaves exactly that. */
  lemma {:induction false} AdjustReads(s: Sec, o: int, partial: bool)
    requires Adjust(s, o, 0, partial).err == GRIB_SUCCESS
    ensures ReadAs(s, Adjust(s, o, 0, partial).state, partial)
    decreases s, 1
  {
    hide Walk;
    WalkReads(s.accs, o, s.padding, partial);
  }

  lemma {:induction false} WalkReads(accs: seq<Acc>, offset: int, length: nat, partial: bool)
    requires Walk(accs, offset, length, 0, partial).err == GRIB_SUCCESS
    ensures var w := Walk(accs, offset, length, 0, partial);
            ReadAllAs(accs, w.accs, partial) && w.length == length + Sum(w.accs)
    decreases accs, 0
  {
    hide Walk, Adjust, ReadAs;
    if accs != [] {
      assert accs decreases to accs[0];
      var a := accs[0];
      WalkStep(accs, offset, length, 0, partial);
      if a.sub.Some? { AdjustReads(a.sub.value, a.offset, partial); }
      var r := AdjustAcc(a, 0, partial);
      WalkReads(accs[1..], offset + r.state.length, length + r.state.length, partial);
    } else {
      WalkNone(offset, length, 0, partial);
    }
  }

  // ---------------------------------------------------------------- a failure

  /** A walk that fails stops at an accessor: the ones before it have been adjusted, the ones behind it
      are as they were.  Either what lies below it could not be adjusted, then it keeps offset and length;
      or it is not where the ones before it end, then it is put there. */
  lemma {:induction false} WalkStopsAt(accs: seq<Acc>, offset: int, length: nat, update: nat, partial: bool)
    returns (i: nat)
    requires Walk(accs, offset, length, update, partial).err != GRIB_SUCCESS
    ensures i < |accs|
    ensures var w := Walk(accs, offset, length, update, partial);
            && w.accs[i + 1..] == accs[i + 1..]
            && (forall j :: 0 <= j < i ==> AdjustAcc(accs[j], update, partial) == Outcome(w.accs[j], GRIB_SUCCESS))
            && var r, end := AdjustAcc(accs[i], update, partial), offset + Sum(w.accs[..i]);
               if r.err != GRIB_SUCCESS then
                 && w.err == r.err && w.accs[i] == r.state
                 && w.accs[i].offset == accs[i].offset && w.accs[i].length == accs[i].length
               else
                 w.err == GRIB_DECODING_ERROR && accs[i].offset != end && w.accs[i] == r.state.(offset := end)
    decreases accs
  {
    hide Walk, Adjust;
    if accs == [] {
      WalkNone(offset, length, update, partial);
      assert false;
    } else {
      WalkCases(accs, offset, length, update, partial);
      var r := AdjustAcc(accs[0], update, partial);
      if r.err != GRIB_SUCCESS || offset != r.state.offset {
        i := 0;
      } else {
        var l := r.state.length;
        i := WalkStopsAt(accs[1..], offset + l, length + l, update, partial);
        var w := Walk(accs, offset, length, update, partial);
        assert w.accs[..i + 1] == [w.accs[0]] + w.accs[1..][..i];
        i := i + 1;
      }
    }
  }

  /** A section that could not be adjusted keeps its field, its padding and its length. */
  lemma FailureKeeps(s: Sec, o: int, update: nat, partial: bool)
    requires Adjust(s, o, update, partial).err != GRIB_SUCCESS
    ensures var s' := Adjust(s, o, update, partial).state;
            s'.field == s.field && s'.padding == s.padding && s'.length == s.length
  {
    hide Walk;
  }

  /** In one of up to four octets a length out of range is refused, except for the number for missing
      values; in a wider one it is cut off. */
  lemma OutOfRangeRefused(s: Sec, o: int, update: nat, partial: bool)
    requires update > 0 && s.field.Some? && (s.field.value.stored != Leaves(s) || update > 1)
    requires s.field.value.octets <= 4 && Leaves(s) >= Pow2(8 * s.field.value.octets) && Leaves(s) != 2147483647
    ensures Adjust(s, o, update, partial).err != GRIB_SUCCESS
  {
    hide Walk, FieldsFitAll, OffsetsMatchAll;
    if Adjust(s, o, update, partial).err == GRIB_SUCCESS { WalkLays(s.accs, o, 0, update, partial); }
  }

  /** There are two errors, one of them for rewriting only. */
  lemma {:induction false} AdjustErrors(s: Sec, o: int, update: nat, partial: bool)
    ensures var err := Adjust(s, o, update, partial).err; err == 0 || err == -13 || (update > 0 && err == -14)
    decreases s, 1
  {
    WalkErrors(s.accs, o, if update > 0 then 0 else s.padding, update, partial);
  }

  lemma {:induction false} WalkErrors(accs: seq<Acc>, offset: int, length: nat, update: nat, partial: bool)
    ensures var err := Walk(accs, offset, length, update, partial).err;
            err == 0 || err == -13 || (update > 0 && err == -14)
    decreases accs, 0
  {
    hide Walk, Adjust;
    if accs != [] {
      assert accs decreases to accs[0];
      WalkCases(accs, offset, length, update, partial);
      if accs[0].sub.Some? { AdjustErrors(accs[0].sub.value, accs[0].offset, update, partial); }
      var l := AdjustAcc(accs[0], update, partial).state.length;
      WalkErrors(accs[1..], offset + l, length + l, update, partial);
    } else {
      WalkNone(offset, length, update, partial);
    }
  }

  // ---------------------------------------------------------------- reading what was forced

  /** A section without a length field has no padding. */
  predicate FieldlessUnpadded(s: Sec)
    decreases s, 1
  {
    FieldlessUnpaddedAll(s.accs) && (s.field.None? ==> s.padding == 0)
  }

  predicate FieldlessUnpaddedAll(accs: seq<Acc>)
    decreases accs, 0
  {
    accs == [] ||
    (assert accs decreases to accs[0];
     (accs[0].sub.Some? ==> FieldlessUnpadded(accs[0].sub.value)) && FieldlessUnpaddedAll(accs[1..]))
  }

  /** A layout whose lengths have been forced is read without a change exactly when no padding was left in
      a section without a length field and, in a partial message, every length is in the range of its field. */
  lemma ReadAfterForcedIff(s: Sec, o: int, partial: bool, partial': bool)
    requires Adjust(s, o, 2, partial).err == GRIB_SUCCESS
    ensures var s' := Adjust(s, o, 2, partial).state;
            Adjust(s', o, 0, partial') == Outcome(s', GRIB_SUCCESS)
            <==> FieldlessUnpadded(s) && (partial' ==> FieldsHold(s))
  {
    hide Adjust, FieldsHold, FieldlessUnpadded, Laid, Told, Updated;
    var s' := Adjust(s, o, 2, partial).state;
    AdjustUpdates(s, o, 2, partial);
    AdjustLays(s, o, 2, partial);
    ForcedFacts(s, s');
    ReadsUnchangedIff(s', o, partial');
  }

  /** Fields say no more than the length, and there is no padding with them. */
  predicate Forced(s: Sec)
    decreases s, 1
  {
    ForcedAll(s.accs) && (s.field.Some? ==> s.padding == 0 && s.field.value.stored <= s.length)
  }

  predicate ForcedAll(accs: seq<Acc>)
    decreases accs, 0
  {
    accs == [] ||
    (assert accs decreases to accs[0];
     (accs[0].sub.Some? ==> Forced(accs[0].sub.value)) && ForcedAll(accs[1..]))
  }

  lemma {:induction false} ForcedFacts(s: Sec, s': Sec)
    requires Updated(s, s', 2)
    ensures Forced(s') && (FieldlessUnpadded(s') <==> FieldlessUnpadded(s)) && (Told(s') <==> FieldsHold(s))
    decreases s, 1
  {
    hide Pow2;
    ForcedFactsAll(s.accs, s'.accs);
    LeavesAreNew(s.accs);
    if s.field.Some? { Remainder(Leaves(s), Pow2(8 * s.field.value.octets)); }
  }

  lemma Remainder(x: nat, m: nat)
    requires m > 0
    ensures x % m <= x && (x % m == x <==> x < m)
  {
    if x < m { assert x / m == 0; }
  }

  lemma {:induction false} ForcedFactsAll(accs: seq<Acc>, accs': seq<Acc>)
    requires UpdatedAll(accs, accs', 2)
    ensures ForcedAll(accs') && (FieldlessUnpaddedAll(accs') <==> FieldlessUnpaddedAll(accs))
    ensures ToldAll(accs') <==> FieldsHoldAll(accs)
    decreases accs, 0
  {
    hide Updated, Forced, FieldlessUnpadded, Told, FieldsHold;
    if accs != [] {
      assert accs decreases to accs[0];
      if accs[0].sub.Some? { ForcedFacts(accs[0].sub.value, accs'[0].sub.value); }
      ForcedFactsAll(accs[1..], accs'[1..]);
    }
  }

  lemma {:induction false} LeavesAreNew(accs: seq<Acc>)
    ensures NewLengths(accs, 1, false) == LeavesAll(accs)
    decreases accs, 0
  {
    if accs != [] {
      assert accs decreases to accs[0];
      if accs[0].sub.Some? {
        var t := accs[0].sub.value;
        LeavesAreNew(t.accs);
        assert NewLength(t, 1, false) == Leaves(t);
      }
      LeavesAreNew(accs[1..]);
    }
  }

  lemma {:induction false} ReadsUnchangedIff(s: Sec, o: int, partial: bool)
    requires Laid(s, o) && Forced(s)
    ensures Adjust(s, o, 0, partial) == Outcome(s, GRIB_SUCCESS)
            <==> FieldlessUnpadded(s) && (partial ==> Told(s))
    decreases s, 1
  {
    hide Walk;
    var w := Walk(s.accs, o, s.padding, 0, partial);
    WalkUnchangedIff(s.accs, o, s.padding, partial);
  }

  lemma {:induction false} WalkUnchangedIff(accs: seq<Acc>, offset: int, length: nat, partial: bool)
    requires LaidAll(accs, offset) && ForcedAll(accs)
    ensures var w := Walk(accs, offset, length, 0, partial);
            && (w.accs == accs && w.err == GRIB_SUCCESS <==>
                  FieldlessUnpaddedAll(accs) && (partial ==> ToldAll(accs)))
            && (w.accs == accs && w.err == GRIB_SUCCESS ==> w.length == length + Sum(accs))
    decreases accs, 0
  {
    hide Walk, Adjust, Laid, Forced, FieldlessUnpadded, Told;
    if accs != [] {
      assert accs decreases to accs[0];
      var a, r := accs[0], AdjustAcc(accs[0], 0, partial);
      WalkCases(accs, offset, length, 0, partial);
      if a.sub.Some? { ReadsUnchangedIff(a.sub.value, offset, partial); }
      if r == Outcome(a, GRIB_SUCCESS) {
        WalkUnchangedIff(accs[1..], offset + a.length, length + a.length, partial);
        assert [a] + accs[1..] == accs;
      }
    } else {
      WalkNone(offset, length, 0, partial);
    }
  }
}
