/** Lists of actions that make accessors, length fields and templates, which are lists of actions for the
    section below an accessor (src/action_class_gen.cc, src/action_class_template.cc), and what they come to. */
module Actions {
  import opened Results
  import opened Bits
  import opened Shifts
  import opened Layout
  import opened Sections
  import opened Paddings
  import opened Blocks
  import opened Counting
  import opened Creating

  // ---------------------------------------------------------------- actions

  /** How an accessor will choose its preferred size; the accessor it counts from goes by its name. */
  datatype Rule =
    | AsItIs
    | Fixed(amount: int)
    | UpTo(begin: string, distance: int)
    | UpToEven(begin: string)
    | UpToMultiple(begin: string, multiple: pos)

  datatype Action =
    | Make(name: string, rule: Rule, len: nat)
    | MakeLength(name: string, len: nat)
    | Template(name: string, body: seq<Action>)

  /** The bytes that an action takes, ... */
  function ExtentOf(act: Action): nat
    decreases act
  {
    if act.Template? then Extents(act.body) else act.len
  }

  /** ... and a list of them. */
  function Extents(acts: seq<Action>): nat
    decreases acts, 0
  {
    if acts == [] then 0
    else
      assert acts decreases to acts[|acts| - 1];
      Extents(acts[..|acts| - 1]) + ExtentOf(acts[|acts| - 1])
  }

  /** The lengths of the leaves that come of it. */
  function LensOf(act: Action): seq<nat>
    decreases act
  {
    if act.Template? then Lens(act.body) else [act.len]
  }

  function Lens(acts: seq<Action>): seq<nat>
    decreases acts, 0
  {
    if acts == [] then []
    else
      assert acts decreases to acts[|acts| - 1];
      Lens(acts[..|acts| - 1]) + LensOf(acts[|acts| - 1])
  }

  lemma {:induction false} LensTotal(acts: seq<Action>)
    ensures Total(Lens(acts)) == Extents(acts)
    decreases acts, 0
  {
    if acts != [] {
      var n := |acts| - 1;
      assert acts decreases to acts[n];
      LensTotal(acts[..n]);
      LensOfTotal(acts[n]);
      TotalAppend(Lens(acts[..n]), LensOf(acts[n]));
    }
  }

  lemma {:induction false} LensOfTotal(act: Action)
    ensures Total(LensOf(act)) == ExtentOf(act)
    decreases act
  {
    if act.Template? { LensTotal(act.body); } else { TotalOne(act.len); }
  }

  /** The last of the length fields that a section is given is the one it uses. */
  function FieldOfList(acts: seq<Action>): (r: Option<nat>)
    ensures r.Some? ==> r.value < |acts| && acts[r.value].MakeLength?
  {
    if acts == [] then None
    else if acts[|acts| - 1].MakeLength? then Some(|acts| - 1)
    else FieldOfList(acts[..|acts| - 1])
  }

  /** While a section is parsed again, its field must be wide enough for the section; while a message is
      read, the field must say no more than there is. */
  predicate FieldFits(acts: seq<Action>, o: int, data: seq<byte>, loader: bool) {
    FieldOfList(acts).Some? ==>
      var w := FieldOfList(acts).value;
      var at, n := o + Extents(acts[..w]), acts[w].len;
      if loader then Extents(acts) < Pow2(8 * n)
      else 0 <= at && at + n <= |data| && NatOf(data[at..at + n]) <= Extents(acts)
  }

  /** The lists for which counting comes out right on the way; o is where the section starts. */
  predicate Regular(acts: seq<Action>, o: int, data: seq<byte>, loader: bool)
    decreases acts, 0
  {
    forall i {:trigger acts[i]} :: 0 <= i < |acts| ==>
      assert acts decreases to acts[i];
      RegularAt(acts[i], o + Extents(acts[..i]), data, loader) && (i < |acts| - 1 ==> !Uncounted(acts[i]))
  }

  predicate RegularAt(act: Action, o: int, data: seq<byte>, loader: bool)
    decreases act
  {
    match act
    case Make(_, _, _) => true
    case MakeLength(_, len) => 1 <= len <= 8
    case Template(_, body) => Regular(body, o, data, loader) && FieldFits(body, o, data, loader)
  }

  predicate Uncounted(act: Action) { act.Template? && Underscored(act.name) }

  // ---------------------------------------------------------------- sections that count right

  predicate Good(s: Sec, loader: bool) {
    if loader then FieldsHold(s) else Modest(s)
  }

  lemma GoodSection(s: Sec, loader: bool)
    requires forall a :: a in s.accs && a.sub.Some? ==> Good(a.sub.value, loader)
    requires loader && s.field.Some? ==> Total(LeafLengths(s)) < Pow2(8 * s.field.value.octets)
    requires !loader ==> s.padding == 0 && (s.field.Some? ==> s.field.value.stored <= Total(LeafLengths(s)))
    ensures Good(s, loader)
  {
    hide LeafLengthsAll, FieldsHoldAll, ModestAll, NewLengths, Pow2, Total;
    NewLengthsTotal(s.accs);
    GoodAll(s.accs, loader);
  }

  lemma {:induction false} GoodAll(accs: seq<Acc>, loader: bool)
    requires forall a :: a in accs && a.sub.Some? ==> Good(a.sub.value, loader)
    ensures if loader then FieldsHoldAll(accs) else ModestAll(accs)
    decreases |accs|
  {
    hide Modest, FieldsHold;
    if accs != [] {
      assert accs[0] in accs;
      GoodAll(accs[1..], loader);
    }
  }

  /** Reading leaves such a message one. */
  lemma {:induction false} ReadingModest(s: Sec, o: int)
    requires Modest(s) && OffsetsMatch(s, o, 1, false)
    ensures Modest(Adjust(s, o, 0, false).state)
    decreases s, 1
  {
    hide Walk, LeafLengthsAll, NewLengths, ModestAll, OffsetsMatchAll, FieldsFitAll;
    var w := Walk(s.accs, o, 0, 0, false);
    ModestReadsRightAll(s.accs, o);
    ReadingFitsAll(s.accs);
    WalkSucceedsIff(s.accs, o, 0, 0, false);
    WalkModest(s.accs, o, 0);
    WalkKeepsLeaves(s.accs, o, 0, 0, false);
    NewLengthsTotal(s.accs);
    NewLengthsTotal(w.accs);
  }

  lemma {:induction false} WalkModest(accs: seq<Acc>, o: int, length: nat)
    requires ModestAll(accs) && OffsetsMatchAll(accs, o, 1, false)
    ensures ModestAll(Walk(accs, o, length, 0, false).accs)
    decreases accs, 0
  {
    hide Walk, Adjust, Modest, OffsetsMatch, NewLength;
    if accs != [] {
      assert accs decreases to accs[0];
      var r := AdjustAcc(accs[0], 0, false);
      WalkCases(accs, o, length, 0, false);
      if accs[0].sub.Some? {
        ReadingModest(accs[0].sub.value, o);
        ModestReadsRight(accs[0].sub.value, o);
        ReadingFits(accs[0].sub.value);
        AdjustSucceedsIff(accs[0].sub.value, o, 0, false);
      }
      WalkModest(accs[1..], o + r.state.length, length + r.state.length);
    } else {
      WalkNone(o, length, 0, false);
    }
  }

  /** Counting an accessor over such a section comes out right, and leaves it such a section. */
  lemma GoodCounts(v: Acc, name: string, loader: bool)
    requires v.sub.Some? && Good(v.sub.value, loader) && !Underscored(name) && v.length == 0
    requires OffsetsMatch(v.sub.value, v.offset, 1, false)
    ensures var (v', bytes) := Counted(v, name, loader, false);
            && CountsRight(v, name, loader, false) && bytes == v'.length
            && v'.sub.Some? && Good(v'.sub.value, loader)
  {
    hide Adjust, OffsetsMatch, FieldsHold, Modest, FieldsFit, NewLength, ReadsRight;
    var s := v.sub.value;
    CountedAll(v, name, loader, false);
    if loader {
      HoldsFits(s, 1);
      AdjustHolds(s, v.offset, 1, false);
    } else {
      ModestReadsRight(s, v.offset);
      ReadingModest(s, v.offset);
    }
  }

  // ---------------------------------------------------------------- a section, as far as it is made

  /** The block of a section after some actions, as values; o is where it starts. */
  predicate Follows(v: Sec, acts: seq<Action>, o: int, data: seq<byte>, loader: bool) {
    && |v.accs| == |acts| && LeafLengths(v) == Lens(acts) && v.padding == 0
    && (forall i :: 0 <= i < |acts| ==> Done(v.accs[i], acts[i], loader))
    && (v.field.Some? <==> FieldOfList(acts).Some?)
    && (v.field.Some? ==>
          var w, f := FieldOfList(acts).value, v.field.value;
          var at := o + Extents(acts[..w]);
          && f.which == w && f.octets == acts[w].len
          && (0 <= at && at + f.octets <= |data| ==> f.stored == NatOf(data[at..at + f.octets])))
  }

  predicate Done(a: Acc, act: Action, loader: bool) {
    (a.sub.Some? <==> act.Template?) && (a.sub.Some? ==> Good(a.sub.value, loader))
  }

  /** The last accessor has not been counted. */
  predicate Idle(v: Sec) {
    v.accs != [] && v.accs[|v.accs| - 1].sub.Some? ==> v.accs[|v.accs| - 1].length == 0
  }

  lemma {:induction false} LeafLengthsAppend(accs: seq<Acc>, a: Acc)
    ensures LeafLengthsAll(accs + [a]) == LeafLengthsAll(accs) + LeafLengthsAcc(a)
    decreases |accs|
  {
    hide LeafLengthsAcc;
    var more := accs + [a];
    if accs == [] {
      assert more[0] == a && more[1..] == [] && LeafLengthsAcc(a) + [] == LeafLengthsAcc(a);
    } else {
      assert more[0] == accs[0] && more[1..] == accs[1..] + [a];
      LeafLengthsAppend(accs[1..], a);
    }
  }

  /** An accessor is where the leaves before it end. */
  lemma {:induction false} LastPlace(accs: seq<Acc>, a: Acc, o: int)
    requires OffsetsMatchAll(accs + [a], o, 1, false)
    ensures a.offset == o + Total(LeafLengthsAll(accs))
    decreases |accs|
  {
    hide LeafLengthsAcc, OffsetsMatch, NewLengthAcc;
    var more := accs + [a];
    if accs == [] {
      assert more[0] == a && Total([]) == 0;
    } else {
      assert more[0] == accs[0] && more[1..] == accs[1..] + [a];
      NewLengthIsTotal(accs[0], false);
      LastPlace(accs[1..], a, o + NewLengthAcc(accs[0], 1, false));
      TotalAppend(LeafLengthsAcc(accs[0]), LeafLengthsAll(accs[1..]));
    }
  }

  lemma {:induction false} LastMatches(accs: seq<Acc>, o: int, i: nat)
    requires OffsetsMatchAll(accs, o, 1, false) && i < |accs|
    ensures accs[i].sub.Some? ==> OffsetsMatch(accs[i].sub.value, accs[i].offset, 1, false)
    decreases i
  {
    if i > 0 { LastMatches(accs[1..], o + NewLengthAcc(accs[0], 1, false), i - 1); }
  }

  /** Counting the last accessor keeps to the actions. */
  lemma CountedFollows(v: Sec, acts: seq<Action>, o: int, data: seq<byte>, loader: bool, name: string)
    requires Follows(v, acts, o, data, loader) && Idle(v) && v.accs != [] && OffsetsMatch(v, o, 1, false)
    requires acts[|acts| - 1].Template? ==> !Underscored(name)
    ensures var last := v.accs[|v.accs| - 1]; var (last', bytes) := Counted(last, name, loader, false);
            && CountsRight(last, name, loader, false) && bytes == last'.length
            && last.offset + bytes == o + Extents(acts)
            && Follows(WithLast(v, last'), acts, o, data, loader)
  {
    hide LeafLengthsAll, LeafLengthsAcc, OffsetsMatchAll, OffsetsMatch, Total, Extents, FieldOfList, Good, Counted,
      NatOf, CountsRight, NewLength, Lens;
    var n := |v.accs| - 1;
    var front, last := v.accs[..n], v.accs[n];
    var last' := Counted(last, name, loader, false).0;
    assert v.accs == front + [last] && Done(v.accs[n], acts[n], loader);
    OffsetsInside(v, o);
    LastMatches(v.accs, o, n);
    if last.sub.Some? { GoodCounts(last, name, loader); } else { CountedLeaf(last, name, loader); }
    CountedPlaces(last, name, loader, false);
    LeafLengthsAppend(front, last);
    LeafLengthsAppend(front, last');
    TotalAppend(LeafLengthsAll(front), LeafLengthsAcc(last));
    LensTotal(acts);
    LastPlace(front, last, o);
    NewLengthIsTotal(last', false);
    forall i | 0 <= i < |acts|
      ensures Done(WithLast(v, last').accs[i], acts[i], loader)
    {
      assert Done(v.accs[i], acts[i], loader);
    }
  }

  lemma OffsetsInside(v: Sec, o: int)
    requires OffsetsMatch(v, o, 1, false)
    ensures OffsetsMatchAll(v.accs, o, 1, false) && LeafLengths(v) == LeafLengthsAll(v.accs)
  {
  }

  lemma CountedLeaf(v: Acc, name: string, loader: bool)
    requires v.sub.None?
    ensures Counted(v, name, loader, false) == (v, v.length) && CountsRight(v, name, loader, false)
  {
  }

  lemma MoreActions(acts: seq<Action>, act: Action)
    ensures Extents(acts + [act]) == Extents(acts) + ExtentOf(act)
    ensures Lens(acts + [act]) == Lens(acts) + LensOf(act)
    ensures FieldOfList(acts + [act]) == if act.MakeLength? then Some(|acts|) else FieldOfList(acts)
    ensures forall w :: 0 <= w <= |acts| ==> (acts + [act])[..w] == acts[..w]
  {
    assert (acts + [act])[..|acts|] == acts;
  }

  /** So does one more action. */
  lemma AddedFollows(v: Sec, acts: seq<Action>, o: int, data: seq<byte>, loader: bool, a: Acc, act: Action,
                     field: Option<LengthField>)
    requires Follows(v, acts, o, data, loader) && Done(a, act, loader) && LeafLengthsAcc(a) == LensOf(act)
    requires if !act.MakeLength? then field == v.field
             else
               var at := o + Extents(acts);
               && field.Some? && field.value.which == |acts| && field.value.octets == act.len
               && (0 <= at && at + act.len <= |data| ==> field.value.stored == NatOf(data[at..at + act.len]))
    ensures Follows(v.(accs := v.accs + [a], field := field), acts + [act], o, data, loader)
  {
    hide LeafLengthsAll, LeafLengthsAcc, Good, NatOf, Done, Extents, ExtentOf, FieldOfList, Lens, LensOf;
    LeafLengthsAppend(v.accs, a);
    MoreActions(acts, act);
    var more, v' := acts + [act], v.(accs := v.accs + [a], field := field);
    forall i | 0 <= i < |more|
      ensures Done(v'.accs[i], more[i], loader)
    {
    }
  }

  /** No mark has to be found. */
  predicate Certain(act: Action)
    decreases act
  {
    match act
    case Make(_, rule, _) => rule.AsItIs? || rule.Fixed?
    case MakeLength(_, _) => true
    case Template(_, body) => AllCertain(body)
  }

  predicate AllCertain(acts: seq<Action>)
    decreases acts, 0
  {
    forall i :: 0 <= i < |acts| ==>
      assert acts decreases to acts[i];
      Certain(acts[i])
  }

  // ---------------------------------------------------------------- an example

  /** A section with the length of itself, a mark, and a padding that counts from the mark. */
  function Example(): seq<Action> {
    [Template("section", [MakeLength("length", 3), Make("start", AsItIs, 0), Make("body", AsItIs, 5),
                          Make("padding", UpToEven("start"), 1)])]
  }

  /** It can be parsed again whatever the data, and read if its length field says no more than nine. */
  lemma ExampleRegular(data: seq<byte>)
    ensures Regular(Example(), 0, data, true) && FieldFits(Example(), 0, data, true)
    ensures Regular(Example(), 0, data, false) <==> 3 <= |data| && NatOf(data[..3]) <= 9
  {
    hide Regular, Pow2, NatOf, FieldOfList, Extents;
    var body := Example()[0].body;
    ExampleBody();
    ThreeOctets();
    RegularOne("section", body, data, true);
    RegularOne("section", body, data, false);
    FlatRegular(body, data, true);
    FlatRegular(body, data, false);
    MoreActions([], Example()[0]);
    assert Example() == [] + [Example()[0]] && FieldOfList([]) == None by { NoActions(); }
    if 3 <= |data| { assert data[0..3] == data[..3]; }
  }

  lemma NoActions()
    ensures FieldOfList([]) == None && Extents([]) == 0
  {
  }

  lemma ExampleBody()
    ensures var body := Example()[0].body;
            Extents(body) == 9 && Extents(body[..0]) == 0 && FieldOfList(body) == Some(0)
  {
    hide Extents, FieldOfList;
    var body := Example()[0].body;
    NoActions();
    MoreActions([], body[0]);
    MoreActions([body[0]], body[1]);
    MoreActions([body[0], body[1]], body[2]);
    MoreActions([body[0], body[1], body[2]], body[3]);
    assert [] + [body[0]] == [body[0]] && [body[0]] + [body[1]] == [body[0], body[1]];
    assert [body[0], body[1]] + [body[2]] == [body[0], body[1], body[2]];
    assert body == [body[0], body[1], body[2]] + [body[3]] && body[..0] == [];
  }

  lemma RegularOne(name: string, body: seq<Action>, data: seq<byte>, loader: bool)
    ensures Regular([Template(name, body)], 0, data, loader)
       <==> Regular(body, 0, data, loader) && FieldFits(body, 0, data, loader)
  {
    hide FieldFits;
    var acts := [Template(name, body)];
    assert acts[..0] == [] && Extents([]) == 0;
    assert Regular(acts, 0, data, loader) <==> RegularAt(acts[0], 0, data, loader);
  }

  lemma FlatRegular(body: seq<Action>, data: seq<byte>, loader: bool)
    requires forall act :: act in body ==> act.Make? || (act.MakeLength? && 1 <= act.len <= 8)
    ensures Regular(body, 0, data, loader)
  {
    forall i | 0 <= i < |body|
      ensures RegularAt(body[i], 0 + Extents(body[..i]), data, loader) && !Uncounted(body[i])
    {
      assert body[i] in body;
    }
  }
}
