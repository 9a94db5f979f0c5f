/** Where the length fields of a layout lie in the message, and that their octets hold what the layout
    says (src/grib_accessor_class.cc, src/accessor/grib_accessor_class_unsigned.cc). */
module LengthFields {
  import opened Results
  import opened Bits
  import opened Layout

  /** n octets from offset at on. */
  datatype Place = Place(at: int, n: nat)

  /** The places of all length fields, those below a section before its own. */
  function Places(s: Sec): seq<Place>
    decreases s, 1
  {
    PlacesAll(s.accs) + OwnPlace(s)
  }

  function PlacesAcc(a: Acc): seq<Place>
    decreases a
  {
    if a.sub.None? then [] else Places(a.sub.value)
  }

  function PlacesAll(accs: seq<Acc>): seq<Place>
    decreases accs, 0
  {
    if accs == [] then [] else PlacesAcc(accs[0]) + PlacesAll(accs[1..])
  }

  function OwnPlace(s: Sec): seq<Place> {
    if s.field.None? then []
    else
      var f := s.field.value;
      [Place(if f.which < |s.accs| then s.accs[f.which].offset else 0, f.octets)]
  }

  /** The numbers stored there, in the same order. */
  function Stores(s: Sec): seq<nat>
    decreases s, 1
  {
    StoresAll(s.accs) + OwnStore(s.field)
  }

  function StoresAcc(a: Acc): seq<nat>
    decreases a
  {
    if a.sub.None? then [] else Stores(a.sub.value)
  }

  function StoresAll(accs: seq<Acc>): seq<nat>
    decreases accs, 0
  {
    if accs == [] then [] else StoresAcc(accs[0]) + StoresAll(accs[1..])
  }

  function OwnStore(field: Option<LengthField>): seq<nat> {
    if field.None? then [] else [field.value.stored]
  }

  // ---------------------------------------------------------------- octets and numbers

  predicate Inside(p: Place, n: nat) {
    1 <= p.n <= 8 && 0 <= p.at && p.at + p.n <= n
  }

  /** The octets at the places hold the numbers. */
  ghost predicate Denote(places: seq<Place>, stores: seq<nat>, data: seq<byte>) {
    && |places| == |stores|
    && forall i :: 0 <= i < |places| ==>
         Inside(places[i], |data|) && NatOf(data[places[i].at..places[i].at + places[i].n]) == stores[i]
  }

  predicate Disjoint(p: Place, q: Place) {
    p.at + p.n <= q.at || q.at + q.n <= p.at
  }

  /** No two fields share an octet. */
  ghost predicate Apart(places: seq<Place>) {
    forall i, j :: 0 <= i < j < |places| ==> Disjoint(places[i], places[j])
  }

  ghost predicate ApartFrom(places: seq<Place>, others: seq<Place>) {
    forall i, j :: 0 <= i < |places| && 0 <= j < |others| ==> Disjoint(places[i], others[j])
  }

  ghost predicate Covered(places: seq<Place>, i: int) {
    exists k :: 0 <= k < |places| && places[k].at <= i < places[k].at + places[k].n
  }

  /** Octets outside the places are the same. */
  ghost predicate SameElsewhere(places: seq<Place>, was: seq<byte>, now: seq<byte>) {
    && |was| == |now|
    && forall i :: 0 <= i < |was| && !Covered(places, i) ==> now[i] == was[i]
  }

  /** A stretch that shares no octet with the places keeps its octets. */
  lemma StretchKept(places: seq<Place>, was: seq<byte>, now: seq<byte>, at: nat, n: nat)
    requires SameElsewhere(places, was, now) && at + n <= |was|
    requires forall j :: 0 <= j < |places| ==> Disjoint(Place(at, n), places[j])
    ensures now[at..at + n] == was[at..at + n]
  {
    forall i | at <= i < at + n
      ensures now[i] == was[i]
    {
      forall k | 0 <= k < |places|
        ensures !(places[k].at <= i < places[k].at + places[k].n)
      {
        assert Disjoint(Place(at, n), places[k]);
      }
    }
  }

  /** Fields hold what they held when others are rewritten. */
  lemma DenoteKept(places: seq<Place>, stores: seq<nat>, others: seq<Place>, was: seq<byte>, now: seq<byte>)
    requires Denote(places, stores, was) && ApartFrom(places, others) && SameElsewhere(others, was, now)
    ensures Denote(places, stores, now)
  {
    forall i | 0 <= i < |places|
      ensures Inside(places[i], |now|) && NatOf(now[places[i].at..places[i].at + places[i].n]) == stores[i]
    {
      assert Inside(places[i], |was|);
      StretchKept(others, was, now, places[i].at, places[i].n);
    }
  }

  lemma SameWider(places: seq<Place>, more: seq<Place>, was: seq<byte>, now: seq<byte>)
    requires SameElsewhere(places, was, now) && forall p :: p in places ==> p in more
    ensures SameElsewhere(more, was, now)
  {
    forall i | 0 <= i < |was| && !Covered(more, i)
      ensures !Covered(places, i)
    {
      forall k | 0 <= k < |places|
        ensures !(places[k].at <= i < places[k].at + places[k].n)
      {
        assert places[k] in more;
      }
    }
  }

  lemma SameTwice(places: seq<Place>, a: seq<byte>, b: seq<byte>, c: seq<byte>)
    requires SameElsewhere(places, a, b) && SameElsewhere(places, b, c)
    ensures SameElsewhere(places, a, c)
  {
  }

  lemma SameAtOnce(places: seq<Place>, data: seq<byte>)
    ensures SameElsewhere(places, data, data)
  {
  }

  lemma DenoteJoin(p: seq<Place>, s: seq<nat>, q: seq<Place>, t: seq<nat>, data: seq<byte>)
    requires |p| == |s|
    ensures Denote(p + q, s + t, data) <==> Denote(p, s, data) && Denote(q, t, data)
  {
    if Denote(p + q, s + t, data) {
      forall i | 0 <= i < |p|
        ensures Inside(p[i], |data|) && NatOf(data[p[i].at..p[i].at + p[i].n]) == s[i]
      {
        assert (p + q)[i] == p[i] && (s + t)[i] == s[i];
      }
      forall i | 0 <= i < |q|
        ensures Inside(q[i], |data|) && NatOf(data[q[i].at..q[i].at + q[i].n]) == t[i]
      {
        assert (p + q)[|p| + i] == q[i] && (s + t)[|s| + i] == t[i];
      }
    }
  }

  lemma ApartJoin(p: seq<Place>, q: seq<Place>)
    requires Apart(p + q)
    ensures Apart(p) && Apart(q) && ApartFrom(p, q) && ApartFrom(q, p)
  {
    forall i, j | 0 <= i < j < |p|
      ensures Disjoint(p[i], p[j])
    {
      assert Disjoint((p + q)[i], (p + q)[j]);
    }
    forall i, j | 0 <= i < j < |q|
      ensures Disjoint(q[i], q[j])
    {
      assert Disjoint((p + q)[|p| + i], (p + q)[|p| + j]);
    }
    forall i, j | 0 <= i < |p| && 0 <= j < |q|
      ensures Disjoint(p[i], q[j])
    {
      assert Disjoint((p + q)[i], (p + q)[|p| + j]);
    }
  }

  /** The middle one of three groups of fields is rewritten. */
  lemma MiddleRewritten(p: seq<Place>, s: seq<nat>, q: seq<Place>, t: seq<nat>, t': seq<nat>,
                        r: seq<Place>, u: seq<nat>, start: seq<byte>, was: seq<byte>, now: seq<byte>)
    requires |p| == |s| && |q| == |t| && |t| == |t'| && |r| == |u| && Apart(p + q + r)
    requires Denote(p + q + r, s + t + u, was) && SameElsewhere(p + q + r, start, was)
    requires Denote(q, t', now) && SameElsewhere(q, was, now)
    ensures Denote(p + q + r, s + t' + u, now) && SameElsewhere(p + q + r, start, now)
  {
    hide Denote, Apart, ApartFrom, SameElsewhere;
    DenoteJoin(p + q, s + t, r, u, was);
    DenoteJoin(p, s, q, t, was);
    ApartJoin(p + q, r);
    ApartJoin(p, q);
    SameWider(q, p + q, was, now);
    DenoteKept(r, u, p + q, was, now);
    DenoteKept(p, s, q, was, now);
    DenoteJoin(p, s, q, t', now);
    DenoteJoin(p + q, s + t', r, u, now);
    SameWider(p + q, p + q + r, was, now);
    SameTwice(p + q + r, start, was, now);
  }

  /** The length fields of a section hold what the layout says, and do not overlap. */
  ghost predicate Readable(s: Sec, data: seq<byte>) {
    Denote(Places(s), Stores(s), data) && Apart(Places(s))
  }

  ghost predicate ReadableAcc(a: Acc, data: seq<byte>) {
    Denote(PlacesAcc(a), StoresAcc(a), data) && Apart(PlacesAcc(a))
  }

  ghost predicate ReadableAll(accs: seq<Acc>, data: seq<byte>) {
    Denote(PlacesAll(accs), StoresAll(accs), data) && Apart(PlacesAll(accs))
  }

  /** The octets of the length fields of s now hold the numbers of s'; no other octet has changed. */
  ghost predicate Rewritten(s: Sec, s': Sec, was: seq<byte>, now: seq<byte>) {
    Denote(Places(s), Stores(s'), now) && SameElsewhere(Places(s), was, now)
  }

  ghost predicate RewrittenAcc(a: Acc, a': Acc, was: seq<byte>, now: seq<byte>) {
    Denote(PlacesAcc(a), StoresAcc(a'), now) && SameElsewhere(PlacesAcc(a), was, now)
  }

  ghost predicate RewrittenAll(accs: seq<Acc>, accs': seq<Acc>, was: seq<byte>, now: seq<byte>) {
    Denote(PlacesAll(accs), StoresAll(accs'), now) && SameElsewhere(PlacesAll(accs), was, now)
  }

  /** The fields of one accessor of a block are among those of the block. */
  lemma ReadableOne(done: seq<Acc>, a: Acc, rest: seq<Acc>, vals: seq<Acc>, i: nat, start: seq<byte>, data: seq<byte>)
    requires i < |vals| && a == vals[i] && rest == vals[i + 1..] && Apart(PlacesAll(vals))
    requires |StoresAll(done)| == |StoresAll(vals[..i])|
    requires RewrittenAll(vals, done + [a] + rest, start, data)
    ensures ReadableAcc(a, data)
  {
    hide Denote, Apart, ApartFrom, SameElsewhere, PlacesAll, StoresAll, PlacesAcc, StoresAcc;
    PlacesInParts(vals, i);
    PlacesOfThree(done, a, rest);
    AsManyPlacesAll(vals[..i]);
    AsManyPlacesAcc(a);
    var p, q, r := PlacesAll(vals[..i]), PlacesAcc(a), PlacesAll(rest);
    DenoteJoin(p + q, StoresAll(done) + StoresAcc(a), r, StoresAll(rest), data);
    DenoteJoin(p, StoresAll(done), q, StoresAcc(a), data);
    ApartJoin(p + q, r);
    ApartJoin(p, q);
  }

  /** Rewriting them is a step of rewriting the block. */
  lemma RewrittenOne(done: seq<Acc>, a: Acc, a': Acc, rest: seq<Acc>, vals: seq<Acc>, i: nat, start: seq<byte>,
                     was: seq<byte>, now: seq<byte>)
    requires i < |vals| && a == vals[i] && rest == vals[i + 1..] && Apart(PlacesAll(vals))
    requires |StoresAll(done)| == |StoresAll(vals[..i])|
    requires RewrittenAll(vals, done + [a] + rest, start, was)
    requires RewrittenAcc(a, a', was, now)
    ensures RewrittenAll(vals, done + [a'] + rest, start, now)
    ensures |StoresAll(done + [a'])| == |StoresAll(vals[..i + 1])|
  {
    hide Apart, ApartFrom, SameElsewhere, PlacesAll, StoresAll, PlacesAcc, StoresAcc, Inside;
    PlacesInParts(vals, i);
    PlacesOfThree(done, a, rest);
    PlacesOfThree(done, a', rest);
    AsManyPlacesAll(vals[..i]);
    AsManyPlacesAll(rest);
    AsManyPlacesAcc(a);
    assert vals[..i + 1] == vals[..i] + [a];
    PlacesOfThree(vals[..i], a, rest);
    hide Denote;
    MiddleRewritten(PlacesAll(vals[..i]), StoresAll(done), PlacesAcc(a), StoresAcc(a), StoresAcc(a'), PlacesAll(rest),
      StoresAll(rest), start, was, now);
  }

  lemma PlacesInParts(vals: seq<Acc>, i: nat)
    requires i < |vals|
    ensures PlacesAll(vals) == PlacesAll(vals[..i]) + PlacesAcc(vals[i]) + PlacesAll(vals[i + 1..])
  {
    hide *;
    PlacesOfThree(vals[..i], vals[i], vals[i + 1..]);
    assert vals == vals[..i] + [vals[i]] + vals[i + 1..];
  }

  lemma PlacesOfThree(x: seq<Acc>, a: Acc, y: seq<Acc>)
    ensures PlacesAll(x + [a] + y) == PlacesAll(x) + PlacesAcc(a) + PlacesAll(y)
    ensures StoresAll(x + [a] + y) == StoresAll(x) + StoresAcc(a) + StoresAll(y)
    ensures PlacesAll(x + [a]) == PlacesAll(x) + PlacesAcc(a) && StoresAll(x + [a]) == StoresAll(x) + StoresAcc(a)
  {
    hide *;
    PlacesJoin(x + [a], y);
    PlacesJoin(x, [a]);
    PlacesOfOne(a);
  }

  // ---------------------------------------------------------------- lists of accessors

  lemma {:induction false} PlacesJoin(a: seq<Acc>, b: seq<Acc>)
    ensures PlacesAll(a + b) == PlacesAll(a) + PlacesAll(b)
    ensures StoresAll(a + b) == StoresAll(a) + StoresAll(b)
  {
    hide *;
    if a == [] {
      assert a + b == b;
      PlacesOfNone();
    } else {
      PlacesJoin(a[1..], b);
      assert (a + b)[0] == a[0] && (a + b)[1..] == a[1..] + b;
      PlacesOfFirst(a);
      PlacesOfFirst(a + b);
    }
  }

  lemma PlacesOfNone()
    ensures PlacesAll([]) == [] && StoresAll([]) == []
  {
  }

  lemma PlacesOfFirst(accs: seq<Acc>)
    requires accs != []
    ensures PlacesAll(accs) == PlacesAcc(accs[0]) + PlacesAll(accs[1..])
    ensures StoresAll(accs) == StoresAcc(accs[0]) + StoresAll(accs[1..])
  {
  }

  lemma PlacesOfOne(a: Acc)
    ensures PlacesAll([a]) == PlacesAcc(a) && StoresAll([a]) == StoresAcc(a)
  {
    assert [a][1..] == [];
  }

  lemma {:induction false} AsManyPlaces(s: Sec)
    ensures |Places(s)| == |Stores(s)|
    decreases s, 1
  {
    AsManyPlacesAll(s.accs);
  }

  lemma {:induction false} AsManyPlacesAll(accs: seq<Acc>)
    ensures |PlacesAll(accs)| == |StoresAll(accs)|
    decreases accs, 0
  {
    if accs != [] {
      assert accs decreases to accs[0];
      if accs[0].sub.Some? { AsManyPlaces(accs[0].sub.value); }
      AsManyPlacesAll(accs[1..]);
    }
  }

  lemma AsManyPlacesAcc(a: Acc)
    ensures |PlacesAcc(a)| == |StoresAcc(a)|
  {
    if a.sub.Some? { AsManyPlaces(a.sub.value); }
  }

  // ---------------------------------------------------------------- adjusting

  /** Adjusting neither adds nor removes a field, and a walk that succeeds moves nothing. */
  lemma {:induction false} AdjustKeepsPlaces(s: Sec, ownerOffset: int, update: nat, partial: bool)
    ensures var r := Adjust(s, ownerOffset, update, partial);
            && |Stores(r.state)| == |Stores(s)|
            && (OffsetsMatch(s, ownerOffset, update, partial) ==> Places(r.state) == Places(s))
    decreases s, 1
  {
    hide Walk, OffsetsMatchAll;
    WalkKeepsPlaces(s.accs, ownerOffset, if update > 0 then 0 else s.padding, update, partial);
  }

  lemma {:induction false} WalkKeepsPlaces(accs: seq<Acc>, offset: int, length: nat, update: nat, partial: bool)
    ensures var w := Walk(accs, offset, length, update, partial);
            && |StoresAll(w.accs)| == |StoresAll(accs)|
            && (OffsetsMatchAll(accs, offset, update, partial) ==>
                  && PlacesAll(w.accs) == PlacesAll(accs)
                  && forall i :: 0 <= i < |accs| ==> w.accs[i].offset == accs[i].offset)
    decreases accs, 0
  {
    hide Walk, Adjust, OffsetsMatch, Places, Stores, NewLength;
    if accs != [] {
      assert accs decreases to accs[0];
      var a, r := accs[0], AdjustAcc(accs[0], update, partial);
      WalkCases(accs, offset, length, update, partial);
      if a.sub.Some? {
        AdjustKeepsPlaces(a.sub.value, a.offset, update, partial);
        AdjustSucceedsIff(a.sub.value, a.offset, update, partial);
      }
      var l := r.state.length;
      WalkKeepsPlaces(accs[1..], offset + l, length + l, update, partial);
    } else {
      WalkNone(offset, length, update, partial);
    }
  }

  // ---------------------------------------------------------------- what the octets say

  /** At every depth the octets of the length field hold the length of the section. */
  ghost predicate Tells(s: Sec, data: seq<byte>)
    decreases s, 1
  {
    && TellsAll(s.accs, data)
    && (s.field.Some? ==>
          var p := OwnPlace(s)[0];
          Inside(p, |data|) && NatOf(data[p.at..p.at + p.n]) == s.length)
  }

  ghost predicate TellsAll(accs: seq<Acc>, data: seq<byte>)
    decreases accs, 0
  {
    accs == [] ||
    (assert accs decreases to accs[0];
     (accs[0].sub.Some? ==> Tells(accs[0].sub.value, data)) && TellsAll(accs[1..], data))
  }

  /** They do exactly when the stored numbers do. */
  lemma {:induction false} TellsIffTold(s: Sec, data: seq<byte>)
    requires Denote(Places(s), Stores(s), data)
    ensures Tells(s, data) <==> Told(s)
    ensures StoredFits(s)
    decreases s, 1
  {
    hide Denote, PlacesAll, StoresAll, TellsAll, ToldAll, StoredFitsAll, NatOf;
    AsManyPlacesAll(s.accs);
    DenoteJoin(PlacesAll(s.accs), StoresAll(s.accs), OwnPlace(s), OwnStore(s.field), data);
    TellsIffToldAll(s.accs, data);
    if s.field.Some? {
      var p := OwnPlace(s)[0];
      DenoteOne(p, s.field.value.stored, data);
      NatOfWhole(data[p.at..p.at + p.n]);
    }
  }

  lemma {:induction false} TellsIffToldAll(accs: seq<Acc>, data: seq<byte>)
    requires Denote(PlacesAll(accs), StoresAll(accs), data)
    ensures TellsAll(accs, data) <==> ToldAll(accs)
    ensures StoredFitsAll(accs)
    decreases accs, 0
  {
    hide Denote, Places, Stores, Tells, Told, StoredFits;
    if accs != [] {
      assert accs decreases to accs[0];
      AsManyPlacesAcc(accs[0]);
      DenoteJoin(PlacesAcc(accs[0]), StoresAcc(accs[0]), PlacesAll(accs[1..]), StoresAll(accs[1..]), data);
      if accs[0].sub.Some? { TellsIffTold(accs[0].sub.value, data); }
      TellsIffToldAll(accs[1..], data);
    }
  }

  lemma DenoteOne(p: Place, v: nat, data: seq<byte>)
    ensures Denote([p], [v], data) <==> Inside(p, |data|) && NatOf(data[p.at..p.at + p.n]) == v
  {
    assert [p][0] == p && [v][0] == v;
  }

  /** When the lengths of a message have been adjusted and its length fields rewritten, their octets
      hold the lengths of their sections at every depth, exactly when these are in range. */
  lemma AdjustTellsIff(s: Sec, ownerOffset: int, update: nat, partial: bool, was: seq<byte>, now: seq<byte>)
    requires update > 0 && Denote(Places(s), Stores(s), was)
    requires var r := Adjust(s, ownerOffset, update, partial);
             r.err == GRIB_SUCCESS && Denote(Places(s), Stores(r.state), now)
    ensures Tells(Adjust(s, ownerOffset, update, partial).state, now) <==> FieldsHold(s)
  {
    hide Denote, Adjust, Places, Stores, Tells, Told, FieldsHold, StoredFits, OffsetsMatch;
    var r := Adjust(s, ownerOffset, update, partial);
    AdjustSucceedsIff(s, ownerOffset, update, partial);
    AdjustKeepsPlaces(s, ownerOffset, update, partial);
    TellsIffTold(s, was);
    TellsIffTold(r.state, now);
    AdjustTells(s, ownerOffset, update, partial);
  }
}
