/** The tables of the Fortran interface (fortran/grib_fortran.cc): integer ids for handles, indexes,
    iterators and files.  A table is a linked list that never shrinks; freeing a slot negates its id. */
module IdTables {
  import opened Results

  /** What a list node holds.  A NULL pointer is None. */
  datatype Slot<+H> = Slot(id: int, h: Option<H>)

  const MIN_FILE_ID := 50000

  // ---------------------------------------------------------------- the table as a sequence of slots

  /** Slot k belongs to id base + k for ever; the sign says whether it is in use. */
  ghost predicate WellFormed<H>(base: int, slots: seq<Slot<H>>) {
    && base > 0
    && forall k :: 0 <= k < |slots| ==> slots[k].id == base + k || slots[k].id == -(base + k)
  }

  /** The n ids from base on. */
  ghost function Interval(base: int, n: nat): (s: set<int>)
    ensures |s| == n
    ensures forall id :: id in s <==> base <= id < base + n
  {
    if n == 0 then {} else Interval(base, n - 1) + {base + n - 1}
  }

  /** The finite map a table stands for: ids in use, and what was last pushed under them. */
  ghost function Live<H>(base: int, slots: seq<Slot<H>>): map<int, Option<H>> {
    map id | id in Interval(base, |slots|) && slots[id - base].id > 0 :: slots[id - base].h
  }

  /** The first slot not in use. */
  function FirstFree<H>(slots: seq<Slot<H>>): (k: nat)
    ensures k <= |slots| && (forall j :: 0 <= j < k ==> slots[j].id >= 0)
    ensures k < |slots| ==> slots[k].id < 0
  {
    if slots == [] || slots[0].id < 0 then 0 else 1 + FirstFree(slots[1..])
  }

  /** The first slot whose id field equals id. */
  function Find<H>(slots: seq<Slot<H>>, id: int): (k: nat)
    ensures k <= |slots| && (forall j :: 0 <= j < k ==> slots[j].id != id)
    ensures k < |slots| ==> slots[k].id == id
  {
    if slots == [] || slots[0].id == id then 0 else 1 + Find(slots[1..], id)
  }

  function PushId<H>(base: int, slots: seq<Slot<H>>): int {
    var k := FirstFree(slots);
    if k < |slots| then -slots[k].id else base + |slots|
  }

  function Pushed<H>(base: int, slots: seq<Slot<H>>, h: Option<H>): seq<Slot<H>> {
    var k := FirstFree(slots);
    if k < |slots| then slots[k := Slot(-slots[k].id, h)] else slots + [Slot(base + |slots|, h)]
  }

  function Got<H>(slots: seq<Slot<H>>, id: int): Option<H> {
    var k := Find(slots, id);
    if k < |slots| then slots[k].h else None
  }

  /** Negates the id of the slot found. */
  function Toggled<H>(slots: seq<Slot<H>>, id: int): seq<Slot<H>> {
    var k := Find(slots, id);
    if k < |slots| then slots[k := slots[k].(id := -id)] else slots
  }

  /** _clear_handle refuses negative ids. */
  function Cleared<H>(slots: seq<Slot<H>>, id: int): seq<Slot<H>> {
    if id < 0 then slots else Toggled(slots, id)
  }

  // ---------------------------------------------------------------- refinement of a finite map

  /** Push hands out the smallest id not in use and binds it to h; nothing else changes. */
  lemma PushRefines<H>(base: int, slots: seq<Slot<H>>, h: Option<H>)
    requires WellFormed(base, slots)
    ensures WellFormed(base, Pushed(base, slots, h))
    ensures var id, live := PushId(base, slots), Live(base, slots);
            && id >= base && id !in live && (forall j :: base <= j < id ==> j in live)
            && Live(base, Pushed(base, slots, h)) == live[id := h]
  {
    hide Interval;
    var k, id, live := FirstFree(slots), PushId(base, slots), Live(base, slots);
    assert id == base + k;
    OneSlot(base, slots, Pushed(base, slots, h), k);
  }

  /** Tables that differ in slot k only stand for maps that differ in id base + k only. */
  lemma OneSlot<H>(base: int, slots: seq<Slot<H>>, now: seq<Slot<H>>, k: nat)
    requires k <= |slots| && |slots| <= |now| && k < |now| <= |slots| + 1
    requires forall j :: 0 <= j < |now| && j != k ==> j < |slots| && now[j] == slots[j]
    ensures now[k].id > 0 ==> Live(base, now) == Live(base, slots)[base + k := now[k].h]
    ensures now[k].id <= 0 ==> Live(base, now) == Live(base, slots) - {base + k}
  {
    hide Interval;
    var m, m' := Live(base, slots), Live(base, now);
    forall id: int
      ensures id != base + k ==> (id in m' <==> id in m)
      ensures id != base + k && id in m' ==> m'[id] == m[id]
      ensures id == base + k ==> (id in m' <==> now[k].id > 0)
    {
    }
  }

  /** The list grows exactly when every slot is in use. */
  lemma PushGrowsIff<H>(base: int, slots: seq<Slot<H>>, h: Option<H>)
    requires WellFormed(base, slots)
    ensures |Pushed(base, slots, h)| == |slots| + (if |Live(base, slots)| == |slots| then 1 else 0)
  {
    var k, live := FirstFree(slots), Live(base, slots);
    if k == |slots| {
      assert live.Keys == Interval(base, |slots|);
    } else {
      assert base + k in Interval(base, |slots|);
      assert live.Keys <= Interval(base, |slots|) - {base + k};
      SubsetSize(live.Keys, Interval(base, |slots|) - {base + k});
    }
  }

  lemma SubsetSize(a: set<int>, b: set<int>)
    requires a <= b
    ensures |a| <= |b|
  {
    assert b == a + (b - a);
  }

  lemma LiveBound<H>(base: int, slots: seq<Slot<H>>)
    ensures |Live(base, slots)| <= |slots|
  {
    assert Live(base, slots).Keys <= Interval(base, |slots|);
    SubsetSize(Live(base, slots).Keys, Interval(base, |slots|));
  }

  lemma FindLive<H>(base: int, slots: seq<Slot<H>>, id: int)
    requires WellFormed(base, slots)
    ensures id >= 0 ==> (id in Live(base, slots) <==> Find(slots, id) < |slots|)
    ensures id in Live(base, slots) ==> Find(slots, id) == id - base
    ensures id < 0 ==> (Find(slots, id) < |slots| <==> Freed(base, slots, -id))
    ensures id < 0 && Freed(base, slots, -id) ==> Find(slots, id) == -id - base
  {
    if id in Live(base, slots) { assert slots[id - base].id == id; }
    if Freed(base, slots, -id) { assert slots[-id - base].id == id; }
  }

  /** id was handed out before and has been freed since. */
  ghost predicate Freed<H>(base: int, slots: seq<Slot<H>>, id: int) {
    base <= id < base + |slots| && slots[id - base].id < 0
  }

  /** Looking up an id gives what the map holds, NULL otherwise - except that the negated id of a
      freed slot still reaches the stale pointer kept there. */
  lemma GetRefinesIff<H>(base: int, slots: seq<Slot<H>>, id: int)
    requires WellFormed(base, slots)
    ensures Got(slots, id) == (if id in Live(base, slots) then Live(base, slots)[id] else None)
        <==> !(id < 0 && Freed(base, slots, -id) && slots[-id - base].h.Some?)
  {
    FindLive(base, slots, id);
  }

  /** Clearing a handle removes that id and nothing else, whatever id is given. */
  lemma ClearRefines<H>(base: int, slots: seq<Slot<H>>, id: int)
    requires WellFormed(base, slots)
    ensures WellFormed(base, Cleared(slots, id)) && |Cleared(slots, id)| == |slots|
    ensures Live(base, Cleared(slots, id)) == Live(base, slots) - {id}
  {
    hide Interval, Find;
    FindLive(base, slots, id);
    if id in Live(base, slots) {
      OneSlot(base, slots, Cleared(slots, id), id - base);
    }
  }

  lemma NoNegativeIds<H>(base: int, slots: seq<Slot<H>>)
    requires WellFormed(base, slots)
    ensures forall id :: id in Live(base, slots) ==> id > 0
  {
  }

  lemma Revived<H>(base: int, slots: seq<Slot<H>>, id: int)
    requires WellFormed(base, slots) && Freed(base, slots, id)
    ensures WellFormed(base, Toggled(slots, -id))
    ensures id !in Live(base, slots)
    ensures Live(base, Toggled(slots, -id)) == Live(base, slots)[id := slots[id - base].h]
  {
    hide Interval, Find;
    FindLive(base, slots, -id);
    OneSlot(base, slots, Toggled(slots, -id), id - base);
  }

  /** Clearing without the guard (files, indexes): the negated id of a freed slot brings it back to
      life; any other id behaves as a removal. */
  lemma ToggleRefinesIff<H>(base: int, slots: seq<Slot<H>>, id: int)
    requires WellFormed(base, slots)
    ensures WellFormed(base, Toggled(slots, id)) && |Toggled(slots, id)| == |slots|
    ensures Live(base, Toggled(slots, id)) == Live(base, slots) - {id}
        <==> !(id < 0 && Freed(base, slots, -id))
    ensures id < 0 && Freed(base, slots, -id) ==>
              Live(base, Toggled(slots, id)) == Live(base, slots)[-id := slots[-id - base].h]
  {
    hide Interval, Find, Live;
    FindLive(base, slots, id);
    NoNegativeIds(base, slots);
    if id >= 0 {
      ClearRefines(base, slots, id);
    } else {
      assert Live(base, slots) - {id} == Live(base, slots);
      if Freed(base, slots, -id) {
        Revived(base, slots, -id);
      }
    }
  }

  /** Every operation keeps the table well formed. */
  lemma StaysWellFormed<H>(base: int, slots: seq<Slot<H>>, h: Option<H>, id: int)
    requires WellFormed(base, slots)
    ensures WellFormed(base, Pushed(base, slots, h))
    ensures WellFormed(base, Cleared(slots, id)) && WellFormed(base, Toggled(slots, id))
  {
    hide FirstFree, Find;
  }

  // ---------------------------------------------------------------- whole runs

  datatype Op<+H> = Push(h: Option<H>) | Get(id: int) | Clear(id: int)

  /** guarded: negative ids are refused when clearing (handles); files and indexes do not check. */
  function Step<H>(base: int, guarded: bool, slots: seq<Slot<H>>, op: Op<H>): seq<Slot<H>> {
    match op
    case Push(h) => Pushed(base, slots, h)
    case Get(_) => slots
    case Clear(id) => if guarded then Cleared(slots, id) else Toggled(slots, id)
  }

  function Run<H>(base: int, guarded: bool, ops: seq<Op<H>>): seq<Slot<H>> {
    if ops == [] then []
    else Step(base, guarded, Run(base, guarded, ops[..|ops| - 1]), ops[|ops| - 1])
  }

  ghost predicate NoNegativeClears<H>(ops: seq<Op<H>>) {
    forall op :: op in ops && op.Clear? ==> op.id >= 0
  }

  /** The map after the same operations on a map. */
  ghost function RunMap<H>(base: int, ops: seq<Op<H>>): map<int, Option<H>> {
    if ops == [] then map[]
    else
      var m := RunMap(base, ops[..|ops| - 1]);
      match ops[|ops| - 1]
      case Push(h) => m[SmallestUnused(base, m, |m|) := h]
      case Get(_) => m
      case Clear(id) => m - {id}
  }

  /** The smallest id from base on that m does not hold; n bounds the search. */
  ghost function SmallestUnused<H>(base: int, m: map<int, Option<H>>, n: nat): int
    decreases n
  {
    if base !in m || n == 0 then base else SmallestUnused(base + 1, m, n - 1)
  }

  lemma {:induction false} SmallestUnusedIs<H>(base: int, m: map<int, Option<H>>, n: nat, id: int)
    requires base <= id <= base + n && id !in m && forall j :: base <= j < id ==> j in m
    ensures SmallestUnused(base, m, n) == id
    decreases n
  {
    if base in m && n > 0 { SmallestUnusedIs(base + 1, m, n - 1, id); }
  }

  /** The largest number of ids in use at once. */
  ghost function Peak<H>(base: int, ops: seq<Op<H>>): nat {
    if ops == [] then 0
    else
      var before, now := Peak(base, ops[..|ops| - 1]), |RunMap(base, ops)|;
      if now > before then now else before
  }

  /** Every run of the table is a run of the map, and the list is exactly as long as the largest
      number of ids ever in use together. */
  lemma {:induction false} RunRefines<H>(base: int, guarded: bool, ops: seq<Op<H>>)
    requires base > 0 && (guarded || NoNegativeClears(ops))
    ensures WellFormed(base, Run(base, guarded, ops))
    ensures Live(base, Run(base, guarded, ops)) == RunMap(base, ops)
    ensures |Run(base, guarded, ops)| == Peak(base, ops)
  {
    hide Live, Pushed, Cleared, Toggled, PushId, WellFormed, SmallestUnused;
    EmptyTable<H>(base);
    if ops != [] {
      var prev, op := ops[..|ops| - 1], ops[|ops| - 1];
      RunRefines(base, guarded, prev);
      var slots := Run(base, guarded, prev);
      LiveBound(base, slots);
      LiveBound(base, Run(base, guarded, ops));
      match op
      case Push(h) =>
        PushRefines(base, slots, h);
        PushGrowsIff(base, slots, h);
        PushIsSmallest(base, slots);
      case Get(_) =>
      case Clear(id) =>
        SameClear(slots, id, guarded);
        ClearRefines(base, slots, id);
    }
  }

  /** Both exceptions are met in short runs: one id pushed and cleared, then its negated id is looked
      up, or cleared without the guard. */
  lemma StaleIdsReached()
    ensures var freed := Run(1, true, [Push(Some(7)), Clear(1)]);
            && Live(1, freed) == map[] && Got(freed, -1) == Some(7)
    ensures var revived := Run(1, false, [Push(Some(7)), Clear(1), Clear(-1)]);
            Live(1, revived) == map[1 := Some(7)]
  {
    var ops: seq<Op<int>> := [Push(Some(7)), Clear(1), Clear(-1)];
    var pushed := [Slot(1, Some(7))];
    assert ops[..1] == [Push(Some(7))] && ops[..1][..0] == [] && ops[..2] == [Push(Some(7)), Clear(1)];
    assert ops[..2][..1] == ops[..1];
    assert Run(1, true, ops[..1]) == Run(1, false, ops[..1]) == pushed;
    var freed := [Slot(-1, Some(7))];
    assert Run(1, true, ops[..2]) == Run(1, false, ops[..2]) == freed;
    assert Run(1, false, ops) == pushed;
    assert Live(1, pushed) == map[1 := Some(7)] && Live(1, freed) == map[];
  }

  lemma EmptyTable<H>(base: int)
    requires base > 0
    ensures WellFormed<H>(base, []) && Live<H>(base, []) == map[]
  {
  }

  lemma SameClear<H>(slots: seq<Slot<H>>, id: int, guarded: bool)
    requires guarded || id >= 0
    ensures (if guarded then Cleared(slots, id) else Toggled(slots, id)) == Cleared(slots, id)
  {
  }

  /** The id handed out, found by searching the map. */
  lemma PushIsSmallest<H>(base: int, slots: seq<Slot<H>>)
    requires WellFormed(base, slots)
    ensures var live := Live(base, slots); SmallestUnused(base, live, |live|) == PushId(base, slots)
    ensures PushId(base, slots) !in Live(base, slots)
  {
    hide Live, Pushed, PushId, Interval;
    PushRefines(base, slots, None);
    var live, id := Live(base, slots), PushId(base, slots);
    SubsetSize(Interval(base, id - base), live.Keys);
    SmallestUnusedIs(base, live, |live|, id);
  }

  lemma {:induction false} RunWellFormed<H>(base: int, guarded: bool, ops: seq<Op<H>>)
    requires base > 0
    ensures WellFormed(base, Run(base, guarded, ops))
  {
    if ops != [] {
      var prev, op := ops[..|ops| - 1], ops[|ops| - 1];
      RunWellFormed(base, guarded, prev);
      StaysWellFormed(base, Run(base, guarded, prev), if op.Push? then op.h else None,
                      if op.Push? then 0 else op.id);
    }
  }

  /** Handle ids stay below every file id exactly in the runs that never hold 50000 handles at once. */
  lemma HandlesBelowFilesIff<H>(ops: seq<Op<H>>)
    ensures MIN_FILE_ID == 50000
    ensures (forall slot :: slot in Run(1, true, ops) ==> -50000 < slot.id < 50000) <==> Peak(1, ops) < 50000
  {
    RunRefines(1, true, ops);
    var slots := Run(1, true, ops);
    if |slots| >= MIN_FILE_ID { assert slots[|slots| - 1] in slots; }
  }

  /** In such runs no id in use for a handle is in use for a file, whatever is done to the files. */
  lemma HandleIsNoFile<H, F>(handleOps: seq<Op<H>>, fileOps: seq<Op<F>>)
    requires Peak(1, handleOps) < MIN_FILE_ID
    ensures RunMap(1, handleOps).Keys !! Live(MIN_FILE_ID, Run(MIN_FILE_ID, false, fileOps)).Keys
  {
    RunRefines(1, true, handleOps);
    RunWellFormed(MIN_FILE_ID, false, fileOps);
  }

  // ---------------------------------------------------------------- the linked list

  class Node<H> {
    var id: int
    var h: Option<H>
    var next: Node?<H>

    constructor (id: int, h: Option<H>, next: Node?<H>)
      ensures this.id == id && this.h == h && this.next == next
    {
      this.id, this.h, this.next := id, h, next;
    }
  }

  ghost function At<H>(nodes: seq<Node<H>>, i: nat): Node?<H> {
    if i < |nodes| then nodes[i] else null
  }

  class IdTable<H> {
    const base: int
    var head: Node?<H>
    ghost var nodes: seq<Node<H>>
    ghost var slots: seq<Slot<H>>

    /** head and the next pointers run through nodes, whose contents are slots. */
    ghost predicate Linked()
      reads this, nodes
    {
      && head == At(nodes, 0)
      && (forall i, j :: 0 <= i < j < |nodes| ==> nodes[i] != nodes[j])
      && (forall i :: 0 <= i < |nodes| ==> nodes[i].next == At(nodes, i + 1))
      && |slots| == |nodes| && (forall i :: 0 <= i < |nodes| ==> slots[i] == Slot(nodes[i].id, nodes[i].h))
    }

    ghost predicate Valid()
      reads this, nodes
    {
      Linked() && WellFormed(base, slots)
    }

    lemma HeadIs()
      requires Linked()
      ensures head == At(nodes, 0) && |slots| == |nodes|
    {
    }

    lemma NextIs(current: Node<H>, i: nat)
      requires Linked() && i < |nodes| && current == nodes[i]
      ensures current.next == At(nodes, i + 1)
      ensures |slots| == |nodes| && slots[i] == Slot(current.id, current.h)
    {
    }

    /** Overwrites the id and content of one node. */
    method SetNode(node: Node<H>, id: int, h: Option<H>, ghost i: nat)
      requires Linked() && i < |nodes| && node == nodes[i]
      modifies node, `slots
      ensures Linked()
      ensures slots == old(slots)[i := Slot(id, h)]
    {
      node.id := id;
      node.h := h;
      slots := slots[i := Slot(id, h)];
    }

    constructor (base: int)
      requires base > 0
      ensures Valid() && this.base == base && slots == []
    {
      this.base := base;
      head := null;
      nodes, slots := [], [];
    }

    /** _push_handle, push_file and their copies. */
    method Push(h: Option<H>) returns (gid: int)
      requires Valid()
      modifies this, nodes
      ensures Valid() && old(nodes) <= nodes && fresh(nodes[|old(nodes)|..])
      ensures gid == PushId(base, old(slots))
      ensures slots == Pushed(base, old(slots), h)
    {
      hide FirstFree, WellFormed, Linked;
      HeadIs();
      var myindex := base;
      ghost var was := slots;
      if head == null {
        assert was == [];
        var first := new Node(myindex, h, null);
        First(first);
        StaysWellFormed(base, was, h, 0);
        assert slots == Pushed(base, was, h);
        return myindex;
      }
      var current, previous := head, head;
      ghost var i := 0;
      while current != null
        invariant nodes == old(nodes) && nodes != [] && Linked() && slots == was
        invariant 0 <= i <= |nodes| && myindex == base + i
        invariant current == At(nodes, i)
        invariant previous == if i == 0 then nodes[0] else nodes[i - 1]
        invariant FirstFree(was) >= i
        decreases |nodes| - i
      {
        NextIs(current, i);
        if current.id < 0 {
          assert FirstFree(was) == i;
          SetNode(current, -current.id, h, i);
          StaysWellFormed(base, was, h, 0);
          return current.id;
        }
        FirstFreeNext(was, i);
        myindex := myindex + 1;
        previous, current := current, current.next;
        i := i + 1;
      }
      var theNew := new Node(myindex, h, current);
      Append(previous, theNew);
      StaysWellFormed(base, was, h, 0);
      return myindex;
    }

    /** Makes a node the whole list. */
    method First(node: Node<H>)
      requires node.next == null
      modifies `head, `nodes, `slots
      ensures Linked() && nodes == [node] && slots == [Slot(node.id, node.h)]
    {
      head := node;
      nodes, slots := [node], [Slot(node.id, node.h)];
    }

    /** Links a new last node behind the last one. */
    method Append(previous: Node<H>, theNew: Node<H>)
      requires Linked() && nodes != [] && previous == nodes[|nodes| - 1]
      requires theNew !in nodes && theNew.next == null
      modifies previous`next, `nodes, `slots
      ensures Linked() && nodes == old(nodes) + [theNew]
      ensures slots == old(slots) + [Slot(theNew.id, theNew.h)]
    {
      previous.next := theNew;
      nodes, slots := nodes + [theNew], slots + [Slot(theNew.id, theNew.h)];
    }

    lemma FirstFreeNext(slots: seq<Slot<H>>, i: nat)
      requires i < |slots| && FirstFree(slots) >= i && slots[i].id >= 0
      ensures FirstFree(slots) > i
    {
    }

    /** _get_handle and its copies. */
    method Get(id: int) returns (h: Option<H>)
      requires Valid()
      ensures h == Got(slots, id)
    {
      var current := head;
      ghost var i := 0;
      while current != null
        invariant 0 <= i <= |nodes| && current == At(nodes, i)
        invariant Find(slots, id) >= i
        decreases |nodes| - i
      {
        NextIs(current, i);
        if current.id == id { return current.h; }
        NextIs(current, i);
        current := current.next;
        i := i + 1;
      }
      return None;
    }

    /** get_file: ids below the first file id are no files. */
    method GetFile(id: int) returns (h: Option<H>)
      requires Valid()
      ensures id >= MIN_FILE_ID ==> h == Got(slots, id)
      ensures base == MIN_FILE_ID ==>
                h == if id in Live(base, slots) then Live(base, slots)[id] else None
    {
      if id < MIN_FILE_ID { return None; }
      h := Get(id);
      GetRefinesIff(base, slots, id);
    }

    /** _clear_handle: the result of deleting the handle is a parameter.  A slot without a handle
        does not stop the walk. */
    method ClearHandle(id: int, deleted: int) returns (err: int)
      requires Valid()
      modifies `slots, nodes
      ensures Valid() && nodes == old(nodes)
      ensures slots == Cleared(old(slots), id)
      ensures err == if Got(old(slots), id).Some? && id >= 0 then deleted else GRIB_SUCCESS
    {
      if id < 0 { return 0; }
      hide Find, WellFormed, Linked, Cleared, Toggled, Got;
      HeadIs();
      OneMatch(slots, id);
      err := ClearWalk(id, deleted, Find(slots, id), Cleared(slots, id));
    }

    /** The walk through the list; k is the one slot with that id, if there is one. */
    method ClearWalk(id: int, deleted: int, ghost k: nat, ghost target: seq<Slot<H>>) returns (err: int)
      requires Linked() && (id != 0 || k >= |slots|)
      requires forall j :: 0 <= j < |slots| ==> (slots[j].id == id <==> j == k)
      requires target == if k < |slots| then slots[k := Slot(-id, slots[k].h)] else slots
      modifies `slots, nodes
      ensures Linked() && nodes == old(nodes) && slots == target
      ensures err == if k < |old(slots)| && old(slots)[k].h.Some? then deleted else GRIB_SUCCESS
    {
      hide Linked;
      HeadIs();
      var current := head;
      ghost var was := slots;
      ghost var i := 0;
      while current != null
        invariant nodes == old(nodes) && Linked()
        invariant 0 <= i <= |nodes| && current == At(nodes, i)
        invariant slots == if k < i then target else was
        invariant k < i ==> was[k].h.None?
        decreases |nodes| - i
      {
        NextIs(current, i);
        if current.id == id {
          SetNode(current, -current.id, current.h, i);
          if current.h.Some? { return deleted; }
        }
        NextIs(current, i);
        current := current.next;
        i := i + 1;
      }
      return GRIB_SUCCESS;
    }

    /** At most one slot has a non-negative id. */
    lemma OneMatch(was: seq<Slot<H>>, id: int)
      requires WellFormed(base, was) && id >= 0
      ensures WellFormed(base, Cleared(was, id))
      ensures id == 0 ==> Find(was, id) == |was|
      ensures forall j :: 0 <= j < |was| ==> (was[j].id == id <==> j == Find(was, id))
      ensures var k := Find(was, id);
              if k < |was| then Cleared(was, id) == was[k := Slot(-id, was[k].h)] && Got(was, id) == was[k].h
                           && -id != id
              else Cleared(was, id) == was && Got(was, id) == None
    {
    }

    /** clear_file: no guard on the id; closing the file may fail, which is a parameter. */
    method ClearFile(id: int, closeFails: bool) returns (err: int)
      requires Valid()
      modifies `slots, nodes
      ensures Valid() && nodes == old(nodes)
      ensures slots == Toggled(old(slots), id)
      ensures err == if Find(old(slots), id) == |old(slots)| then GRIB_INVALID_FILE
                     else if Got(old(slots), id).Some? && closeFails then GRIB_IO_PROBLEM
                     else GRIB_SUCCESS
    {
      hide Find, WellFormed, Linked;
      HeadIs();
      var current := head;
      ghost var was := slots;
      ghost var i := 0;
      while current != null
        invariant nodes == old(nodes) && Valid() && slots == was
        invariant 0 <= i <= |nodes| && current == At(nodes, i)
        invariant Find(was, id) >= i
        decreases |nodes| - i
      {
        NextIs(current, i);
        if current.id == id {
          SetNode(current, -current.id, current.h, i);
          StaysWellFormed(base, was, None, id);
          if current.h.Some? && closeFails { return GRIB_IO_PROBLEM; }
          return GRIB_SUCCESS;
        }
        NextIs(current, i);
        current := current.next;
        i := i + 1;
      }
      return GRIB_INVALID_FILE;
    }
  }
}
