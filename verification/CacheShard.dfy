/**
 One shard of the page cache: a doubly linked list in order of recency, a table of its entries, and pins.
 */
module CacheShard {
  import opened Options

  class Entry<P> {
    const id: nat
    var page: P
    var pins: nat
    var dirty: bool
    var prev: Entry?<P>
    var next: Entry?<P>

    constructor (id: nat, page: P, dirty: bool)
      ensures this.id == id && this.page == page && this.dirty == dirty && pins == 1 && prev == null && next == null
    {
      this.id, this.page, this.dirty := id, page, dirty;
      pins, prev, next := 1, null, null;
    }
  }

  ghost predicate Distinct<P>(list: seq<Entry<P>>) {
    forall i, j :: 0 <= i < j < |list| ==> list[i] != list[j]
  }

  ghost function Before<P>(list: seq<Entry<P>>, i: nat): Entry?<P> {
    if 0 < i <= |list| then list[i - 1] else null
  }

  ghost function After<P>(list: seq<Entry<P>>, i: nat): Entry?<P> {
    if i + 1 < |list| then list[i + 1] else null
  }

  /** The pointers spell the list. */
  ghost predicate Linked<P>(list: seq<Entry<P>>, head: Entry?<P>, tail: Entry?<P>)
    reads list`prev, list`next
  {
    && Distinct(list)
    && head == (if list == [] then null else list[0])
    && tail == Before(list, |list|)
    && forall i {:trigger list[i].prev} {:trigger list[i].next} :: 0 <= i < |list|
         ==> list[i].prev == Before(list, i) && list[i].next == After(list, i)
  }

  ghost function Without<P>(list: seq<Entry<P>>, i: nat): seq<Entry<P>>
    requires i < |list|
  {
    list[..i] + list[i + 1..]
  }

  /** The table holds exactly the entries of the list, by id. */
  ghost predicate Tabled<P>(entries: map<nat, Entry<P>>, list: seq<Entry<P>>) {
    && (forall id :: id in entries ==> entries[id] in list && entries[id].id == id)
    && forall i :: 0 <= i < |list| ==> list[i].id in entries && entries[list[i].id] == list[i]
  }

  lemma {:induction false} WithoutAt<P>(was: seq<Entry<P>>, i: nat)
    requires Distinct(was) && i < |was|
    ensures Distinct(Without(was, i)) && |Without(was, i)| == |was| - 1
    ensures forall k :: 0 <= k < |was| - 1 ==> Without(was, i)[k] == was[if k < i then k else k + 1]
  {
  }

  lemma {:induction false} BypassedNext<P>(was: seq<Entry<P>>, i: nat, k: nat)
    requires Distinct(was) && i < |was| && k + 1 < |was|
    requires var j := if k < i then k else k + 1; was[j].next == if j == i - 1 then After(was, i) else After(was, j)
    ensures |Without(was, i)| == |was| - 1 && Without(was, i)[k].next == After(Without(was, i), k)
  {
    WithoutAt(was, i);
    hide Distinct, Without;
  }

  lemma {:induction false} BypassedPrev<P>(was: seq<Entry<P>>, i: nat, k: nat)
    requires Distinct(was) && i < |was| && k + 1 < |was|
    requires var j := if k < i then k else k + 1; was[j].prev == if j == i + 1 then Before(was, i) else Before(was, j)
    ensures |Without(was, i)| == |was| - 1 && Without(was, i)[k].prev == Before(Without(was, i), k)
  {
    WithoutAt(was, i);
    hide Distinct, Without;
  }

  /** Where the neighbours of entry i point past it, the pointers spell the list without it. */
  lemma {:induction false} Bypassed<P>(was: seq<Entry<P>>, i: nat, head: Entry?<P>, tail: Entry?<P>)
    requires Distinct(was) && i < |was|
    requires forall k {:trigger was[k].next} :: 0 <= k < |was| && k != i
               ==> was[k].next == if k == i - 1 then After(was, i) else After(was, k)
    requires forall k {:trigger was[k].prev} :: 0 <= k < |was| && k != i
               ==> was[k].prev == if k == i + 1 then Before(was, i) else Before(was, k)
    requires head == (if i == 0 then After(was, 0) else was[0])
    requires tail == (if i == |was| - 1 then Before(was, i) else was[|was| - 1])
    ensures Linked(Without(was, i), head, tail)
  {
    var list := Without(was, i);
    WithoutAt(was, i);
    hide Distinct, Without;
    assert head == (if list == [] then null else list[0]) && tail == Before(list, |list|);
    hide After, Before;
    forall k | 0 <= k < |list| ensures list[k].prev == Before(list, k) && list[k].next == After(list, k) {
      if k < i {
        assert was[k].next == (if k == i - 1 then After(was, i) else After(was, k)) && was[k].prev == Before(was, k);
      } else {
        assert was[k + 1].next == After(was, k + 1) && was[k + 1].prev
               == if k == i then Before(was, i) else Before(was, k + 1);
      }
      BypassedNext(was, i, k);
      BypassedPrev(was, i, k);
    }
  }

  lemma {:induction false} Ends<P>(list: seq<Entry<P>>, head: Entry?<P>, tail: Entry?<P>, i: nat)
    requires Linked(list, head, tail) && i < |list|
    ensures head == list[0] && tail == list[|list| - 1] && list[i].prev == Before(list, i)
            && list[i].next == After(list, i)
  {
  }

  // ---------- What the shard means ----------

  datatype Cell<P> = Cell(id: nat, page: P, pins: nat, dirty: bool)

  ghost function CellOf<P>(e: Entry<P>): Cell<P>
    reads e
  {
    Cell(e.id, e.page, e.pins, e.dirty)
  }

  /** The cached pages, most recently used first. */
  ghost function ViewOf<P>(list: seq<Entry<P>>): (v: seq<Cell<P>>)
    reads list
    ensures |v| == |list| && forall i :: 0 <= i < |list| ==> v[i] == CellOf(list[i])
  {
    if list == [] then [] else ViewOf(list[..|list| - 1]) + [CellOf(list[|list| - 1])]
  }

  ghost function Removed<P>(view: seq<Cell<P>>, i: nat): seq<Cell<P>>
    requires i < |view|
  {
    view[..i] + view[i + 1..]
  }

  /** Cell i has been pinned and moved to the front. */
  ghost predicate Hit<P>(v: seq<Cell<P>>, v': seq<Cell<P>>, i: nat) {
    i < |v| && v' == [v[i].(pins := v[i].pins + 1)] + Removed(v, i)
  }

  /** The least recently used cell that nobody holds. */
  ghost predicate Victim<P>(view: seq<Cell<P>>, i: nat) {
    i < |view| && view[i].pins == 0 && forall j :: i < j < |view| ==> view[j].pins > 0
  }

  ghost predicate AllPinned<P>(view: seq<Cell<P>>) {
    forall i :: 0 <= i < |view| ==> view[i].pins > 0
  }

  ghost predicate Absent<P>(view: seq<Cell<P>>, id: nat) {
    forall i :: 0 <= i < |view| ==> view[i].id != id
  }

  class Shard<P> {
    const capacity: int
    var entries: map<nat, Entry<P>>
    var head: Entry?<P>
    var tail: Entry?<P>
    ghost var list: seq<Entry<P>>   // most recently used first

    ghost predicate Valid()
      reads this, list`prev, list`next
    {
      Linked(list, head, tail) && Tabled(entries, list)
    }

    constructor (capacity: int)
      ensures Valid() && list == [] && this.capacity == capacity
    {
      this.capacity := capacity;
      entries, head, tail, list := map[], null, null, [];
    }

    /** removeEntry */
    method Unlink(e: Entry<P>, ghost i: nat)
      requires Linked(list, head, tail) && i < |list| && list[i] == e
      modifies this`head, this`tail, this`list, list`prev, list`next
      ensures list == Without(old(list), i) && Linked(list, head, tail) && e.prev == null && e.next == null
    {
      hide Without;
      ghost var was := list;
      Ends(was, head, tail, i);
      BypassNext(e, i);
      BypassPrev(e, i);
      hide Linked;
      e.prev := null;
      e.next := null;
      Bypassed(was, i, head, tail);
      list := Without(was, i);
    }

    /** The entry before e, or the head, points at the entry after it. */
    method BypassNext(e: Entry<P>, ghost i: nat)
      requires i < |list| && list[i] == e && Distinct(list) && e.prev == Before(list, i)
      modifies this`head, list`next
      ensures forall k {:trigger list[k].next} :: 0 <= k < |list|
                ==> list[k].next == if k + 1 == i then old(e.next) else old(list[k].next)
      ensures head == if i == 0 then old(e.next) else old(head)
    {
      if e.prev != null {
        e.prev.next := e.next;
      } else {
        head := e.next;
      }
    }

    /** The entry after e, or the tail, points at the entry before it. */
    method BypassPrev(e: Entry<P>, ghost i: nat)
      requires i < |list| && list[i] == e && Distinct(list) && e.next == After(list, i)
      modifies this`tail, list`prev
      ensures forall k {:trigger list[k].prev} :: 0 <= k < |list|
                ==> list[k].prev == if k == i + 1 then old(e.prev) else old(list[k].prev)
      ensures tail == if i == |list| - 1 then old(e.prev) else old(tail)
    {
      if e.next != null {
        e.next.prev := e.prev;
      } else {
        tail := e.prev;
      }
    }

    method AddToHead(e: Entry<P>)
      requires Linked(list, head, tail) && e !in list
      modifies this`head, this`tail, this`list, list`prev, list`next, e`prev, e`next
      ensures list == [e] + old(list) && Linked(list, head, tail)
    {
      ghost var was := list;
      e.prev := null;
      e.next := head;
      if head != null {
        head.prev := e;
      }
      head := e;
      if tail == null {
        tail := e;
      }
      list := [e] + was;
      forall k | 0 <= k < |list| ensures list[k].prev == Before(list, k) && list[k].next == After(list, k) {
        if k > 0 { assert list[k] == was[k - 1]; }
      }
    }

    /** The entry of an id, if there is one, and where it is. */
    lemma {:induction false} Find(id: nat) returns (i: nat)
      requires Valid()
      ensures id in entries <==> !Absent(ViewOf(list), id)
      ensures id in entries ==> i < |list| && list[i] == entries[id] && list[i].id == id
    {
      i := 0;
      if id in entries {
        i :| 0 <= i < |list| && list[i] == entries[id];
        assert ViewOf(list)[i].id == id;
      } else {
        forall k | 0 <= k < |list| ensures ViewOf(list)[k].id != id {
          assert list[k].id in entries;
        }
      }
    }

    method MoveToHead(e: Entry<P>, ghost i: nat)
      requires Valid() && i < |list| && list[i] == e
      modifies this`head, this`tail, this`list, list`prev, list`next
      ensures Valid() && list == [e] + Without(old(list), i)
    {
      hide Linked;
      ghost var was := list;
      FirstIs(list, head, tail);
      if head == e {
        assert i == 0 by { Positions(list, head, tail, 0, i); }
        assert was == [e] + Without(was, 0);
        return;
      }
      NotElsewhere(list, head, tail, i);
      Unlink(e, i);
      AddToHead(e);
      Reordered(entries, was, list, i);
    }

    /** A hit is pinned and becomes the most recently used. */
    method Get(id: nat) returns (p: Option<P>, ghost i: nat)
      requires Valid()
      modifies this`head, this`tail, this`list, list
      ensures Valid() && entries == old(entries) && |list| == old(|list|)
              && forall k :: 0 <= k < |list| ==> list[k] in old(list)
      ensures p == None <==> id !in old(entries)
      ensures p == None ==> ViewOf(list) == old(ViewOf(list))
      ensures p.Some? ==> i < old(|list|) && p == Some(old(list[i].page)) && old(list[i].id) == id
                            && Hit(old(ViewOf(list)), ViewOf(list), i)
    {
      hide Linked, Tabled, ViewOf, Without;
      i := Find(id);
      if id !in entries {
        return None, i;
      }
      var e := entries[id];
      ghost var was := list;
      ghost var v := ViewOf(list);
      NotElsewhere(list, head, tail, i);
      e.pins := e.pins + 1;
      MoveToHead(e, i);
      InList(was, list, i);
      p := Some(e.page);
      MovedView(was, list, v, i, v[i].(pins := v[i].pins + 1));
    }

    /** Make room: the least recently used entry nobody holds goes, if there is one. */
    method EvictOne() returns (e: Entry?<P>, ghost i: nat)
      requires Valid()
      modifies this`head, this`tail, this`list, this`entries, list`prev, list`next
      ensures Valid()
      ensures e == null ==> AllPinned(old(ViewOf(list))) && list == old(list) && entries == old(entries)
      ensures e != null ==> Victim(old(ViewOf(list)), i) && i < old(|list|) && e == old(list[i])
                              && list == Without(old(list), i)
      ensures ViewOf(list) == if e == null then old(ViewOf(list)) else Removed(old(ViewOf(list)), i)
    {
      hide Linked, Tabled, ViewOf, Without;
      e, i := FindVictim();
      if e != null {
        ghost var was := list;
        ghost var v := ViewOf(list);
        NotElsewhere(list, head, tail, i);
        Unlink(e, i);
        Dropped(entries, was, i, head, tail);
        RemovedView(was, list, v, i);
        entries := entries - {e.id};
      }
    }

    /** Walk back from the least recently used entry to one nobody holds. */
    method FindVictim() returns (e: Entry?<P>, ghost i: nat)
      requires Valid()
      ensures e == null ==> AllPinned(ViewOf(list))
      ensures e != null ==> i < |list| && e == list[i] && Victim(ViewOf(list), i)
    {
      hide Linked, Tabled, ViewOf;
      e := tail;
      i := |list|;
      LastIs(list, head, tail);
      while e != null
        invariant i <= |list| && e == Before(list, i) && forall j :: i <= j < |list| ==> list[j].pins > 0
        decreases i
      {
        i := i - 1;
        if e.pins == 0 {
          return;
        }
        Ends(list, head, tail, i);
        e := e.prev;
      }
    }

    /** A page comes in, pinned, as the most recently used; a full shard gives up its victim. */
    method Put(id: nat, page: P, dirty: bool) returns (evicted: Option<Cell<P>>)
      requires Valid()
      modifies this`head, this`tail, this`list, this`entries, list
      ensures Valid() && fresh(set x | x in list && x !in old(list))
      ensures Placed(old(ViewOf(list)), ViewOf(list), Cell(id, page, 1, dirty), capacity, evicted)
    {
      hide Linked, Tabled, ViewOf, Without, Placed;
      ghost var i := Find(id);
      if id !in entries {
        evicted := PutNew(id, page, dirty);
        return;
      }
      ghost var was := list;
      ghost var v := ViewOf(list);
      var e := entries[id];
      NotElsewhere(list, head, tail, i);
      e.page := page;
      e.pins := e.pins + 1;
      e.dirty := dirty;
      MoveToHead(e, i);
      MovedView(was, list, v, i, Cell(id, page, v[i].pins + 1, dirty));
      InList(was, list, i);
      PlacedOver(v, ViewOf(list), Cell(id, page, 1, dirty), capacity, i);
      evicted := None;
    }

    method PutNew(id: nat, page: P, dirty: bool) returns (evicted: Option<Cell<P>>)
      requires Valid() && id !in entries && Absent(ViewOf(list), id)
      modifies this`head, this`tail, this`list, this`entries, list
      ensures Valid() && fresh(set x | x in list && x !in old(list))
      ensures Placed(old(ViewOf(list)), ViewOf(list), Cell(id, page, 1, dirty), capacity, evicted)
    {
      hide Linked, Tabled, ViewOf, Without, Absent;
      ghost var was := list;
      ghost var v := ViewOf(list);
      var e := new Entry(id, page, dirty);
      AddToHead(e);
      NewEntry(entries, was, e);
      entries := entries[id := e];
      FrontView(was, list, v, e);
      CountOf(entries, list, head, tail);
      ghost var w := ViewOf(list);
      evicted := None;
      if |entries| > capacity {
        var out;
        ghost var k;
        out, k := EvictOne();
        if out != null {
          evicted := Some(Cell(out.id, out.page, out.pins, out.dirty));
          assert Victim(w, k) && ViewOf(list) == Removed(w, k) && evicted == Some(w[k]);
          Leaves([e] + was, list, k);
        }
      }
    }

    /** Pins go down by one, not below zero. */
    method Unpin(id: nat)
      requires Valid()
      modifies list`pins
      ensures Valid()
      ensures id !in entries ==> ViewOf(list) == old(ViewOf(list))
      ensures id in entries ==> exists i: nat :: i < |list| && old(ViewOf(list))[i].id == id
                                  && Changed(old(ViewOf(list)), ViewOf(list), i, Unpinned(old(ViewOf(list))[i]))
    {
      hide Linked, Tabled, ViewOf;
      ghost var i := Find(id);
      if id in entries {
        var e := entries[id];
        NotElsewhere(list, head, tail, i);
        ghost var v := ViewOf(list);
        if e.pins > 0 {
          e.pins := e.pins - 1;
        }
        ChangedView(list, v, i, Unpinned(v[i]));
      }
    }

    /** The content of a page changes in place, and the page is marked dirty or clean. */
    method Mark(id: nat, page: P, dirty: bool)
      requires Valid() && id in entries
      modifies list`page, list`dirty
      ensures Valid()
      ensures exists i: nat :: i < |list| && old(ViewOf(list))[i].id == id
                && Changed(old(ViewOf(list)), ViewOf(list), i, old(ViewOf(list))[i].(page := page, dirty := dirty))
    {
      hide Linked, Tabled, ViewOf;
      ghost var i := Find(id);
      var e := entries[id];
      NotElsewhere(list, head, tail, i);
      ghost var v := ViewOf(list);
      e.page := page;
      e.dirty := dirty;
      ChangedView(list, v, i, v[i].(page := page, dirty := dirty));
    }
  }

  function Unpinned<P>(c: Cell<P>): Cell<P> {
    c.(pins := if c.pins > 0 then c.pins - 1 else 0)
  }

  ghost predicate Changed<P>(v: seq<Cell<P>>, v': seq<Cell<P>>, i: nat, c: Cell<P>) {
    i < |v| && v' == v[i := c]
  }

  /** What Put makes of the view. */
  ghost predicate Placed<P>(v: seq<Cell<P>>, v': seq<Cell<P>>, c: Cell<P>, capacity: int, evicted: Option<Cell<P>>) {
    var w := [c] + v;
    if !Absent(v, c.id) then
      evicted == None && exists i: nat :: i < |v| && v[i].id == c.id
                           && v' == [c.(pins := v[i].pins + 1)] + Removed(v, i)
    else if |w| <= capacity || AllPinned(w) then evicted == None && v' == w
    else exists i: nat :: Victim(w, i) && evicted == Some(w[i]) && v' == Removed(w, i)
  }

  lemma {:induction false} FirstIs<P>(list: seq<Entry<P>>, head: Entry?<P>, tail: Entry?<P>)
    requires Linked(list, head, tail)
    ensures list != [] ==> head == list[0]
  {
  }

  lemma {:induction false} Positions<P>(list: seq<Entry<P>>, head: Entry?<P>, tail: Entry?<P>, i: nat, j: nat)
    requires Linked(list, head, tail) && i < |list| && j < |list| && list[i] == list[j]
    ensures i == j
  {
  }

  lemma {:induction false} NotElsewhere<P>(list: seq<Entry<P>>, head: Entry?<P>, tail: Entry?<P>, i: nat)
    requires Linked(list, head, tail) && i < |list|
    ensures list[i] !in Without(list, i) && forall k :: 0 <= k < |list| && k != i ==> list[k] != list[i]
  {
  }

  lemma {:induction false} Reordered<P>(entries: map<nat, Entry<P>>, was: seq<Entry<P>>, list: seq<Entry<P>>, i: nat)
    requires Tabled(entries, was) && i < |was| && list == [was[i]] + Without(was, i)
    ensures Tabled(entries, list)
  {
    forall id | id in entries ensures entries[id] in list {
      var k :| 0 <= k < |was| && was[k] == entries[id];
      if k < i { assert list[k + 1] == was[k]; } else if k > i { assert list[k] == was[k]; }
                                                        else { assert list[0] == was[k]; }
    }
    forall k | 0 <= k < |list| ensures list[k].id in entries && entries[list[k].id] == list[k] {
      assert list[k] == was[if k == 0 then i else if k <= i then k - 1 else k];
    }
  }

  /** The view after entry i has moved to the front and its cell has changed. */
  lemma {:induction false} MovedView<P>(was: seq<Entry<P>>, list: seq<Entry<P>>, v: seq<Cell<P>>, i: nat, c: Cell<P>)
    requires |v| == |was| && i < |was| && list == [was[i]] + Without(was, i) && CellOf(was[i]) == c
    requires forall k :: 0 <= k < |was| && k != i ==> CellOf(was[k]) == v[k]
    ensures ViewOf(list) == [c] + Removed(v, i)
  {
    var w := [c] + Removed(v, i);
    forall k | 0 <= k < |list| ensures ViewOf(list)[k] == w[k] {
      assert ViewOf(list)[k] == CellOf(list[k]);
      assert list[k] == was[if k == 0 then i else if k <= i then k - 1 else k];
    }
  }

  lemma {:induction false} PlacedOver<P>(v: seq<Cell<P>>, v': seq<Cell<P>>, c: Cell<P>, capacity: int, i: nat)
    requires i < |v| && v[i].id == c.id && v' == [c.(pins := v[i].pins + 1)] + Removed(v, i)
    ensures Placed(v, v', c, capacity, None)
  {
  }

  lemma {:induction false} LastIs<P>(list: seq<Entry<P>>, head: Entry?<P>, tail: Entry?<P>)
    requires Linked(list, head, tail)
    ensures tail == Before(list, |list|)
  {
  }

  lemma {:induction false} Dropped<P>(entries: map<nat, Entry<P>>, was: seq<Entry<P>>, i: nat, head: Entry?<P>,
                                      tail: Entry?<P>)
    requires Tabled(entries, was) && i < |was| && Linked(Without(was, i), head, tail) && was[i] !in Without(was, i)
    ensures Tabled(entries - {was[i].id}, Without(was, i))
  {
    var list := Without(was, i);
    forall id | id in entries && id != was[i].id ensures entries[id] in list {
      var k :| 0 <= k < |was| && was[k] == entries[id];
      assert list[if k < i then k else k - 1] == was[k];
    }
    forall k | 0 <= k < |list| ensures list[k].id in entries && list[k].id != was[i].id
        && entries[list[k].id] == list[k] {
      assert list[k] == was[if k < i then k else k + 1];
      assert list[k] in list;
    }
  }

  lemma {:induction false} RemovedView<P>(was: seq<Entry<P>>, list: seq<Entry<P>>, v: seq<Cell<P>>, i: nat)
    requires |v| == |was| && i < |was| && list == Without(was, i)
             && forall k :: 0 <= k < |was| ==> CellOf(was[k]) == v[k]
    ensures ViewOf(list) == Removed(v, i)
  {
    var w := Removed(v, i);
    forall k | 0 <= k < |list| ensures ViewOf(list)[k] == w[k] {
      assert ViewOf(list)[k] == CellOf(list[k]);
      assert list[k] == was[if k < i then k else k + 1];
    }
  }

  lemma {:induction false} FrontView<P>(was: seq<Entry<P>>, list: seq<Entry<P>>, v: seq<Cell<P>>, e: Entry<P>)
    requires |v| == |was| && list == [e] + was && forall k :: 0 <= k < |was| ==> CellOf(was[k]) == v[k]
    ensures ViewOf(list) == [CellOf(e)] + v
  {
    forall k | 0 <= k < |list| ensures ViewOf(list)[k] == ([CellOf(e)] + v)[k] {
      assert ViewOf(list)[k] == CellOf(list[k]);
    }
  }

  lemma {:induction false} ChangedView<P>(list: seq<Entry<P>>, v: seq<Cell<P>>, i: nat, c: Cell<P>)
    requires |v| == |list| && i < |list| && CellOf(list[i]) == c
             && forall k :: 0 <= k < |list| && k != i ==> CellOf(list[k]) == v[k]
    ensures Changed(v, ViewOf(list), i, c)
  {
    forall k | 0 <= k < |list| ensures ViewOf(list)[k] == v[i := c][k] {
      assert ViewOf(list)[k] == CellOf(list[k]);
    }
  }

  lemma {:induction false} NewEntry<P>(entries: map<nat, Entry<P>>, was: seq<Entry<P>>, e: Entry<P>)
    requires Tabled(entries, was) && e.id !in entries
    ensures Tabled(entries[e.id := e], [e] + was)
  {
    var list := [e] + was;
    forall id | id in entries ensures entries[id] in list {
      assert entries[id] in was;
    }
  }

  ghost function IdSet<P>(list: seq<Entry<P>>): set<nat> {
    set i | 0 <= i < |list| :: list[i].id
  }

  lemma {:induction false} IdCount<P>(list: seq<Entry<P>>)
    requires forall i, j :: 0 <= i < j < |list| ==> list[i].id != list[j].id
    ensures |IdSet(list)| == |list|
  {
    if list != [] {
      var n := |list| - 1;
      IdCount(list[..n]);
      assert IdSet(list) == IdSet(list[..n]) + {list[n].id};
    } else {
      assert IdSet(list) == {};
    }
  }

  lemma {:induction false} CountOf<P>(entries: map<nat, Entry<P>>, list: seq<Entry<P>>, head: Entry?<P>,
                                      tail: Entry?<P>)
    requires Tabled(entries, list) && Linked(list, head, tail)
    ensures |entries| == |list|
  {
    forall i, j | 0 <= i < j < |list| ensures list[i].id != list[j].id {
      assert entries[list[i].id] == list[i] != list[j];
    }
    IdCount(list);
    forall id | id in entries ensures id in IdSet(list) {
      var k :| 0 <= k < |list| && list[k] == entries[id];
    }
    assert entries.Keys == IdSet(list);
  }

  lemma {:induction false} InList<P>(was: seq<Entry<P>>, list: seq<Entry<P>>, i: nat)
    requires i < |was| && list == [was[i]] + Without(was, i)
    ensures |list| == |was| && forall x :: x in list ==> x in was
  {
  }

  lemma {:induction false} Leaves<P>(was: seq<Entry<P>>, list: seq<Entry<P>>, i: nat)
    requires i < |was| && list == Without(was, i)
    ensures forall x :: x in list ==> x in was
  {
  }
}
