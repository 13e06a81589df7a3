/**
 The pager over its cache: Get, Allocate, MarkDirty and Flush.

 The pager throws away what the cache evicts, so a dirty page that is evicted is lost.  It never is: the
 pager's own calls keep every cached page pinned.
 */
module PagerCache {
  import opened Options
  import opened CacheShard

  /** Cached pages are current; pages that are clean, or not cached, are current on disk. */
  ghost predicate Coherent<P>(view: seq<Cell<P>>, disk: map<nat, P>, latest: map<nat, P>) {
    && AllPinned(view)
    && (forall i :: 0 <= i < |view| ==> CellOk(view[i], disk, latest))
    && (forall id :: id in latest && Absent(view, id) ==> id in disk && disk[id] == latest[id])
    && disk.Keys <= latest.Keys
  }

  ghost predicate CellOk<P>(c: Cell<P>, disk: map<nat, P>, latest: map<nat, P>) {
    c.id in latest && c.page == latest[c.id] && (!c.dirty ==> c.id in disk && disk[c.id] == c.page)
  }

  lemma {:induction false} RemovedMembers<P>(v: seq<Cell<P>>, i: nat, c: Cell<P>)
    requires i < |v| && c.id == v[i].id
    ensures var v' := [c] + Removed(v, i);
            && |v'| == |v| && v'[0] == c && (forall k :: 1 <= k <= i ==> v'[k] == v[k - 1])
                && (forall k :: i < k < |v| ==> v'[k] == v[k])
            && forall id :: Absent(v', id) <==> Absent(v, id)
  {
    var v' := [c] + Removed(v, i);
    forall id ensures Absent(v', id) <==> Absent(v, id) {
      if Absent(v', id) {
        forall k | 0 <= k < |v| ensures v[k].id != id {
          assert v'[if k < i then k + 1 else if k == i then 0 else k].id != id;
        }
      } else {
        var k: nat :| k < |v'| && v'[k].id == id;
        assert v[if k == 0 then i else if k <= i then k - 1 else k].id == id;
      }
    }
  }

  /** A cell moves to the front with one more pin. */
  lemma {:induction false} CoherentFront<P>(v: seq<Cell<P>>, i: nat, c: Cell<P>, disk: map<nat, P>, latest: map<nat, P>)
    requires Coherent(v, disk, latest) && i < |v| && c.id == v[i].id && c.pins > 0 && CellOk(c, disk, latest)
    ensures Coherent([c] + Removed(v, i), disk, latest)
  {
    hide Absent;
    RemovedMembers(v, i, c);
    var v' := [c] + Removed(v, i);
    forall k | 0 <= k < |v'| ensures CellOk(v'[k], disk, latest) && v'[k].pins > 0 {
      if k > 0 { assert v'[k] == v[if k <= i then k - 1 else k]; }
    }
  }

  /** A page comes in beside the others. */
  lemma {:induction false} CoherentNew<P>(v: seq<Cell<P>>, c: Cell<P>, disk: map<nat, P>, latest: map<nat, P>,
                                          latest': map<nat, P>)
    requires Coherent(v, disk, latest) && Absent(v, c.id) && c.pins > 0 && latest' == latest[c.id := c.page]
             && CellOk(c, disk, latest')
    ensures Coherent([c] + v, disk, latest')
  {
    var v' := [c] + v;
    forall k | 0 <= k < |v'| ensures CellOk(v'[k], disk, latest') && v'[k].pins > 0 {
      if k > 0 { assert v'[k] == v[k - 1]; }
    }
    forall id | id in latest' && Absent(v', id) ensures id in disk && disk[id] == latest'[id] {
      assert v'[0].id != id;
      forall k | 0 <= k < |v| ensures v[k].id != id { assert v'[k + 1].id != id; }
      assert Absent(v, id);
    }
  }

  /** A cell changes where it is. */
  lemma {:induction false} CoherentChange<P>(v: seq<Cell<P>>, i: nat, c: Cell<P>, disk: map<nat, P>, latest: map<nat,
                                             P>, disk': map<nat, P>, latest': map<nat, P>)
    requires Coherent(v, disk, latest) && i < |v| && c.id == v[i].id && c.pins > 0 && Unique(v)
    requires (disk' == disk || disk' == disk[c.id := c.page]) && latest' == latest[c.id := c.page]
             && CellOk(c, disk', latest')
    ensures Coherent(v[i := c], disk', latest')
  {
    var v' := v[i := c];
    forall k | 0 <= k < |v'| ensures CellOk(v'[k], disk', latest') && v'[k].pins > 0 {
      if k != i { assert v[k].id != c.id; }
    }
    forall id | id in latest' && Absent(v', id) ensures id in disk' && disk'[id] == latest'[id] {
      assert v'[i].id != id;
      forall k | 0 <= k < |v| ensures v[k].id != id { assert v'[k].id != id; }
      assert Absent(v, id);
    }
  }

  ghost predicate Unique<P>(v: seq<Cell<P>>) {
    forall i, j :: 0 <= i < j < |v| ==> v[i].id != v[j].id
  }

  ghost predicate FrontHeld<P>(v: seq<Cell<P>>, id: nat) {
    v != [] && v[0].id == id && v[0].pins >= 2
  }

  class Pager<P> {
    const shard: Shard<P>
    var disk: map<nat, P>
    ghost var latest: map<nat, P>   // what was last written to each page

    ghost predicate Valid()
      reads this, shard, shard.list
    {
      shard.Valid() && Coherent(ViewOf(shard.list), disk, latest)
    }

    constructor (shard: Shard<P>, disk: map<nat, P>)
      requires shard.Valid() && shard.list == []
      ensures Valid() && this.shard == shard && this.disk == disk == latest
    {
      this.shard := shard;
      this.disk, this.latest := disk, disk;
    }

    /** Get gives the page as it was last written, from the cache or from disk, or none if there is no such page. */
    method Get(id: nat) returns (r: Option<P>)
      requires Valid()
      modifies shard, shard.list
      ensures Valid() && r == (if id in latest then Some(latest[id]) else None)
      ensures fresh(set x | x in shard.list && x !in old(shard.list))
    {
      hide Coherent, ViewOf, Placed, Linked, Tabled, Hit;
      ghost var v := ViewOf(shard.list);
      var p;
      ghost var i;
      p, i := shard.Get(id);
      if p.Some? {
        Cached(v, i, disk, latest);
        HitCoherent(v, ViewOf(shard.list), i, disk, latest);
        return p;
      }
      r := Load(id);
    }

    /** A page that is not cached is read from disk. */
    method Load(id: nat) returns (r: Option<P>)
      requires Valid() && id !in shard.entries
      modifies shard, shard.list
      ensures Valid() && r == (if id in latest then Some(latest[id]) else None)
      ensures fresh(set x | x in shard.list && x !in old(shard.list))
    {
      hide Coherent, ViewOf, Placed, Linked, Tabled;
      ghost var v := ViewOf(shard.list);
      ghost var k := shard.Find(id);
      NotCached(v, id, disk, latest);
      ViewUnique(shard);
      if id !in disk {
        return None;
      }
      var evicted := shard.Put(id, disk[id], false);
      PlacedCoherent(v, ViewOf(shard.list), Cell(id, disk[id], 1, false), shard.capacity, evicted, disk, latest);
      assert latest[id := disk[id]] == latest;
      r := Some(disk[id]);
    }

    /** A page that is handed out starts in the cache, dirty: a new page at the end of the file, or a page that
        was freed, whether or not an old copy of it is still cached.  Free writes its list nodes the same way. */
    method Allocate(id: nat, blank: P)
      requires Valid()
      modifies this`latest, shard, shard.list
      ensures Valid() && latest == old(latest)[id := blank]
      ensures fresh(set x | x in shard.list && x !in old(shard.list))
    {
      hide Coherent, ViewOf, Placed, Linked, Tabled;
      ghost var v := ViewOf(shard.list);
      ViewUnique(shard);
      var evicted := shard.Put(id, blank, true);
      PlacedCoherent(v, ViewOf(shard.list), Cell(id, blank, 1, true), shard.capacity, evicted, disk, latest);
      latest := latest[id := blank];
    }

    /** The caller writes a page it holds and marks it dirty. */
    method Write(id: nat, page: P)
      requires Valid() && id in shard.entries
      modifies this`latest, shard.list
      ensures Valid() && latest == old(latest)[id := page] && shard.list == old(shard.list)
    {
      hide Coherent, ViewOf, Linked, Tabled, Changed;
      ghost var v := ViewOf(shard.list);
      ViewUnique(shard);
      shard.Mark(id, page, true);
      ghost var i: nat :| i < |v| && v[i].id == id && Changed(v, ViewOf(shard.list), i,
              v[i].(page := page, dirty := true));
      WriteCoherent(v, ViewOf(shard.list), i, page, disk, latest);
      latest := latest[id := page];
    }

    /** Flush writes a dirty page to disk; the pin it takes is given back. */
    method Flush(id: nat)
      requires Valid()
      modifies this`disk, shard, shard.list
      ensures Valid() && forall x :: x in shard.list ==> x in old(shard.list)
      ensures id in old(disk) || id in old(shard.entries) ==> id in disk && id in latest && disk[id] == latest[id]
      ensures forall x :: x in old(disk) && x != id ==> x in disk && disk[x] == old(disk)[x]
    {
      hide Coherent, ViewOf, Linked, Tabled, Changed, Hit;
      ghost var v := ViewOf(shard.list);
      ghost var k := shard.Find(id);
      var p;
      ghost var i;
      p, i := shard.Get(id);
      if p.None? {
        NotCached(v, id, disk, latest);
        return;
      }
      FrontIs(v, ViewOf(shard.list), i, disk, latest);
      FrontEntry(id);
      var e := shard.entries[id];
      if e.dirty {
        WriteBack(id, e.page);
      }
      GiveBack(id);
    }

    /** The page in front goes to disk and is clean. */
    method WriteBack(id: nat, page: P)
      requires Valid() && id in shard.entries && FrontHeld(ViewOf(shard.list), id) && ViewOf(shard.list)[0].page == page
      modifies this`disk, shard.list`page, shard.list`dirty
      ensures Valid() && FrontHeld(ViewOf(shard.list), id) && disk == old(disk)[id := page]
    {
      hide Coherent, ViewOf, Linked, Tabled, Changed;
      ghost var v := ViewOf(shard.list);
      ViewUnique(shard);
      disk := disk[id := page];
      shard.Mark(id, page, false);
      ghost var j: nat :| j < |v| && v[j].id == id && Changed(v, ViewOf(shard.list), j,
              v[j].(page := page, dirty := false));
      assert j == 0;
      FlushCoherent(v, ViewOf(shard.list), 0, old(disk), latest);
    }

    /** The pin that Flush took is given back; the page stays pinned. */
    method GiveBack(id: nat)
      requires Valid() && id in shard.entries && FrontHeld(ViewOf(shard.list), id)
      modifies shard.list`pins
      ensures Valid()
    {
      hide Coherent, ViewOf, Linked, Tabled, Changed;
      ghost var v := ViewOf(shard.list);
      ViewUnique(shard);
      shard.Unpin(id);
      ghost var j: nat :| j < |v| && v[j].id == id && Changed(v, ViewOf(shard.list), j, Unpinned(v[j]));
      assert j == 0;
      UnpinCoherent(v, ViewOf(shard.list), 0, disk, latest);
    }

    /** The entry the table holds for a cached page is its cell. */
    lemma {:induction false} FrontEntry(id: nat)
      requires shard.Valid() && shard.list != [] && ViewOf(shard.list)[0].id == id
      ensures id in shard.entries && CellOf(shard.entries[id]) == ViewOf(shard.list)[0]
    {
      assert shard.list[0].id == id;
    }
  }

  lemma {:induction false} ViewUnique<P>(shard: Shard<P>)
    requires shard.Valid()
    ensures Unique(ViewOf(shard.list))
  {
    var v := ViewOf(shard.list);
    forall i, j | 0 <= i < j < |v| ensures v[i].id != v[j].id {
      assert shard.list[i] != shard.list[j];
      assert shard.entries[shard.list[i].id] == shard.list[i] && shard.entries[shard.list[j].id] == shard.list[j];
    }
  }

  lemma {:induction false} WriteCoherent<P>(v: seq<Cell<P>>, v': seq<Cell<P>>, i: nat, page: P, disk: map<nat, P>,
                                            latest: map<nat, P>)
    requires Coherent(v, disk, latest) && Unique(v) && i < |v| && Changed(v, v', i, v[i].(page := page, dirty := true))
    ensures Coherent(v', disk, latest[v[i].id := page])
  {
    CoherentChange(v, i, v[i].(page := page, dirty := true), disk, latest, disk, latest[v[i].id := page]);
  }

  lemma {:induction false} FlushCoherent<P>(v: seq<Cell<P>>, v': seq<Cell<P>>, i: nat, disk: map<nat, P>,
                                            latest: map<nat, P>)
    requires Coherent(v, disk, latest) && Unique(v) && i < |v| && v[i].pins >= 2
             && Changed(v, v', i, v[i].(dirty := false))
    ensures Coherent(v', disk[v[i].id := v[i].page], latest) && v'[i].pins >= 2 && |v'| == |v| && v'[i].id == v[i].id
            && Unique(v')
  {
    assert CellOk(v[i], disk, latest);
    assert latest[v[i].id := v[i].page] == latest;
    CoherentChange(v, i, v[i].(dirty := false), disk, latest, disk[v[i].id := v[i].page], latest);
  }

  lemma {:induction false} UnpinCoherent<P>(v: seq<Cell<P>>, v': seq<Cell<P>>, i: nat, disk: map<nat, P>,
                                            latest: map<nat, P>)
    requires Coherent(v, disk, latest) && Unique(v) && i < |v| && v[i].pins >= 2 && Changed(v, v', i, Unpinned(v[i]))
    ensures Coherent(v', disk, latest)
  {
    assert CellOk(v[i], disk, latest);
    assert latest[v[i].id := v[i].page] == latest;
    CoherentChange(v, i, Unpinned(v[i]), disk, latest, disk, latest);
  }

  /** After a hit the page is in front, held at least twice. */
  lemma {:induction false} FrontIs<P>(v: seq<Cell<P>>, w: seq<Cell<P>>, i: nat, disk: map<nat, P>, latest: map<nat, P>)
    requires Coherent(v, disk, latest) && Hit(v, w, i)
    ensures |w| == |v| && w[0].id == v[i].id && w[0].pins >= 2 && w[0].page == v[i].page && w[0].dirty == v[i].dirty
            && Coherent(w, disk, latest)
    ensures v[i].id in latest && v[i].page == latest[v[i].id]
            && (!w[0].dirty ==> w[0].id in disk && disk[w[0].id] == w[0].page)
  {
    HitCoherent(v, w, i, disk, latest);
    assert CellOk(v[i], disk, latest);
  }

  lemma {:induction false} Cached<P>(v: seq<Cell<P>>, i: nat, disk: map<nat, P>, latest: map<nat, P>)
    requires Coherent(v, disk, latest) && i < |v|
    ensures v[i].id in latest && v[i].page == latest[v[i].id] && v[i].pins > 0
  {
  }

  lemma {:induction false} NotCached<P>(v: seq<Cell<P>>, id: nat, disk: map<nat, P>, latest: map<nat, P>)
    requires Coherent(v, disk, latest) && Absent(v, id)
    ensures id in latest <==> id in disk
    ensures id in latest ==> disk[id] == latest[id]
  {
  }

  lemma {:induction false} HitCoherent<P>(v: seq<Cell<P>>, v': seq<Cell<P>>, i: nat, disk: map<nat, P>, latest: map<nat,
                                          P>)
    requires Coherent(v, disk, latest) && Hit(v, v', i)
    ensures Coherent(v', disk, latest)
  {
    CoherentFront(v, i, v[i].(pins := v[i].pins + 1), disk, latest);
  }

  /** A page put into a shard whose pages are all pinned evicts nothing, whether it is new to the shard or takes
      the place of an older copy. */
  lemma {:induction false} PlacedCoherent<P>(v: seq<Cell<P>>, v': seq<Cell<P>>, c: Cell<P>, capacity: int,
                                             evicted: Option<Cell<P>>, disk: map<nat, P>, latest: map<nat, P>)
    requires Coherent(v, disk, latest) && Unique(v) && Placed(v, v', c, capacity, evicted) && c.pins == 1
    requires c.dirty || (c.id in disk && disk[c.id] == c.page)
    ensures evicted == None && Coherent(v', disk, latest[c.id := c.page])
  {
    var latest' := latest[c.id := c.page];
    if Absent(v, c.id) {
      CoherentNew(v, c, disk, latest, latest');
    } else {
      var i: nat :| i < |v| && v[i].id == c.id && v' == [c.(pins := v[i].pins + 1)] + Removed(v, i);
      PlacedOverCoherent(v, i, c.(pins := v[i].pins + 1), disk, latest);
    }
  }

  lemma {:induction false} PlacedOverCoherent<P>(v: seq<Cell<P>>, i: nat, c: Cell<P>, disk: map<nat, P>,
                                                 latest: map<nat, P>)
    requires Coherent(v, disk, latest) && Unique(v) && i < |v| && v[i].id == c.id && c.pins > 0
    requires c.dirty || (c.id in disk && disk[c.id] == c.page)
    ensures Coherent([c] + Removed(v, i), disk, latest[c.id := c.page])
  {
    CoherentChange(v, i, c, disk, latest, disk, latest[c.id := c.page]);
    CoherentFront(v[i := c], i, c, disk, latest[c.id := c.page]);
    assert Removed(v[i := c], i) == Removed(v, i);
  }
}
