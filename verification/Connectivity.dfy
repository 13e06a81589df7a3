/**
 Whether level 0 of the HNSW graph holds together.

 A new node and its neighbours are linked both ways, so it joins the graph as long as no list overflows.  A list
 that does is cut to the nearest, and that can cut nodes off.
 */
module Connectivity {
  import opened BeamSearch
  import opened Pruning
  import opened HnswGraph
  import opened GreedyWalk
  import opened Hnsw

  /** The lists of the nodes that the new one is linked to have room. */
  ghost predicate RoomToLink(g: Graph, g': Graph, id: nat, cap: nat)
    requires id in g && g'.Keys == g.Keys
  {
    forall i :: 0 <= i < |Neighbours(g', id, 0)| ==>
      var x := Neighbours(g', id, 0)[i]; x in g && x != id && |Neighbours(g, x, 0)| < cap
  }

  /** Both ends know of the new links, and no old link is gone. */
  lemma {:induction false} NothingCut(g: Graph, g': Graph, dist: Metric, id: nat, ef: nat, cap: nat, ep: nat)
    requires id in g && SameNodes(g, g') && LevelDone(g, g', dist, id, 0, ef, cap, ep) && RoomToLink(g, g', id, cap)
             && cap >= 1
    ensures Neighbours(g', id, 0) != []
    ensures forall x :: x in g && x != id ==>
              Neighbours(g', x, 0) == if x in Neighbours(g', id, 0) then Neighbours(g, x, 0) + [id]
                                        else Neighbours(g, x, 0)
  {
    hide Neighbours, BeamResult;
    var chosen := Neighbours(g', id, 0);
    assert chosen[..|chosen|] == chosen;
    assert Chosen(g, dist, g[id].vec, 0, ef, cap, ep, chosen);
    var r :| Beam(g, dist, g[id].vec, 0, ef, ep, r) && TakesFirst(r, cap, chosen);
    BeamIs(g, dist, g[id].vec, 0, ef, ep, r);
    forall x | x in g && x != id
      ensures Neighbours(g', x, 0) == if x in chosen then Neighbours(g, x, 0) + [id] else Neighbours(g, x, 0)
    {
      assert ListAfter(g, dist, id, chosen, |chosen|, cap, x, Neighbours(g, x, 0), Neighbours(g', x, 0));
    }
  }

  /** Where no list is cut, a connected graph stays connected. */
  lemma {:induction false} StaysConnected(g0: Graph, g: Graph, g': Graph, id: nat)
    requires id !in g0 && g.Keys == g0.Keys + {id} && g'.Keys == g.Keys && Connected(g0) && LinksInside(g0, 0)
    requires forall x :: x in g0 ==> Neighbours(g, x, 0) == Neighbours(g0, x, 0)
    requires var chosen := Neighbours(g', id, 0);
             && chosen != [] && (forall i :: 0 <= i < |chosen| ==> chosen[i] in g0)
             && forall x :: x in g0 ==> Neighbours(g', x, 0)
                                          == if x in chosen then Neighbours(g, x, 0) + [id] else Neighbours(g, x, 0)
    ensures Connected(g')
  {
    hide Neighbours;
    var c := Neighbours(g', id, 0)[0];
    forall s: set<nat> | s != {} && s <= g'.Keys && Closed(g', 0, s) ensures s == g'.Keys {
      var s0 := s - {id};
      assert id in s ==> c in s;
      forall x, i | x in s0 && x in g0 && 0 <= i < |Neighbours(g0, x, 0)| ensures Neighbours(g0, x, 0)[i] in s0 {
        assert Neighbours(g', x, 0)[i] == Neighbours(g0, x, 0)[i];
        assert Neighbours(g0, x, 0)[i] in g0;
      }
      assert Closed(g0, 0, s0) && s0 != {} && s0 <= g0.Keys;
      assert s0 == g0.Keys;
      var n := |Neighbours(g, c, 0)|;
      assert Neighbours(g', c, 0)[n] == id;
      assert id in s;
    }
  }

  lemma {:induction false} ListBound(list: seq<nat>, s: set<nat>)
    requires Distinct(list) && forall i :: 0 <= i < |list| ==> list[i] in s
    ensures |list| <= |s|
  {
    if list != [] {
      var n := |list| - 1;
      ListBound(list[..n], s - {list[n]});
    }
  }

  /** In a graph of no more nodes than a list may have, every list has room for one more. */
  lemma {:induction false} SmallHasRoom(g: Graph, m: nat, m0: nat, x: nat)
    requires Sound(g, m, m0) && x in g && |g.Keys| <= m0
    ensures |Neighbours(g, x, 0)| < m0
  {
    assert ListOk(g, x, 0, Neighbours(g, x, 0), Cap(m, m0, 0));
    hide Neighbours;
    ListBound(Neighbours(g, x, 0), g.Keys - {x});
  }

  /** One insert into a small graph. */
  lemma {:induction false} JoinsSmall(g0: Graph, g': Graph, dist: Metric, id: nat, vec: Vec, level: nat, entry: nat,
                                      maxLevel: int,
                                      ef: nat, m: nat, m0: nat)
    requires id !in g0 && Sound(g0, m, m0) && Sound(g', m, m0) && Connected(g0) && |g0.Keys| <= m0 && m0 >= 1
    requires var g := Added(g0, id, vec, level);
             && SameNodes(g, g')
             && if g0 == map[] then SameLevel(g, g', 0)
                else maxLevel >= 0 && Inserted(g, g', dist, id, entry, maxLevel, ef, m, m0)
    ensures Connected(g')
  {
    hide Sound, LevelDone, Connected, ListsOk;
    var g := Added(g0, id, vec, level);
    AddedLists(g0, id, vec, level);
    if g0 == map[] {
      OnlyOne(g', id);
    } else {
      var ep := LevelZero(g, g', dist, id, entry, maxLevel, ef, m, m0);
      OwnListOk(g', m, m0, id);
      hide Neighbours, Added, Inserted;
      forall i | 0 <= i < |Neighbours(g', id, 0)|
        ensures var x := Neighbours(g', id, 0)[i]; x in g && x != id && |Neighbours(g, x, 0)| < m0
      {
        SmallHasRoom(g0, m, m0, Neighbours(g', id, 0)[i]);
      }
      NothingCut(g, g', dist, id, ef, m0, ep);
      SoundLinks(g0, m, m0, 0);
      StaysConnected(g0, g, g', id);
    }
  }

  lemma {:induction false} AddedLists(g0: Graph, id: nat, vec: Vec, level: nat)
    requires id !in g0
    ensures var g := Added(g0, id, vec, level);
            && g.Keys == g0.Keys + {id} && forall x :: x in g0 ==> Neighbours(g, x, 0) == Neighbours(g0, x, 0)
  {
  }

  lemma {:induction false} OwnListOk(g: Graph, m: nat, m0: nat, id: nat)
    requires Sound(g, m, m0) && id in g
    ensures forall i :: 0 <= i < |Neighbours(g, id, 0)|
              ==> Neighbours(g, id, 0)[i] in g && Neighbours(g, id, 0)[i] != id
  {
    assert ListOk(g, id, 0, Neighbours(g, id, 0), Cap(m, m0, 0));
  }

  lemma {:induction false} OnlyOne(g: Graph, id: nat)
    requires g.Keys == {id}
    ensures Connected(g)
  {
  }

  datatype Item = Item(id: nat, vec: Vec, level: nat)

  ghost predicate AllIn(items: seq<Item>, ids: set<nat>) {
    forall i :: 0 <= i < |items| ==> items[i].id in ids
  }

  lemma {:induction false} NoneIn(items: seq<Item>, ids: set<nat>)
    ensures AllIn(items[..0], ids)
  {
  }

  lemma {:induction false} MoreIn(items: seq<Item>, i: nat, a: set<nat>, b: set<nat>)
    requires i < |items| && AllIn(items[..i], a) && a <= b && items[i].id in b
    ensures AllIn(items[..i + 1], b)
  {
    forall k | 0 <= k < i ensures items[k].id in b { assert items[k] == items[..i][k]; }
  }

  /** Any run of insertions into an empty index, of at most one node more than a list of level 0 may have, leaves a
      connected graph; ids in use are skipped. */
  method Build(index: Index, items: seq<Item>)
    requires index.Valid() && index.nodes == map[] && |items| <= index.m0 + 1
    modifies index
    ensures index.Valid() && Connected(index.nodes) && |index.nodes.Keys| <= |items|
    ensures AllIn(items, index.nodes.Keys)
  {
    hide Index.Valid, Connected, AllIn;
    Nothing();
    ghost var held := index.nodes.Keys;
    assert AllIn(items[..0], held) by { NoneIn(items, held); }
    var i := 0;
    while i < |items|
      invariant 0 <= i <= |items| && index.Valid() && Connected(index.nodes) && |held| <= i && held == index.nodes.Keys
      invariant AllIn(items[..i], held)
    {
      if items[i].id !in index.nodes {
        InsertSmall(index, items[i]);
      }
      MoreIn(items, i, held, index.nodes.Keys);
      held := index.nodes.Keys;
      i := i + 1;
    }
    assert items[..i] == items;
  }

  method InsertSmall(index: Index, item: Item)
    requires index.Valid() && item.id !in index.nodes && Connected(index.nodes) && |index.nodes.Keys| <= index.m0
    modifies index
    ensures index.Valid() && Connected(index.nodes) && index.nodes.Keys == old(index.nodes).Keys + {item.id}
    ensures |index.nodes.Keys| == old(|index.nodes.Keys|) + 1
  {
    hide Sound, Inserted, Connected, SameLevel, SameNodes, Index.StampsOk;
    ghost var g0, entry, top := index.nodes, index.entryPoint, index.maxLevel;
    ghost var g := Added(g0, item.id, item.vec, item.level);
    AddedLists(g0, item.id, item.vec, item.level);
    index.Insert(item.id, item.vec, item.level);
    SameKeysOf(g, index.nodes);
    Levels(g, index.nodes, index.dist, item.id, entry, top, index.efConstruction, index.m, index.m0);
    JoinsSmall(g0, index.nodes, index.dist, item.id, item.vec, item.level, entry, top, index.efConstruction, index.m,
        index.m0);
  }

  lemma {:induction false} SameKeysOf(g: Graph, g': Graph)
    requires SameNodes(g, g')
    ensures g'.Keys == g.Keys
  {
  }

  lemma {:induction false} Nothing()
    ensures Connected(map[])
  {
  }

  lemma {:induction false} Levels(g: Graph, g': Graph, dist: Metric, id: nat, entry: nat, maxLevel: int, ef: nat,
                                  m: nat, m0: nat)
    requires id in g && g'.Keys == g.Keys && Inserted(g, g', dist, id, entry, maxLevel, ef, m, m0)
    ensures maxLevel < 0 ==> SameLevel(g, g', 0)
  {
    hide LevelDone, Descends, SameLevel, InsertedFrom;
    var start :| InsertedFrom(g, g', dist, id, maxLevel, ef, m, m0, start);
    LevelOf(g, g', dist, id, maxLevel, ef, m, m0, start, 0);
  }

  // ---------- A list that is cut ----------

  /** Points on a line. */
  const Line: Metric := (a: Vec, b: Vec) => if |a| != 1 || |b| != 1 then 0.0
                                              else if a[0] < b[0] then b[0] - a[0] else a[0] - b[0]

  /** Three points at 0, 10 and 1, the first two linked to each other, and lists of one link: the third takes the
      place of the second in the list of the first, and nothing leads to the second any more. */
  lemma {:induction false} SecondCutOff(g: Graph, g': Graph, ep: nat)
    requires g.Keys == {1, 2, 3} && SameNodes(g, g') && g[1].vec == [0.0] && g[2].vec == [10.0] && g[3].vec == [1.0]
    requires Neighbours(g, 1, 0) == [2] && Neighbours(g, 2, 0) == [1] && LevelDone(g, g', Line, 3, 0, 1, 1, ep)
             && Sound(g', 1, 1)
    ensures Neighbours(g', 3, 0) == [1] && Neighbours(g', 1, 0) == [3]
    ensures Closed(g', 0, {1, 3}) && !Connected(g') && Reachable(g', 0, 1) <= {1, 3}
  {
    hide Neighbours, BeamResult;
    var chosen := Neighbours(g', 3, 0);
    assert Chosen(g, Line, g[3].vec, 0, 1, 1, ep, chosen);
    var r :| Beam(g, Line, g[3].vec, 0, 1, ep, r) && TakesFirst(r, 1, chosen);
    BeamIs(g, Line, g[3].vec, 0, 1, ep, r);
    OwnListOk(g', 1, 1, 3);
    FirstIsNearest(g, ep, r);
    assert chosen == [1] && chosen[..1] == chosen;
    assert ListAfter(g, Line, 3, chosen, 1, 1, 1, [2], Neighbours(g', 1, 0));
    ThirdPreferred(g, Neighbours(g', 1, 0));
    assert Closed(g', 0, {1, 3});
    assert 2 in g' && 2 !in {1, 3};
  }

  lemma {:induction false} FirstIsNearest(g: Graph, ep: nat, r: seq<Match>)
    requires g.Keys == {1, 2, 3} && g[1].vec == [0.0] && g[2].vec == [10.0] && g[3].vec == [1.0]
             && Neighbours(g, 2, 0) == [1]
    requires BeamResult(g, Line, [1.0], 0, 1, ep, r) && r[0].id != 3
    ensures r[0].id == 1
  {
    assert r[0].id == 2 ==> 2 in IdsOf(r);
    assert r[0].id == 2 ==> Beaten(g, Line, [1.0], 1, r, Neighbours(g, 2, 0)[0]);
  }

  lemma {:induction false} ThirdPreferred(g: Graph, after: seq<nat>)
    requires g.Keys == {1, 2, 3} && g[1].vec == [0.0] && g[2].vec == [10.0] && g[3].vec == [1.0]
    requires Relinked(g, Line, 1, 3, [2], after, 1)
    ensures after == [3]
  {
    assert [2] + [3] == [2, 3];
    assert after[0] in [2, 3];
    assert after[0] == 2 ==> 3 in [2, 3] && 3 !in after;
    assert after[0] == 2 ==> D(g, Line, g[1].vec, after[0]) <= D(g, Line, g[1].vec, 3);
  }

  lemma {:induction false} FirstAlone(g: Graph, g': Graph)
    requires g.Keys == {1} && g[1] == Node([0.0], 0, seq(1, _ => [])) && SameNodes(g, g') && SameLevel(g, g', 0)
    ensures g'[1].vec == [0.0] && Neighbours(g', 1, 0) == []
  {
  }

  lemma {:induction false} FirstTwo(g: Graph, g': Graph, ep: nat)
    requires g.Keys == {1, 2} && SameNodes(g, g') && g[1].vec == [0.0] && g[2].vec == [10.0]
             && Neighbours(g, 1, 0) == []
    requires LevelDone(g, g', Line, 2, 0, 1, 1, ep) && Sound(g', 1, 1)
    ensures g'[1].vec == [0.0] && g'[2].vec == [10.0] && Neighbours(g', 1, 0) == [2] && Neighbours(g', 2, 0) == [1]
  {
    hide Neighbours, BeamResult;
    var chosen := Neighbours(g', 2, 0);
    assert Chosen(g, Line, g[2].vec, 0, 1, 1, ep, chosen);
    var r :| Beam(g, Line, g[2].vec, 0, 1, ep, r) && TakesFirst(r, 1, chosen);
    BeamIs(g, Line, g[2].vec, 0, 1, ep, r);
    OwnListOk(g', 1, 1, 2);
    assert chosen == [1] && chosen[..1] == chosen;
    assert ListAfter(g, Line, 2, chosen, 1, 1, 1, [], Neighbours(g', 1, 0));
    assert [] + [2] == [2];
  }

  /** The run: three insertions, after which a search from the first node cannot find the second. */
  method CutOffByInsert() returns (index: Index)
    ensures fresh(index) && index.Valid() && index.nodes.Keys == {1, 2, 3} && index.entryPoint == 1
    ensures !Connected(index.nodes) && 2 !in Reachable(index.nodes, 0, 1)
  {
    hide Sound, Inserted, SameLevel, Index.StampsOk, Connected, Reachable, LevelDone, Neighbours;
    index := new Index(Line, 1, 1, 1, 1);
    ghost var g, entry := Added(map[], 1, [0.0], 0), index.entryPoint;
    index.Insert(1, [0.0], 0);
    Levels(g, index.nodes, Line, 1, entry, -1, 1, 1, 1);
    FirstAlone(g, index.nodes);
    g := Added(index.nodes, 2, [10.0], 0);
    AddedLists(index.nodes, 2, [10.0], 0);
    index.Insert(2, [10.0], 0);
    ghost var ep := LevelZero(g, index.nodes, Line, 2, 1, 0, 1, 1, 1);
    FirstTwo(g, index.nodes, ep);
    g := Added(index.nodes, 3, [1.0], 0);
    AddedLists(index.nodes, 3, [1.0], 0);
    index.Insert(3, [1.0], 0);
    ep := LevelZero(g, index.nodes, Line, 3, 1, 0, 1, 1, 1);
    SecondCutOff(g, index.nodes, ep);
  }

  lemma {:induction false} LevelZero(g: Graph, g': Graph, dist: Metric, id: nat, entry: nat, maxLevel: int, ef: nat,
                                     m: nat, m0: nat) returns (ep: nat)
    requires id in g && g'.Keys == g.Keys && Inserted(g, g', dist, id, entry, maxLevel, ef, m, m0) && maxLevel >= 0
    ensures LevelDone(g, g', dist, id, 0, ef, m0, ep)
  {
    hide LevelDone, Descends, InsertedFrom;
    var start :| InsertedFrom(g, g', dist, id, maxLevel, ef, m, m0, start);
    var top := Shared(maxLevel, g[id].level);
    LevelOf(g, g', dist, id, maxLevel, ef, m, m0, start, 0);
    ep := EntryAt(g', id, 0, top, start);
  }
}
