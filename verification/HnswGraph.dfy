/**
 The layered graph of the HNSW index: what makes it sound, and what linking a new node does to it.
 */
module HnswGraph {
  import opened BeamSearch
  import opened Pruning

  function Cap(m: nat, m0: nat, level: nat): nat {
    if level == 0 then m0 else m
  }

  /** A neighbour list that node x may have at a level. */
  ghost predicate ListOk(g: Graph, x: nat, level: nat, list: seq<nat>, cap: nat) {
    && |list| <= cap && Distinct(list)
    && forall i :: 0 <= i < |list| ==> list[i] in g && list[i] != x && g[list[i]].level >= level
  }

  ghost predicate ListsOk(g: Graph, m: nat, m0: nat) {
    forall x, l: nat :: x in g && l <= g[x].level ==> ListOk(g, x, l, Neighbours(g, x, l), Cap(m, m0, l))
  }

  ghost predicate Sound(g: Graph, m: nat, m0: nat) {
    && (forall x :: x in g ==> |g[x].neighbors| == g[x].level + 1)
    && ListsOk(g, m, m0)
  }

  /** No list of level 0 is longer than m0, and none above it longer than m; links lead to other nodes of the level. */
  lemma {:induction false} Degrees(g: Graph, m: nat, m0: nat, x: nat, l: nat)
    requires Sound(g, m, m0) && x in g
    ensures |Neighbours(g, x, 0)| <= m0 && (l > 0 ==> |Neighbours(g, x, l)| <= m)
    ensures forall i :: 0 <= i < |Neighbours(g, x, l)| ==>
              var y := Neighbours(g, x, l)[i]; y in g && y != x && g[y].level >= l && l <= g[x].level
  {
    assert ListOk(g, x, 0, Neighbours(g, x, 0), Cap(m, m0, 0));
    if l <= g[x].level { assert ListOk(g, x, l, Neighbours(g, x, l), Cap(m, m0, l)); }
  }

  /** No link of the level leads to node id. */
  ghost predicate Unlinked(g: Graph, id: nat, level: nat) {
    forall x, i :: x in g && 0 <= i < |Neighbours(g, x, level)| ==> Neighbours(g, x, level)[i] != id
  }

  /** The nodes present at a level, one excepted. */
  ghost function Members(g: Graph, id: nat, level: nat): set<nat> {
    set x | x in g && x != id && g[x].level >= level
  }

  lemma {:induction false} SoundLinks(g: Graph, m: nat, m0: nat, level: nat)
    requires Sound(g, m, m0)
    ensures LinksInside(g, level)
  {
    forall x, i | x in g && 0 <= i < |Neighbours(g, x, level)| ensures Neighbours(g, x, level)[i] in g {
      assert ListOk(g, x, level, Neighbours(g, x, level), Cap(m, m0, level));
    }
  }

  lemma {:induction false} MembersClosed(g: Graph, m: nat, m0: nat, id: nat, level: nat)
    requires Sound(g, m, m0) && Unlinked(g, id, level)
    ensures Closed(g, level, Members(g, id, level))
  {
    forall x, i | x in Members(g, id, level) && x in g && 0 <= i < |Neighbours(g, x, level)|
      ensures Neighbours(g, x, level)[i] in Members(g, id, level) {
      assert ListOk(g, x, level, Neighbours(g, x, level), Cap(m, m0, level));
    }
  }

  /** In a sound graph no link leaves the node set. */
  lemma {:induction false} AllClosed(g: Graph, m: nat, m0: nat, level: nat)
    requires Sound(g, m, m0)
    ensures Closed(g, level, g.Keys)
  {
    SoundLinks(g, m, m0, level);
  }

  function SetList(g: Graph, x: nat, level: nat, list: seq<nat>): (r: Graph)
    requires x in g && level < |g[x].neighbors|
  {
    g[x := g[x].(neighbors := g[x].neighbors[level := list])]
  }

  lemma {:induction false} SetListAt(g: Graph, x: nat, level: nat, list: seq<nat>)
    requires x in g && level < |g[x].neighbors|
    ensures var g' := SetList(g, x, level, list);
            && g'.Keys == g.Keys && SameNodes(g, g')
            && forall y, l: nat :: y in g ==> Neighbours(g', y, l)
                                                == if y == x && l == level then list else Neighbours(g, y, l)
  {
  }

  /** Vectors, levels and the number of lists are as they were. */
  ghost predicate SameNodes(g: Graph, g': Graph) {
    g'.Keys == g.Keys && forall x :: x in g ==> g'[x].vec == g[x].vec && g'[x].level == g[x].level
                                                  && |g'[x].neighbors| == |g[x].neighbors|
  }

  lemma {:induction false} SetListSound(g: Graph, m: nat, m0: nat, x: nat, level: nat, list: seq<nat>)
    requires Sound(g, m, m0) && x in g && level <= g[x].level && ListOk(g, x, level, list, Cap(m, m0, level))
    ensures Sound(SetList(g, x, level, list), m, m0)
  {
    SetListAt(g, x, level, list);
    var g' := SetList(g, x, level, list);
    forall y, l: nat | y in g' && l <= g'[y].level ensures ListOk(g', y, l, Neighbours(g', y, l), Cap(m, m0, l)) {
      assert ListOk(g, y, l, Neighbours(g, y, l), Cap(m, m0, l));
    }
  }

  // ---------- A new node ----------

  lemma {:induction false} AddedSound(g: Graph, m: nat, m0: nat, id: nat, n: Node)
    requires Sound(g, m, m0) && id !in g && |n.neighbors| == n.level + 1
             && forall l :: 0 <= l <= n.level ==> n.neighbors[l] == []
    ensures Sound(g[id := n], m, m0)
    ensures var g' := g[id := n]; forall l: nat :: Unlinked(g', id, l)
  {
    var g' := g[id := n];
    forall y, l: nat | y in g' && l <= g'[y].level ensures ListOk(g', y, l, Neighbours(g', y, l), Cap(m, m0, l)) {
      if y != id {
        assert Neighbours(g', y, l) == Neighbours(g, y, l);
        assert ListOk(g, y, l, Neighbours(g, y, l), Cap(m, m0, l));
      }
    }
    forall l: nat, y, i | y in g' && 0 <= i < |Neighbours(g', y, l)| ensures Neighbours(g', y, l)[i] != id {
      assert y != id && Neighbours(g', y, l) == Neighbours(g, y, l);
      assert ListOk(g, y, l, Neighbours(g, y, l), Cap(m, m0, l));
    }
  }

  /** How a neighbour's list takes up the new node: appended, and cut to the nearest when it is too long. */
  ghost predicate Relinked(g: Graph, dist: Metric, x: nat, id: nat, before: seq<nat>, after: seq<nat>, cap: nat)
    requires x in g
  {
    var all := before + [id];
    if |all| <= cap then
      after == all
    else
      && |after| == cap && Distinct(after)
      && (forall i :: 0 <= i < |after| ==> after[i] in all && after[i] in g)
      && forall i, y :: 0 <= i < |after| && y in all && y !in after && y in g
           ==> D(g, dist, g[x].vec, after[i]) <= D(g, dist, g[x].vec, y)
  }

  /** The list of node x at a level after the first `done` of the chosen neighbours have been linked back. */
  ghost predicate ListAfter(g: Graph, dist: Metric, id: nat, chosen: seq<nat>, done: nat, cap: nat, x: nat,
                            before: seq<nat>, after: seq<nat>)
    requires x in g && done <= |chosen|
  {
    if x == id then after == chosen
    else if x in chosen[..done] then Relinked(g, dist, x, id, before, after, cap)
    else after == before
  }

  /** One level has been linked: the new node points at the chosen nodes, they point back as far as their
      lists allow, and nothing else has changed. */
  ghost predicate LevelLinked(g: Graph, g': Graph, dist: Metric, id: nat, level: nat, chosen: seq<nat>, done: nat,
                              cap: nat)
    requires done <= |chosen|
  {
    && SameNodes(g, g')
    && (forall x, l: nat :: x in g && l != level ==> Neighbours(g', x, l) == Neighbours(g, x, l))
    && forall x :: x in g ==> ListAfter(g, dist, id, chosen, done, cap, x, Neighbours(g, x, level),
                                Neighbours(g', x, level))
  }

  lemma {:induction false} LinkOne(g: Graph, g1: Graph, g2: Graph, dist: Metric, id: nat, level: nat, chosen: seq<nat>,
                                   done: nat, cap: nat, x: nat, list: seq<nat>)
    requires id in g && done < |chosen| && x == chosen[done] && x != id && Distinct(chosen)
    requires LevelLinked(g, g1, dist, id, level, chosen, done, cap) && x in g1 && level < |g1[x].neighbors|
    requires g2 == SetList(g1, x, level, list) && Relinked(g, dist, x, id, Neighbours(g, x, level), list, cap)
    ensures LevelLinked(g, g2, dist, id, level, chosen, done + 1, cap)
  {
    hide Relinked, Neighbours;
    SetListAt(g1, x, level, list);
    assert chosen[..done + 1] == chosen[..done] + [x];
    forall y | y in g ensures ListAfter(g, dist, id, chosen, done + 1, cap, y, Neighbours(g, y, level),
        Neighbours(g2, y, level)) {
      assert ListAfter(g, dist, id, chosen, done, cap, y, Neighbours(g, y, level), Neighbours(g1, y, level));
    }
  }

  // ---------- All levels of an insert ----------

  ghost predicate SameLevel(g: Graph, g': Graph, level: nat)
    requires g'.Keys == g.Keys
  {
    forall x :: x in g ==> Neighbours(g', x, level) == Neighbours(g, x, level)
  }

  /** What a beam search from ep finds, all of it among the nodes that can be reached. */
  ghost predicate Beam(g: Graph, dist: Metric, q: Vec, level: nat, ef: nat, ep: nat, r: seq<Match>) {
    && BeamResult(g, dist, q, level, ef, ep, r) && IdsOf(r) <= Reachable(g, level, ep)
    && (|Reachable(g, level, ep)| <= ef ==> IdsOf(r) == Reachable(g, level, ep))
  }

  /** The neighbours are the nearest of what a beam search from ep finds. */
  ghost predicate Chosen(g: Graph, dist: Metric, q: Vec, level: nat, ef: nat, cap: nat, ep: nat, chosen: seq<nat>) {
    exists r :: Beam(g, dist, q, level, ef, ep, r) && TakesFirst(r, cap, chosen)
  }

  ghost predicate TakesFirst(r: seq<Match>, cap: nat, chosen: seq<nat>) {
    |chosen| == (if |r| > cap then cap else |r|) && forall i :: 0 <= i < |chosen| ==> chosen[i] == r[i].id
  }

  /** What an insert leaves at one level that the new node shares with the old graph, having searched from ep. */
  ghost predicate LevelDone(g: Graph, g': Graph, dist: Metric, id: nat, level: nat, ef: nat, cap: nat, ep: nat)
    requires id in g && g'.Keys == g.Keys
  {
    var chosen := Neighbours(g', id, level);
    && Chosen(g, dist, g[id].vec, level, ef, cap, ep, chosen)
    && forall x :: x in g ==> ListAfter(g, dist, id, chosen, |chosen|, cap, x, Neighbours(g, x, level),
                                Neighbours(g', x, level))
  }

  lemma {:induction false} BeamElsewhere(g: Graph, g': Graph, dist: Metric, q: Vec, level: nat, ef: nat, ep: nat,
                                         r: seq<Match>)
    requires SameNodes(g, g') && SameLevel(g, g', level) && BeamResult(g', dist, q, level, ef, ep, r)
    ensures BeamResult(g, dist, q, level, ef, ep, r) && Reachable(g, level, ep) == Reachable(g', level, ep)
  {
    hide Neighbours;
    ReachElsewhere(g, g', level, ep);
    hide Reachable;
    forall i | 0 <= i < |r| ensures r[i].id in g && r[i] == MatchOf(g, dist, q, r[i].id) {
      assert r[i] == MatchOf(g', dist, q, r[i].id);
    }
    forall x | Beaten(g', dist, q, ef, r, x) ensures Beaten(g, dist, q, ef, r, x) {
    }
    forall x, i | x in IdsOf(r) && 0 <= i < |Neighbours(g, x, level)|
      ensures Beaten(g, dist, q, ef, r, Neighbours(g, x, level)[i]) {
      assert x in g;
      assert Neighbours(g', x, level) == Neighbours(g, x, level);
    }
  }

  lemma {:induction false} ReachElsewhere(g: Graph, g': Graph, level: nat, ep: nat)
    requires g'.Keys == g.Keys && SameLevel(g, g', level)
    ensures Reachable(g, level, ep) == Reachable(g', level, ep)
  {
    hide Neighbours;
    forall s: set<nat> ensures Closed(g, level, s) <==> Closed(g', level, s) {
    }
  }

  lemma {:induction false} ListAfterElsewhere(g: Graph, g': Graph, dist: Metric, id: nat, chosen: seq<nat>, cap: nat,
                                              x: nat, before: seq<nat>, after: seq<nat>)
    requires SameNodes(g, g') && x in g && ListAfter(g', dist, id, chosen, |chosen|, cap, x, before, after)
    ensures ListAfter(g, dist, id, chosen, |chosen|, cap, x, before, after)
  {
    if x != id && x in chosen[..|chosen|] && |before| + 1 > cap {
      var all := before + [id];
      assert Relinked(g', dist, x, id, before, after, cap);
      forall i, y | 0 <= i < |after| && y in all && y !in after && y in g
        ensures D(g, dist, g[x].vec, after[i]) <= D(g, dist, g[x].vec, y) {
        assert D(g', dist, g'[x].vec, after[i]) <= D(g', dist, g'[x].vec, y);
      }
    }
  }

  /** One more level is linked: it is done, lower levels are untouched, and higher ones stay done. */
  lemma {:induction false} LevelStep(g: Graph, g1: Graph, g2: Graph, dist: Metric, id: nat, level: nat, ef: nat,
                                     cap: nat, ep: nat, chosen: seq<nat>)
    requires id in g && SameNodes(g, g1) && SameLevel(g, g1, level)
    requires Chosen(g, dist, g[id].vec, level, ef, cap, ep, chosen)
    requires LevelLinked(g1, g2, dist, id, level, chosen, |chosen|, cap)
    ensures SameNodes(g, g2) && LevelDone(g, g2, dist, id, level, ef, cap, ep) && Neighbours(g2, id, level) == chosen
  {
    hide Neighbours, Chosen, ListAfter;
    assert Neighbours(g2, id, level) == chosen by {
      assert ListAfter(g1, dist, id, chosen, |chosen|, cap, id, Neighbours(g1, id, level), Neighbours(g2, id, level));
      Own(g1, dist, id, chosen, cap, Neighbours(g1, id, level), Neighbours(g2, id, level));
    }
    forall x | x in g ensures ListAfter(g, dist, id, chosen, |chosen|, cap, x, Neighbours(g, x, level),
        Neighbours(g2, x, level)) {
      assert Neighbours(g1, x, level) == Neighbours(g, x, level);
      ListAfterElsewhere(g, g1, dist, id, chosen, cap, x, Neighbours(g, x, level), Neighbours(g2, x, level));
    }
  }

  lemma {:induction false} Own(g: Graph, dist: Metric, id: nat, chosen: seq<nat>, cap: nat, before: seq<nat>,
                               after: seq<nat>)
    requires id in g && ListAfter(g, dist, id, chosen, |chosen|, cap, id, before, after)
    ensures after == chosen
  {
  }

  lemma {:induction false} OtherLevels(g: Graph, g1: Graph, g2: Graph, dist: Metric, id: nat, level: nat, ef: nat,
                                       cap: nat, chosen: seq<nat>, l: nat, capL: nat, ep: nat)
    requires id in g && SameNodes(g, g1) && LevelLinked(g1, g2, dist, id, level, chosen, |chosen|, cap) && l != level
    ensures SameNodes(g, g2)
    ensures SameLevel(g, g1, l) ==> SameLevel(g, g2, l)
    ensures LevelDone(g, g1, dist, id, l, ef, capL, ep) ==> LevelDone(g, g2, dist, id, l, ef, capL, ep)
    ensures Neighbours(g2, id, l) == Neighbours(g1, id, l)
  {
    hide Neighbours, Chosen, ListAfter;
    assert forall x :: x in g ==> Neighbours(g2, x, l) == Neighbours(g1, x, l);
  }
}
