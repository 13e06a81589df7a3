/**
 HNSW: Insert and Search over the layered graph, and the soundness of the graph they keep.

 Distances are exact numbers given by a metric; random levels are a parameter of Insert.
 */
module Hnsw {
  import opened Heaps
  import opened BeamSearch
  import opened Pruning
  import opened HnswGraph
  import opened GreedyWalk

  class Index {
    const dist: Metric
    const m: nat
    const m0: nat
    const efConstruction: nat
    const efSearch: nat
    var nodes: Graph
    var entryPoint: nat
    var maxLevel: int
    var visitedGen: seq<nat>
    var generation: nat

    /** Every node has a visited stamp, and no stamp is from the future. */
    ghost predicate StampsOk()
      reads this
    {
      && (forall id :: id in nodes ==> id < |visitedGen|)
      && (forall i :: 0 <= i < |visitedGen| ==> visitedGen[i] <= generation)
    }

    /** The nodes stamped in this search. */
    ghost predicate Stamped(v: set<nat>)
      reads this
    {
      v <= nodes.Keys && forall id :: id in nodes && id < |visitedGen| ==> (visitedGen[id] == generation <==> id in v)
    }

    /** The state of both heaps. */
    ghost predicate HeapsOk(q: Vec, cHeap: seq<Match>, wHeap: seq<Match>, c: set<nat>, w: set<nat>)
      reads this
    {
      && Ordered(cHeap, Near) && HoldsSet(nodes, dist, q, cHeap, c)
      && Ordered(wHeap, Far) && HoldsSet(nodes, dist, q, wHeap, w)
    }

    /** One unvisited neighbour x: push it if it is near enough, and drop the farthest if the beam is full. */
    method Visit(q: Vec, x: nat, ef: nat, ghost level: nat, cHeap: seq<Match>, wHeap: seq<Match>,
                 ghost v: set<nat>, ghost w: set<nat>, ghost c: set<nat>, ghost e: set<nat>)
      returns (cHeap': seq<Match>, wHeap': seq<Match>, ghost w': set<nat>, ghost c': set<nat>)
      requires x in nodes && x !in v && Inv(nodes, dist, q, level, ef, v, w, c, e) && HeapsOk(q, cHeap, wHeap, c, w)
      ensures Inv(nodes, dist, q, level, ef, v + {x}, w', c', e) && HeapsOk(q, cHeap', wHeap', c', w')
    {
      hide Ordered;
      InHeap(nodes, dist, q, wHeap, w);
      FarthestOnTop(nodes, dist, q, wHeap, w);
      var d := dist(q, nodes[x].vec);
      cHeap', wHeap', w', c' := cHeap, wHeap, w, c;
      if d < wHeap[0].distance || |wHeap| < ef {
        cHeap' := Push(cHeap, Match(x, d), Near);
        AddToHeap(nodes, dist, q, cHeap, cHeap', c, x);
        c' := c + {x};
        wHeap' := Push(wHeap, Match(x, d), Far);
        AddToHeap(nodes, dist, q, wHeap, wHeap', w, x);
        w' := w + {x};
        if |wHeap'| > ef {
          FarthestOnTop(nodes, dist, q, wHeap', w');
          var out, rest := Pop(wHeap', Far);
          TakeFromHeap(nodes, dist, q, wHeap', rest, w', out);
          VisitSwapped(nodes, dist, q, level, ef, v, w, c, e, x, out.id);
          wHeap', w' := rest, w' - {out.id};
        } else {
          VisitKept(nodes, dist, q, level, ef, v, w, c, e, x);
        }
      } else {
        VisitPassed(nodes, dist, q, level, ef, v, w, c, e, x);
      }
    }

    /** All neighbours of the candidate x. */
    method ExpandNode(q: Vec, x: nat, ef: nat, level: nat, cHeap: seq<Match>, wHeap: seq<Match>,
                      ghost v: set<nat>, ghost w: set<nat>, ghost c: set<nat>, ghost e: set<nat>, ghost s: set<nat>)
      returns (cHeap': seq<Match>, wHeap': seq<Match>, ghost v': set<nat>, ghost w': set<nat>, ghost c': set<nat>)
      requires x in nodes && x in e && LinksInside(nodes, level) && StampsOk() && Stamped(v)
      requires Inv(nodes, dist, q, level, ef, v, w, c, e) && HeapsOk(q, cHeap, wHeap, c, w)
               && Expanded(nodes, level, v, e - {x})
      requires v <= s && Closed(nodes, level, s)
      modifies this`visitedGen
      ensures StampsOk() && |visitedGen| == old(|visitedGen|) && Stamped(v') && v <= v' <= s
      ensures Inv(nodes, dist, q, level, ef, v', w', c', e) && HeapsOk(q, cHeap', wHeap', c', w')
              && Expanded(nodes, level, v', e)
    {
      hide Ordered, HoldsSet, AllNearer;
      cHeap', wHeap', v', w', c' := cHeap, wHeap, v, w, c;
      var ns := Neighbours(nodes, x, level);
      var i := 0;
      while i < |ns|
        invariant 0 <= i <= |ns| && StampsOk() && |visitedGen| == old(|visitedGen|) && Stamped(v') && v <= v' <= s
        invariant Inv(nodes, dist, q, level, ef, v', w', c', e) && HeapsOk(q, cHeap', wHeap', c', w')
        invariant forall k :: 0 <= k < i ==> ns[k] in v'
      {
        var n := ns[i];
        if visitedGen[n] != generation {
          visitedGen := visitedGen[n := generation];
          cHeap', wHeap', w', c' := Visit(q, n, ef, level, cHeap', wHeap', v', w', c', e);
          v' := v' + {n};
        }
        i := i + 1;
      }
      assert Expanded(nodes, level, v', e) by {
        forall y, k | y in e && 0 <= k < |Neighbours(nodes, y, level)| ensures Neighbours(nodes, y, level)[k] in v' {
          if y != x { assert y in e - {x}; }
        }
      }
    }

    /** Empty the heap of the best into an ascending list. */
    method Drain(q: Vec, wHeap: seq<Match>, ghost w: set<nat>) returns (r: seq<Match>)
      requires Ordered(wHeap, Far) && HoldsSet(nodes, dist, q, wHeap, w)
      ensures Ascending(r) && HoldsSet(nodes, dist, q, r, w)
    {
      hide Ordered;
      r := [];
      var h := wHeap;
      ghost var left := w;
      while |h| > 0
        invariant Ordered(h, Far) && HoldsSet(nodes, dist, q, h, left) && left <= w <= nodes.Keys
        invariant multiset(h) + multiset(r) == multiset(wHeap) && Ascending(r)
        invariant forall k :: 0 <= k < |r| ==> r[k].id !in left && r[k].id in nodes
                                                 && forall y :: y in left ==> D(nodes, dist, q, y) <= r[k].distance
        decreases |h|
      {
        FarthestOnTop(nodes, dist, q, h, left);
        var x, rest := Pop(h, Far);
        TakeFromHeap(nodes, dist, q, h, rest, left, x);
        assert multiset([x] + r) == multiset{x} + multiset(r);
        r := [x] + r;
        h, left := rest, left - {x.id};
      }
      assert multiset(h) == multiset{};
    }

    /** Beam search on one level.  The search stays among the nodes reachable from the entry, and finds them all
        if the beam is at least as wide. */
    method SearchLayer(q: Vec, ep: nat, ef: nat, level: nat) returns (r: seq<Match>)
      requires ep in nodes && ef >= 1 && LinksInside(nodes, level) && StampsOk()
      modifies this`visitedGen, this`generation
      ensures StampsOk() && |visitedGen| == old(|visitedGen|)
      ensures BeamResult(nodes, dist, q, level, ef, ep, r) && IdsOf(r) <= Reachable(nodes, level, ep)
      ensures |Reachable(nodes, level, ep)| <= ef ==> IdsOf(r) == Reachable(nodes, level, ep)
    {
      hide Ordered, HoldsSet, BeamResult, Reachable;
      ReachableIs(nodes, level, ep);
      ghost var s := Reachable(nodes, level, ep);
      generation := generation + 1;
      visitedGen := visitedGen[ep := generation];
      var epDist := dist(q, nodes[ep].vec);
      var cHeap, wHeap := [Match(ep, epDist)], [Match(ep, epDist)];
      ghost var v, w, c, e := {ep}, {ep}, {ep}, {};
      StartHeaps(nodes, dist, q, ep);
      while |cHeap| > 0
        invariant StampsOk() && |visitedGen| == old(|visitedGen|) && Stamped(v) && ep in v && v <= s
        invariant Inv(nodes, dist, q, level, ef, v, w, c, e) && HeapsOk(q, cHeap, wHeap, c, w)
                  && Expanded(nodes, level, v, e)
        decreases |nodes.Keys - e|
      {
        NearestOnTop(nodes, dist, q, cHeap, c);
        var x, rest := Pop(cHeap, Near);
        InHeap(nodes, dist, q, wHeap, w);
        FarthestOnTop(nodes, dist, q, wHeap, w);
        if x.distance > wHeap[0].distance && |wHeap| >= ef {
          NoBetter(nodes, dist, q, level, ef, v, w, c, e, x.id);
          r := Drain(q, wHeap, w);
          ResultOf(nodes, dist, q, level, ef, ep, v, w, r);
          if |s| <= ef { ReachesAll(nodes, dist, q, level, ef, ep, v, w, s); }
          return;
        }
        TakeFromHeap(nodes, dist, q, cHeap, rest, c, x);
        ghost var e' := e + {x.id};
        assert nodes.Keys - e' < nodes.Keys - e by { assert x.id in nodes.Keys - e; }
        SmallerSet(nodes.Keys - e', nodes.Keys - e);
        Popped(nodes, dist, q, level, ef, v, w, c, e, x.id);
        cHeap, wHeap, v, w, c := ExpandNode(q, x.id, ef, level, rest, wHeap, v, w, c - {x.id}, e', s);
        e := e';
      }
      InHeap(nodes, dist, q, cHeap, c);
      assert c == {};
      NoCandidates(nodes, dist, q, level, ef, v, w, e);
      r := Drain(q, wHeap, w);
      ResultOf(nodes, dist, q, level, ef, ep, v, w, r);
      if |s| <= ef { ReachesAll(nodes, dist, q, level, ef, ep, v, w, s); }
    }

    // ---------- Insert and Search ----------

    ghost predicate Valid()
      reads this
    {
      && m >= 1 && m0 >= 1 && efConstruction >= 1 && efSearch >= 1
      && StampsOk() && Sound(nodes, m, m0)
      && (maxLevel == -1 <==> nodes == map[])
      && (nodes != map[] ==> entryPoint in nodes && nodes[entryPoint].level == maxLevel)
      && maxLevel >= -1
      && forall x :: x in nodes ==> nodes[x].level <= maxLevel
    }

    constructor (dist: Metric, m: int, m0: int, efConstruction: int, efSearch: int)
      ensures Valid() && nodes == map[] && this.dist == dist
      ensures this.m == (if m <= 0 then 16 else m) && this.m0 == (if m0 <= 0 then 2 * this.m else m0)
      ensures this.efConstruction == (if efConstruction <= 0 then 100 else efConstruction)
              && this.efSearch == (if efSearch <= 0 then 50 else efSearch)
    {
      this.dist := dist;
      this.m := if m <= 0 then 16 else m;
      this.m0 := if m0 <= 0 then (if m <= 0 then 16 else m) * 2 else m0;
      this.efConstruction := if efConstruction <= 0 then 100 else efConstruction;
      this.efSearch := if efSearch <= 0 then 50 else efSearch;
      nodes, entryPoint, maxLevel, visitedGen, generation := map[], 0, -1, [], 0;
    }

    /** Walk to nearer neighbours on one level until none is nearer.  `s` is any closed set around the start. */
    method Greedy(q: Vec, start: nat, level: nat, ghost s: set<nat>) returns (cur: nat)
      requires start in nodes && LinksInside(nodes, level) && start in s && Closed(nodes, level, s)
      ensures cur in nodes && cur in s && D(nodes, dist, q, cur) <= D(nodes, dist, q, start)
      ensures WalkEnds(nodes, dist, q, level, start, cur)
    {
      hide Reachable;
      cur := start;
      ghost var path := [start];
      var curDist := dist(q, nodes[cur].vec);
      var changed := true;
      while changed
        invariant cur in nodes && cur in s && curDist == D(nodes, dist, q, cur) <= D(nodes, dist, q, start)
        invariant changed || LocalMin(nodes, dist, q, level, cur)
        invariant Path(nodes, dist, q, level, path) && path[0] == start && path[|path| - 1] == cur
        decreases |Nearer(nodes, dist, q, curDist)|, changed
      {
        changed := false;
        ghost var before, beforeDist := cur, curDist;
        var ns := Neighbours(nodes, cur, level);
        var i := 0;
        ghost var at := 0;
        while i < |ns|
          invariant 0 <= i <= |ns| && cur in nodes && cur in s
                    && curDist == D(nodes, dist, q, cur) <= D(nodes, dist, q, start)
          invariant if changed then curDist < beforeDist && at < i && ns[at] == cur
                    else curDist == beforeDist && cur == before
          invariant forall k :: 0 <= k < i ==> curDist <= D(nodes, dist, q, ns[k])
          invariant changed ==> forall k :: 0 <= k < at ==> curDist < D(nodes, dist, q, ns[k])
        {
          var d := dist(q, nodes[ns[i]].vec);
          if d < curDist {
            curDist, cur, changed := d, ns[i], true;
            at := i;
          }
          i := i + 1;
        }
        if changed {
          NearerShrinks(nodes, dist, q, cur, curDist, beforeDist);
          assert FirstNearest(nodes, dist, q, ns, at, cur);
          Moved(nodes, dist, q, level, path, cur);
          path := path + [cur];
        }
      }
    }

    /** Point the new node at the chosen ones and them back at it, cutting lists that grow too long. */
    method LinkLevel(id: nat, level: nat, chosen: seq<nat>, cap: nat)
      requires cap == Cap(m, m0, level) && Sound(nodes, m, m0) && id in nodes && level <= nodes[id].level
      requires ListOk(nodes, id, level, chosen, cap) && Unlinked(nodes, id, level)
      modifies this`nodes
      ensures Sound(nodes, m, m0) && LevelLinked(old(nodes), nodes, dist, id, level, chosen, |chosen|, cap)
    {
      hide Sound, ListOk, Neighbours, Unlinked;
      ghost var g := nodes;
      LinkStart(nodes, m, m0, dist, id, level, chosen);
      nodes := SetList(nodes, id, level, chosen);
      var i := 0;
      while i < |chosen|
        invariant 0 <= i <= |chosen| && Sound(nodes, m, m0)
        invariant LevelLinked(g, nodes, dist, id, level, chosen, i, cap)
      {
        var x := chosen[i];
        LinkOk(g, nodes, m, m0, dist, id, level, chosen, i);
        var list := Neighbours(nodes, x, level) + [id];
        if |list| > cap {
          list := Prune(nodes, dist, list, nodes[x].vec, cap);
        }
        LinkedBack(g, nodes, m, m0, dist, id, level, chosen, i, list);
        nodes := SetList(nodes, x, level, list);
        i := i + 1;
      }
    }

    /** Room for the stamp of a new node. */
    method GrowStamps(id: nat)
      requires forall i :: 0 <= i < |visitedGen| ==> visitedGen[i] <= generation
      modifies this`visitedGen
      ensures id < |visitedGen| && |visitedGen| >= old(|visitedGen|)
      ensures forall i :: 0 <= i < |visitedGen| ==> visitedGen[i] <= generation
    {
      if id >= |visitedGen| {
        var newLen := if id + 1 < |visitedGen| * 2 then |visitedGen| * 2 else id + 1;
        visitedGen := visitedGen + seq(newLen - |visitedGen|, _ => 0);
      }
    }

    /** Search one level around the new node and link it there. */
    method LinkAt(id: nat, level: nat, ep: nat, ghost g: Graph) returns (next: nat)
      requires efConstruction >= 1 && m >= 1 && m0 >= 1 && StampsOk() && Sound(nodes, m, m0)
      requires id in g && SameNodes(g, nodes) && SameLevel(g, nodes, level) && Unlinked(g, id, level)
      requires level <= nodes[id].level && ep in nodes && ep != id && nodes[ep].level >= level
      modifies this`nodes, this`visitedGen, this`generation
      ensures StampsOk() && Sound(nodes, m, m0)
      ensures next in nodes && next != id && nodes[next].level >= level
      ensures SameNodes(g, nodes) && LevelDone(g, nodes, dist, id, level, efConstruction, Cap(m, m0, level), ep)
      ensures |Neighbours(nodes, id, level)| >= 1 && next == Neighbours(nodes, id, level)[0]
      ensures exists chosen :: LevelLinked(old(nodes), nodes, dist, id, level, chosen, |chosen|, Cap(m, m0, level))
    {
      hide Sound, ListOk, Neighbours, Relinked, ListAfter, BeamResult, ListsOk, LevelDone, Reachable;
      var vec := nodes[id].vec;
      ghost var g1 := nodes;
      UnlinkedHere(g, nodes, id, level);
      SoundLinks(nodes, m, m0, level);
      MembersClosed(nodes, m, m0, id, level);
      ReachableWithin(nodes, level, ep, Members(nodes, id, level));
      var candidates := SearchLayer(vec, ep, efConstruction, level);
      var cap := Cap(m, m0, level);
      var chosen := SelectNeighbors(candidates, cap);
      BeamElsewhere(g, nodes, dist, vec, level, efConstruction, ep, candidates);
      ChosenOk(nodes, dist, vec, id, level, efConstruction, ep, candidates, cap, chosen);
      next := candidates[0].id;
      assert Beam(g, dist, g[id].vec, level, efConstruction, ep, candidates);
      assert Chosen(g, dist, g[id].vec, level, efConstruction, cap, ep, chosen);
      LinkLevel(id, level, chosen, cap);
      LevelStep(g, g1, nodes, dist, id, level, efConstruction, cap, ep, chosen);
    }

    /** The whole index after an insert: the new node is there, the levels it shares with the old graph are
        linked, and nothing else has changed. */
    method Insert(id: nat, vec: Vec, nodeLevel: nat)
      requires Valid() && id !in nodes
      modifies this
      ensures Valid()
      ensures maxLevel == (if nodeLevel > old(maxLevel) then nodeLevel else old(maxLevel))
      ensures entryPoint == (if nodeLevel > old(maxLevel) then id else old(entryPoint))
      ensures SameNodes(Added(old(nodes), id, vec, nodeLevel), nodes)
      ensures Inserted(Added(old(nodes), id, vec, nodeLevel), nodes, dist, id, old(entryPoint), old(maxLevel),
                efConstruction, m, m0)
    {
      hide Sound, Neighbours, LevelDone, LevelLinked, Unlinked, SameLevel;
      ghost var g := Added(nodes, id, vec, nodeLevel);
      AddedSound(nodes, m, m0, id, g[id]);
      nodes := nodes[id := Node(vec, nodeLevel, seq(nodeLevel + 1, _ => []))];
      assert nodes == g;
      GrowStamps(id);
      if maxLevel == -1 {
        SameAll(g);
        assert InsertedFrom(g, nodes, dist, id, maxLevel, efConstruction, m, m0, entryPoint);
        entryPoint, maxLevel := id, nodeLevel;
        return;
      }
      assert entryPoint in nodes && entryPoint != id;
      var cur := Descend(id, vec, nodeLevel);
      LinkDown(id, Shared(maxLevel, nodeLevel), cur);
      assert InsertedFrom(g, nodes, dist, id, maxLevel, efConstruction, m, m0, cur);
      if nodeLevel > maxLevel {
        maxLevel, entryPoint := nodeLevel, id;
      }
    }

    /** Phase 2 of an insert: search and link, from level `top` down to 0. */
    method LinkDown(id: nat, top: nat, start: nat)
      requires efConstruction >= 1 && m >= 1 && m0 >= 1 && StampsOk() && Sound(nodes, m, m0)
      requires id in nodes && start in nodes && start != id && nodes[start].level >= top && nodes[id].level >= top
      requires forall l: nat :: Unlinked(nodes, id, l)
      modifies this`nodes, this`visitedGen, this`generation
      ensures StampsOk() && Sound(nodes, m, m0) && SameNodes(old(nodes), nodes)
      ensures forall k: nat :: k <= top ==>
                LevelDone(old(nodes), nodes, dist, id, k, efConstruction, Cap(m, m0, k),
                    EntryAt(nodes, id, k, top, start))
      ensures forall k: nat :: k > top ==> SameLevel(old(nodes), nodes, k)
    {
      hide Sound, Neighbours, LevelDone, LevelLinked, Unlinked, SameLevel, Cap;
      ghost var g := nodes;
      var cur, l: int := start, top;
      SameAll(g);
      while l >= 0
        invariant -1 <= l <= top && StampsOk() && Sound(nodes, m, m0) && SameNodes(g, nodes)
        invariant cur in nodes && cur != id && nodes[cur].level >= l
        invariant forall k: nat :: k <= l || k > top ==> SameLevel(g, nodes, k)
        invariant l >= 0 ==> cur == EntryAt(nodes, id, l, top, start)
        invariant forall k: nat :: l < k <= top ==>
                    LevelDone(g, nodes, dist, id, k, efConstruction, Cap(m, m0, k), EntryAt(nodes, id, k, top, start))
      {
        ghost var g1 := nodes;
        cur := LinkAt(id, l, cur, g);
        ghost var chosen :| LevelLinked(g1, nodes, dist, id, l, chosen, |chosen|, Cap(m, m0, l));
        OthersKept(g, g1, nodes, dist, id, l, efConstruction, m, m0, chosen, top, start);
        l := l - 1;
      }
    }

    /** Phase 1 of an insert: down to the level above the new node's. */
    method Descend(id: nat, vec: Vec, nodeLevel: nat) returns (cur: nat)
      requires Sound(nodes, m, m0) && (forall l: nat :: Unlinked(nodes, id, l))
      requires maxLevel >= 0 && entryPoint in nodes && nodes[entryPoint].level == maxLevel && entryPoint != id
      ensures cur in nodes && cur != id && nodes[cur].level >= (if maxLevel < nodeLevel then maxLevel else nodeLevel)
      ensures Descends(nodes, dist, vec, entryPoint, maxLevel, nodeLevel, cur)
    {
      hide Sound, Neighbours, Unlinked, WalkEnds;
      cur := entryPoint;
      var l := maxLevel;
      while l > nodeLevel
        invariant cur in nodes && cur != id && l <= maxLevel && nodes[cur].level >= l
                  && (l >= nodeLevel || l == maxLevel)
        invariant l >= 0 && Descends(nodes, dist, vec, entryPoint, maxLevel, l, cur)
      {
        SoundLinks(nodes, m, m0, l);
        MembersClosed(nodes, m, m0, id, l);
        var next := Greedy(vec, cur, l, Members(nodes, id, l));
        DescendOne(nodes, dist, vec, entryPoint, maxLevel, l, cur, next);
        cur := next;
        l := l - 1;
      }
      if maxLevel < nodeLevel {
        assert Descends(nodes, dist, vec, entryPoint, maxLevel, nodeLevel, cur);
      }
    }

    /** The greedy walks of a search, from the entry point down to level 1. */
    method Descent(q: Vec) returns (cur: nat)
      requires Valid() && nodes != map[]
      ensures cur in nodes && Descends(nodes, dist, q, entryPoint, maxLevel, 0, cur)
    {
      hide Sound, Neighbours, WalkEnds;
      cur := entryPoint;
      var l := maxLevel;
      while l > 0
        invariant 0 <= l <= maxLevel && cur in nodes && Descends(nodes, dist, q, entryPoint, maxLevel, l, cur)
      {
        SoundLinks(nodes, m, m0, l);
        AllClosed(nodes, m, m0, l);
        var next := Greedy(q, cur, l, nodes.Keys);
        DescendOne(nodes, dist, q, entryPoint, maxLevel, l, cur, next);
        cur := next;
        l := l - 1;
      }
    }

    /** The first k of what a beam search on level 0 finds from where the greedy walks end; so the first is no
        farther than the entry point and, if there are upper levels, than each of its neighbours on the highest.
        If the beam is as wide as the graph and level 0 is connected, they are the k nearest of all nodes. */
    method Search(q: Vec, k: nat) returns (r: seq<Match>)
      requires Valid()
      modifies this`visitedGen, this`generation
      ensures Valid()
      ensures |r| <= k && Ascending(r)
      ensures forall i :: 0 <= i < |r| ==> r[i].id in nodes && r[i] == MatchOf(nodes, dist, q, r[i].id)
      ensures nodes == map[] ==> r == []
      ensures nodes != map[] ==>
                FoundFrom(nodes, dist, q, entryPoint, maxLevel, if efSearch < k then k else efSearch, k, r)
      ensures nodes != map[] && k > 0 ==> |r| > 0 && AtLeastAsNear(nodes, dist, q, entryPoint, maxLevel, r[0].distance)
      ensures Connected(nodes) && |nodes| <= (if efSearch < k then k else efSearch) ==> TopK(nodes, dist, q, k, r)
    {
      if |nodes| == 0 {
        return [];
      }
      hide Sound, Neighbours, BeamResult, Reachable, TopK, Connected, Descends, AtLeastAsNear;
      var cur := Descent(q);
      var ef := if efSearch < k then k else efSearch;
      SoundLinks(nodes, m, m0, 0);
      r := SearchLayer(q, cur, ef, 0);
      BeamIs(nodes, dist, q, 0, ef, cur, r);
      NearerThanStart(nodes, dist, q, entryPoint, maxLevel, ef, cur, r);
      ghost var all := r;
      if |r| > k {
        r := r[..k];
      }
      assert Beam(nodes, dist, q, 0, ef, cur, all);
      if Connected(nodes) && |nodes| <= ef {
        ConnectedReach(nodes, cur);
        Truncated(nodes, dist, q, k, all, r);
      }
    }

    method SelectNeighbors(candidates: seq<Match>, cap: nat) returns (r: seq<nat>)
      ensures TakesFirst(candidates, cap, r)
    {
      var count := if |candidates| > cap then cap else |candidates|;
      r := [];
      var i := 0;
      while i < count
        invariant 0 <= i <= count && |r| == i && forall k :: 0 <= k < i ==> r[k] == candidates[k].id
      {
        r := r + [candidates[i].id];
        i := i + 1;
      }
    }
  }

  // ---------- Insert as a change of the graph ----------

  ghost function Added(g: Graph, id: nat, vec: Vec, level: nat): Graph {
    g[id := Node(vec, level, seq(level + 1, _ => []))]
  }

  /** Where the search of a level starts: on the highest where the greedy walks end, below that at the nearest node
      found on the level above, which is the first neighbour of the new node there. */
  ghost function EntryAt(g': Graph, id: nat, l: nat, top: int, start: nat): nat
    requires id in g'
  {
    if l >= top || Neighbours(g', id, l + 1) == [] then start else Neighbours(g', id, l + 1)[0]
  }

  ghost predicate InsertedFrom(g: Graph, g': Graph, dist: Metric, id: nat, maxLevel: int, ef: nat, m: nat, m0: nat,
                               start: nat)
    requires id in g && g'.Keys == g.Keys
  {
    forall l: nat :: LevelResult(g, g', dist, id, l, Shared(maxLevel, g[id].level), ef, m, m0, start)
  }

  /** The highest level that the new node shares with the graph. */
  function Shared(maxLevel: int, level: nat): int {
    if maxLevel < level then maxLevel else level
  }

  ghost predicate LevelResult(g: Graph, g': Graph, dist: Metric, id: nat, l: nat, top: int, ef: nat, m: nat, m0: nat,
                              start: nat)
    requires id in g && g'.Keys == g.Keys
  {
    if l <= top then LevelDone(g, g', dist, id, l, ef, Cap(m, m0, l), EntryAt(g', id, l, top, start))
    else SameLevel(g, g', l)
  }

  /** g is the old graph with the new node unlinked; only the levels both have are linked, from where the greedy
      walks on the levels above end. */
  ghost predicate Inserted(g: Graph, g': Graph, dist: Metric, id: nat, entry: nat, maxLevel: int, ef: nat, m: nat,
                           m0: nat)
    requires id in g && g'.Keys == g.Keys
  {
    exists start :: Descends(g, dist, g[id].vec, entry, maxLevel, g[id].level, start)
                    && InsertedFrom(g, g', dist, id, maxLevel, ef, m, m0, start)
  }

  lemma {:induction false} LevelOf(g: Graph, g': Graph, dist: Metric, id: nat, maxLevel: int, ef: nat, m: nat, m0: nat,
                                   start: nat, l: nat)
    requires id in g && g'.Keys == g.Keys && InsertedFrom(g, g', dist, id, maxLevel, ef, m, m0, start)
    ensures LevelResult(g, g', dist, id, l, Shared(maxLevel, g[id].level), ef, m, m0, start)
  {
    hide LevelResult;
  }

  /** The first k of what the beam finds from where the greedy walks end. */
  ghost predicate FoundFrom(g: Graph, dist: Metric, q: Vec, entry: nat, maxLevel: int, ef: nat, k: nat, r: seq<Match>) {
    exists ep, all :: && Descends(g, dist, q, entry, maxLevel, 0, ep) && Beam(g, dist, q, 0, ef, ep, all)
                      && r == if |all| > k then all[..k] else all
  }

  /** No farther than the entry point and its neighbours on the highest level above 0. */
  ghost predicate AtLeastAsNear(g: Graph, dist: Metric, q: Vec, entry: nat, maxLevel: int, d: real) {
    && entry in g && d <= D(g, dist, q, entry)
    && (maxLevel > 0 ==> forall i :: 0 <= i < |Neighbours(g, entry, maxLevel)| ==>
          Neighbours(g, entry, maxLevel)[i] in g && d <= D(g, dist, q, Neighbours(g, entry, maxLevel)[i]))
  }

  lemma {:induction false} NearerThanStart(g: Graph, dist: Metric, q: Vec, entry: nat, maxLevel: int, ef: nat,
                                           ep: nat, r: seq<Match>)
    requires entry in g && Descends(g, dist, q, entry, maxLevel, 0, ep) && BeamResult(g, dist, q, 0, ef, ep, r)
    ensures |r| > 0 && AtLeastAsNear(g, dist, q, entry, maxLevel, r[0].distance)
  {
    hide Descends, Neighbours;
    DescentNearer(g, dist, q, entry, maxLevel, 0, ep);
    assert Beaten(g, dist, q, ef, r, ep);
    if ep in IdsOf(r) {
      var i :| 0 <= i < |r| && r[i].id == ep;
      assert r[i] == MatchOf(g, dist, q, ep);
    }
  }

  lemma {:induction false} SameAll(g: Graph)
    ensures SameNodes(g, g) && forall l: nat :: SameLevel(g, g, l)
  {
  }

  lemma {:induction false} OthersKept(g: Graph, g1: Graph, g2: Graph, dist: Metric, id: nat, level: nat, ef: nat,
                                      m: nat, m0: nat, chosen: seq<nat>, top: int, start: nat)
    requires id in g && SameNodes(g, g1) && LevelLinked(g1, g2, dist, id, level, chosen, |chosen|, Cap(m, m0, level))
    ensures SameNodes(g, g2)
    ensures forall k: nat :: k != level && SameLevel(g, g1, k) ==> SameLevel(g, g2, k)
    ensures forall k: nat :: k >= level ==> EntryAt(g2, id, k, top, start) == EntryAt(g1, id, k, top, start)
    ensures forall k: nat :: k > level && LevelDone(g, g1, dist, id, k, ef, Cap(m, m0, k),
                EntryAt(g1, id, k, top, start))
              ==> LevelDone(g, g2, dist, id, k, ef, Cap(m, m0, k), EntryAt(g2, id, k, top, start))
  {
    hide LevelDone, LevelLinked, SameLevel, Neighbours;
    assert SameNodes(g, g2) by {
      OtherLevels(g, g1, g2, dist, id, level, ef, Cap(m, m0, level), chosen, level + 1, 0, 0);
    }
    forall k: nat | k != level && SameLevel(g, g1, k) ensures SameLevel(g, g2, k) {
      OtherLevels(g, g1, g2, dist, id, level, ef, Cap(m, m0, level), chosen, k, 0, 0);
    }
    forall k: nat | k >= level ensures EntryAt(g2, id, k, top, start) == EntryAt(g1, id, k, top, start) {
      OtherLevels(g, g1, g2, dist, id, level, ef, Cap(m, m0, level), chosen, k + 1, 0, 0);
    }
    forall k: nat | k > level && LevelDone(g, g1, dist, id, k, ef, Cap(m, m0, k), EntryAt(g1, id, k, top, start))
      ensures LevelDone(g, g2, dist, id, k, ef, Cap(m, m0, k), EntryAt(g2, id, k, top, start)) {
      OtherLevels(g, g1, g2, dist, id, level, ef, Cap(m, m0, level), chosen, k, Cap(m, m0, k),
          EntryAt(g1, id, k, top, start));
    }
  }

  // ---------- Exact search ----------

  /** Level 0 holds together: only the whole graph is closed. */
  ghost predicate Connected(g: Graph) {
    forall s: set<nat> :: s != {} && s <= g.Keys && Closed(g, 0, s) ==> s == g.Keys
  }

  lemma {:induction false} ConnectedReach(g: Graph, ep: nat)
    requires Connected(g) && ep in g && LinksInside(g, 0)
    ensures Reachable(g, 0, ep) == g.Keys && |g.Keys| == |g|
  {
    ReachableIs(g, 0, ep);
  }

  /** The k nearest nodes, nearest first. */
  ghost predicate TopK(g: Graph, dist: Metric, q: Vec, k: nat, r: seq<Match>) {
    && |r| == (if |g| < k then |g| else k) && Ascending(r)
    && (forall i :: 0 <= i < |r| ==> r[i].id in g && r[i] == MatchOf(g, dist, q, r[i].id))
    && forall x, i :: x in g && x !in IdsOf(r) && 0 <= i < |r| ==> r[i].distance <= D(g, dist, q, x)
  }

  lemma {:induction false} BeamIs(g: Graph, dist: Metric, q: Vec, level: nat, ef: nat, ep: nat, r: seq<Match>)
    requires BeamResult(g, dist, q, level, ef, ep, r)
    ensures 1 <= |r| <= ef && Ascending(r) && forall i :: 0 <= i < |r|
                                                ==> r[i].id in g && r[i] == MatchOf(g, dist, q, r[i].id)
  {
  }

  lemma {:induction false} IdCount(r: seq<Match>)
    requires Ascending(r)
    ensures |IdsOf(r)| == |r|
  {
    if r != [] {
      var n := |r| - 1;
      var rest := r[..n];
      IdCount(rest);
      assert IdsOf(r) == IdsOf(rest) + {r[n].id};
    } else {
      assert IdsOf(r) == {};
    }
  }

  lemma {:induction false} Truncated(g: Graph, dist: Metric, q: Vec, k: nat, all: seq<Match>, r: seq<Match>)
    requires Ascending(all) && IdsOf(all) == g.Keys && forall i :: 0 <= i < |all|
                                                         ==> all[i].id in g && all[i] == MatchOf(g, dist, q, all[i].id)
    requires r == if |all| > k then all[..k] else all
    ensures TopK(g, dist, q, k, r)
  {
    IdCount(all);
    forall x, i | x in g && x !in IdsOf(r) && 0 <= i < |r| ensures r[i].distance <= D(g, dist, q, x) {
      assert x in IdsOf(all);
      var j :| 0 <= j < |all| && all[j].id == x;
      assert all[j].id !in IdsOf(r);
    }
  }

  // ---------- The greedy descent ends ----------

  ghost function Nearer(g: Graph, dist: Metric, q: Vec, d: real): set<nat> {
    set x | x in g && D(g, dist, q, x) < d
  }

  lemma {:induction false} NearerShrinks(g: Graph, dist: Metric, q: Vec, x: nat, d: real, d': real)
    requires x in g && D(g, dist, q, x) == d < d'
    ensures |Nearer(g, dist, q, d)| < |Nearer(g, dist, q, d')|
  {
    assert x in Nearer(g, dist, q, d') && x !in Nearer(g, dist, q, d);
    SmallerSet(Nearer(g, dist, q, d), Nearer(g, dist, q, d'));
  }

  // ---------- Linking a level ----------

  lemma {:induction false} LinkStart(g: Graph, m: nat, m0: nat, dist: Metric, id: nat, level: nat, chosen: seq<nat>)
    requires Sound(g, m, m0) && id in g && level <= g[id].level && ListOk(g, id, level, chosen, Cap(m, m0, level))
    ensures level < |g[id].neighbors|
    ensures var g' := SetList(g, id, level, chosen);
            Sound(g', m, m0) && LevelLinked(g, g', dist, id, level, chosen, 0, Cap(m, m0, level))
  {
    SetListAt(g, id, level, chosen);
    SetListSound(g, m, m0, id, level, chosen);
  }

  /** The next chosen node has its old list, which does not hold the new node. */
  lemma {:induction false} LinkOk(g: Graph, g1: Graph, m: nat, m0: nat, dist: Metric, id: nat, level: nat,
                                  chosen: seq<nat>, i: nat)
    requires Sound(g, m, m0) && Sound(g1, m, m0) && id in g && level <= g[id].level && i < |chosen|
    requires ListOk(g, id, level, chosen, Cap(m, m0, level)) && Unlinked(g, id, level)
    requires LevelLinked(g, g1, dist, id, level, chosen, i, Cap(m, m0, level))
    ensures var x := chosen[i];
            && x in g && x in g1 && x != id && level < |g1[x].neighbors|
            && Neighbours(g1, x, level) == Neighbours(g, x, level)
    ensures var list := Neighbours(g1, chosen[i], level) + [id];
              Distinct(list) && forall k :: 0 <= k < |list| ==> list[k] in g1
  {
    hide Relinked;
    var x := chosen[i];
    assert x !in chosen[..i];
    assert ListAfter(g, dist, id, chosen, i, Cap(m, m0, level), x, Neighbours(g, x, level), Neighbours(g1, x, level));
    assert ListOk(g1, x, level, Neighbours(g1, x, level), Cap(m, m0, level));
  }

  lemma {:induction false} LinkedBack(g: Graph, g1: Graph, m: nat, m0: nat, dist: Metric, id: nat, level: nat,
                                      chosen: seq<nat>, i: nat, list: seq<nat>)
    requires Sound(g, m, m0) && Sound(g1, m, m0) && id in g && level <= g[id].level && i < |chosen|
    requires ListOk(g, id, level, chosen, Cap(m, m0, level)) && Unlinked(g, id, level)
    requires LevelLinked(g, g1, dist, id, level, chosen, i, Cap(m, m0, level))
    requires chosen[i] in g1 && Relinked(g1, dist, chosen[i], id, Neighbours(g1, chosen[i], level), list,
                 Cap(m, m0, level))
    ensures level < |g1[chosen[i]].neighbors|
    ensures var g2 := SetList(g1, chosen[i], level, list);
            Sound(g2, m, m0) && LevelLinked(g, g2, dist, id, level, chosen, i + 1, Cap(m, m0, level))
  {
    var x, cap := chosen[i], Cap(m, m0, level);
    LinkOk(g, g1, m, m0, dist, id, level, chosen, i);
    RelinkedOk(g1, m, m0, dist, x, id, level, list);
    RelinkedElsewhere(g, g1, dist, x, id, Neighbours(g, x, level), list, cap);
    hide Relinked, Sound, ListsOk;
    SetListSound(g1, m, m0, x, level, list);
    LinkOne(g, g1, SetList(g1, x, level, list), dist, id, level, chosen, i, cap, x, list);
  }

  lemma {:induction false} RelinkedOk(g: Graph, m: nat, m0: nat, dist: Metric, x: nat, id: nat, level: nat,
                                      list: seq<nat>)
    requires Sound(g, m, m0) && x in g && id in g && x != id && level <= g[id].level && level <= g[x].level
    requires Distinct(Neighbours(g, x, level) + [id]) && Relinked(g, dist, x, id, Neighbours(g, x, level), list,
                 Cap(m, m0, level))
    ensures ListOk(g, x, level, list, Cap(m, m0, level))
  {
    assert ListOk(g, x, level, Neighbours(g, x, level), Cap(m, m0, level));
  }

  lemma {:induction false} RelinkedElsewhere(g: Graph, g1: Graph, dist: Metric, x: nat, id: nat, before: seq<nat>,
                                             after: seq<nat>, cap: nat)
    requires SameNodes(g, g1) && x in g && Relinked(g1, dist, x, id, before, after, cap)
    ensures Relinked(g, dist, x, id, before, after, cap)
  {
    forall i, y | 0 <= i < |after| && y in before + [id] && y !in after && y in g && after[i] in g && |before| + 1 > cap
      ensures D(g, dist, g[x].vec, after[i]) <= D(g, dist, g[x].vec, y)
    {
      assert D(g1, dist, g1[x].vec, after[i]) <= D(g1, dist, g1[x].vec, y);
    }
  }

  lemma {:induction false} UnlinkedHere(g: Graph, g1: Graph, id: nat, level: nat)
    requires SameNodes(g, g1) && SameLevel(g, g1, level) && Unlinked(g, id, level)
    ensures Unlinked(g1, id, level)
  {
  }

  lemma {:induction false} ChosenOk(g: Graph, dist: Metric, q: Vec, id: nat, level: nat, ef: nat, ep: nat,
                                    r: seq<Match>, cap: nat, chosen: seq<nat>)
    requires BeamResult(g, dist, q, level, ef, ep, r) && IdsOf(r) <= Members(g, id, level) && TakesFirst(r, cap, chosen)
             && cap >= 1
    ensures ListOk(g, id, level, chosen, cap) && |chosen| >= 1 && |r| >= 1 && r[0].id in Members(g, id, level)
  {
    forall i | 0 <= i < |r| ensures r[i].id in Members(g, id, level) {
      assert r[i].id in IdsOf(r);
    }
  }

  lemma {:induction false} ReachableWithin(g: Graph, level: nat, ep: nat, s: set<nat>)
    requires ep in s && Closed(g, level, s)
    ensures Reachable(g, level, ep) <= s
  {
  }

  lemma {:induction false} ReachesAll(g: Graph, dist: Metric, q: Vec, level: nat, ef: nat, ep: nat, v: set<nat>,
                                      w: set<nat>, s: set<nat>)
    requires Finished(g, dist, q, level, ef, v, w) && ep in v && v <= s && |s| <= ef
    ensures Closed(g, level, w) && ep in w && (IsReachable(g, level, ep, s) ==> w == s)
  {
    WideBeam(g, dist, q, level, ef, ep, v, w, s);
  }

  lemma {:induction false} StartHeaps(g: Graph, dist: Metric, q: Vec, ep: nat)
    requires ep in g
    ensures var h := [Match(ep, dist(q, g[ep].vec))];
            && Ordered(h, Near) && Ordered(h, Far) && HoldsSet(g, dist, q, h, {ep})
  {
    var h := [Match(ep, dist(q, g[ep].vec))];
    assert Matches(g, dist, q, {ep}) == {MatchOf(g, dist, q, ep)};
    assert multiset(h) == multiset{MatchOf(g, dist, q, ep)};
  }

  /** A candidate about to be expanded counts as expanded. */
  lemma {:induction false} Popped(g: Graph, dist: Metric, q: Vec, level: nat, ef: nat, v: set<nat>, w: set<nat>,
                                  c: set<nat>, e: set<nat>, x: nat)
    requires Inv(g, dist, q, level, ef, v, w, c, e) && x in c && Expanded(g, level, v, e)
    ensures Inv(g, dist, q, level, ef, v, w, c - {x}, e + {x}) && Expanded(g, level, v, e + {x} - {x})
  {
    assert e + {x} - {x} == e;
  }

  lemma {:induction false} SmallerSet(a: set<nat>, b: set<nat>)
    requires a < b
    ensures |a| < |b|
  {
    var x :| x in b && x !in a;
    SubsetSize(a + {x}, b);
    assert |a + {x}| == |a| + 1;
  }
}
