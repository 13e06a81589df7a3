/**
 searchLayer: beam search over one level of the HNSW graph.

 The two heaps are tracked by the sets of node ids they hold.  The result is described without the
 algorithm: it is sorted, and a node missing from it, though next to a node in it, is no nearer than
 the worst of `ef` results.
 */
module BeamSearch {
  import opened Heaps

  datatype Match = Match(id: nat, distance: real)

  /** The nearest match first, or the farthest. */
  const Near: Match -> real := (m: Match) => m.distance
  const Far: Match -> real := (m: Match) => -m.distance

  type Vec = seq<real>
  type Metric = (Vec, Vec) -> real

  datatype Node = Node(vec: Vec, level: nat, neighbors: seq<seq<nat>>)
  type Graph = map<nat, Node>

  function Neighbours(g: Graph, id: nat, level: nat): seq<nat>
    requires id in g
  {
    if level < |g[id].neighbors| then g[id].neighbors[level] else []
  }

  ghost predicate LinksInside(g: Graph, level: nat) {
    forall id, i :: id in g && 0 <= i < |Neighbours(g, id, level)| ==> Neighbours(g, id, level)[i] in g
  }

  /** A set of nodes that no link of the level leaves. */
  ghost predicate Closed(g: Graph, level: nat, s: set<nat>) {
    forall id, i :: id in s && id in g && 0 <= i < |Neighbours(g, id, level)| ==> Neighbours(g, id, level)[i] in s
  }

  /** The nodes reachable from ep: the least closed set that holds it. */
  ghost predicate IsReachable(g: Graph, level: nat, ep: nat, r: set<nat>) {
    ep in r && Closed(g, level, r) && forall s: set<nat> :: ep in s && Closed(g, level, s) ==> r <= s
  }

  ghost function Reachable(g: Graph, level: nat, ep: nat): set<nat> {
    set x | x in g && forall s: set<nat> :: ep in s && Closed(g, level, s) ==> x in s
  }

  /** The least closed set around an entry exists. */
  lemma {:induction false} ReachableIs(g: Graph, level: nat, ep: nat)
    requires ep in g && LinksInside(g, level)
    ensures IsReachable(g, level, ep, Reachable(g, level, ep)) && Reachable(g, level, ep) <= g.Keys
  {
    var r := Reachable(g, level, ep);
    forall id, i | id in r && id in g && 0 <= i < |Neighbours(g, id, level)| ensures Neighbours(g, id, level)[i] in r {
      var n := Neighbours(g, id, level)[i];
      forall s: set<nat> | ep in s && Closed(g, level, s) ensures n in s {
        assert id in s;
      }
    }
  }

  // ---------- Heaps as sets of ids ----------

  function MatchOf(g: Graph, dist: Metric, q: Vec, id: nat): Match
    requires id in g
  {
    Match(id, dist(q, g[id].vec))
  }

  ghost function Matches(g: Graph, dist: Metric, q: Vec, s: set<nat>): set<Match>
    requires s <= g.Keys
  {
    set id | id in s :: MatchOf(g, dist, q, id)
  }

  /** The heap holds each node of s once, with its distance to the query. */
  ghost predicate HoldsSet(g: Graph, dist: Metric, q: Vec, h: seq<Match>, s: set<nat>) {
    s <= g.Keys && multiset(h) == multiset(Matches(g, dist, q, s))
  }

  lemma {:induction false} InHeap(g: Graph, dist: Metric, q: Vec, h: seq<Match>, s: set<nat>)
    requires HoldsSet(g, dist, q, h, s)
    ensures forall m :: m in h <==> m.id in s && m == MatchOf(g, dist, q, m.id)
    ensures |h| == |s|
  {
    var ms := Matches(g, dist, q, s);
    forall m ensures m in h <==> m in ms {
      assert m in h <==> m in multiset(h);
      assert m in ms <==> m in multiset(ms);
    }
    SameSize(g, dist, q, s);
    assert |h| == |multiset(h)|;
  }

  lemma {:induction false} SameSize(g: Graph, dist: Metric, q: Vec, s: set<nat>)
    requires s <= g.Keys
    ensures |Matches(g, dist, q, s)| == |s|
    decreases |s|
  {
    if s != {} {
      var x :| x in s;
      SameSize(g, dist, q, s - {x});
      assert Matches(g, dist, q, s) == Matches(g, dist, q, s - {x}) + {MatchOf(g, dist, q, x)};
    } else {
      assert Matches(g, dist, q, s) == {};
    }
  }

  lemma {:induction false} AddToHeap(g: Graph, dist: Metric, q: Vec, h: seq<Match>, h': seq<Match>, s: set<nat>, x: nat)
    requires HoldsSet(g, dist, q, h, s) && x in g && x !in s
    requires multiset(h') == multiset(h) + multiset{MatchOf(g, dist, q, x)}
    ensures HoldsSet(g, dist, q, h', s + {x})
  {
    var ms, m := Matches(g, dist, q, s), MatchOf(g, dist, q, x);
    assert Matches(g, dist, q, s + {x}) == ms + {m} && m !in ms;
    assert multiset(ms + {m}) == multiset(ms) + multiset{m};
  }

  lemma {:induction false} TakeFromHeap(g: Graph, dist: Metric, q: Vec, h: seq<Match>, h': seq<Match>, s: set<nat>,
                                        m: Match)
    requires HoldsSet(g, dist, q, h, s) && multiset(h) == multiset(h') + multiset{m}
    ensures m.id in s && m == MatchOf(g, dist, q, m.id) && HoldsSet(g, dist, q, h', s - {m.id})
  {
    InHeap(g, dist, q, h, s);
    assert m in multiset(h) && m in h;
    var ms := Matches(g, dist, q, s);
    assert Matches(g, dist, q, s - {m.id}) == ms - {m};
    assert multiset(h') == multiset(h) - multiset{m};
    assert multiset(ms - {m}) == multiset(ms) - multiset{m};
  }

  // ---------- The invariant of the search ----------

  ghost function D(g: Graph, dist: Metric, q: Vec, id: nat): real
    requires id in g
  {
    dist(q, g[id].vec)
  }

  /** No node of w is farther than x. */
  ghost predicate AllNearer(g: Graph, dist: Metric, q: Vec, w: set<nat>, x: nat)
    requires w <= g.Keys && x in g
  {
    forall y :: y in w ==> D(g, dist, q, y) <= D(g, dist, q, x)
  }

  /** v: visited nodes; w: the best so far; c: candidates; e: nodes whose neighbours have been visited. */
  ghost predicate Inv(g: Graph, dist: Metric, q: Vec, level: nat, ef: nat, v: set<nat>, w: set<nat>, c: set<nat>,
                      e: set<nat>) {
    && v <= g.Keys && w <= v && c <= v && e <= v && c !! e
    && 1 <= |w| <= ef
    && (forall x :: x in w ==> x in c || x in e)
    && (forall x :: x in v && x !in w ==> |w| == ef && AllNearer(g, dist, q, w, x))
  }

  ghost predicate Expanded(g: Graph, level: nat, v: set<nat>, e: set<nat>)
    requires e <= g.Keys
  {
    forall x, i :: x in e && 0 <= i < |Neighbours(g, x, level)| ==> Neighbours(g, x, level)[i] in v
  }

  /** The farthest of the best so far is on top of its heap. */
  lemma {:induction false} FarthestOnTop(g: Graph, dist: Metric, q: Vec, h: seq<Match>, w: set<nat>)
    requires Ordered(h, Far) && HoldsSet(g, dist, q, h, w) && h != []
    ensures h[0].id in w && h[0].distance == D(g, dist, q, h[0].id)
    ensures forall y :: y in w ==> D(g, dist, q, y) <= h[0].distance
  {
    InHeap(g, dist, q, h, w);
    TopBounds(h, Far);
    assert h[0] in h;
    forall y | y in w ensures D(g, dist, q, y) <= h[0].distance {
      assert MatchOf(g, dist, q, y) in h;
    }
  }

  lemma {:induction false} NearestOnTop(g: Graph, dist: Metric, q: Vec, h: seq<Match>, c: set<nat>)
    requires Ordered(h, Near) && HoldsSet(g, dist, q, h, c) && h != []
    ensures h[0].id in c && h[0].distance == D(g, dist, q, h[0].id)
    ensures forall y :: y in c ==> h[0].distance <= D(g, dist, q, y)
  {
    InHeap(g, dist, q, h, c);
    TopBounds(h, Near);
    assert h[0] in h;
    forall y | y in c ensures h[0].distance <= D(g, dist, q, y) {
      assert MatchOf(g, dist, q, y) in h;
    }
  }

  /** A neighbour that is too far to be kept. */
  lemma {:induction false} VisitPassed(g: Graph, dist: Metric, q: Vec, level: nat, ef: nat, v: set<nat>, w: set<nat>,
                                       c: set<nat>, e: set<nat>, x: nat)
    requires Inv(g, dist, q, level, ef, v, w, c, e) && x in g && |w| == ef && AllNearer(g, dist, q, w, x)
    ensures Inv(g, dist, q, level, ef, v + {x}, w, c, e)
  {
  }

  /** A neighbour that is kept while there is room. */
  lemma {:induction false} VisitKept(g: Graph, dist: Metric, q: Vec, level: nat, ef: nat, v: set<nat>, w: set<nat>,
                                     c: set<nat>, e: set<nat>, x: nat)
    requires Inv(g, dist, q, level, ef, v, w, c, e) && x in g && x !in v && |w| < ef
    ensures Inv(g, dist, q, level, ef, v + {x}, w + {x}, c + {x}, e)
  {
    assert |w + {x}| == |w| + 1;
    assert forall y :: y in v ==> y in w;
  }

  /** A nearer neighbour that pushes out the farthest. */
  lemma {:induction false} VisitSwapped(g: Graph, dist: Metric, q: Vec, level: nat, ef: nat, v: set<nat>, w: set<nat>,
                                        c: set<nat>, e: set<nat>, x: nat, out: nat)
    requires Inv(g, dist, q, level, ef, v, w, c, e) && x in g && x !in v && |w| == ef
    requires out in w + {x} && AllNearer(g, dist, q, w + {x}, out)
    requires exists y :: y in w && D(g, dist, q, x) <= D(g, dist, q, y)
    ensures Inv(g, dist, q, level, ef, v + {x}, w + {x} - {out}, c + {x}, e)
  {
    var w' := w + {x} - {out};
    assert |w + {x}| == |w| + 1 && |w'| == ef;
    var y :| y in w && D(g, dist, q, x) <= D(g, dist, q, y);
    forall z | z in v + {x} && z !in w' ensures AllNearer(g, dist, q, w', z) {
      if z != out {
        assert z in v && z !in w;
        assert AllNearer(g, dist, q, w, z);
      }
    }
  }

  /** What a finished search has found. */
  ghost predicate Finished(g: Graph, dist: Metric, q: Vec, level: nat, ef: nat, v: set<nat>, w: set<nat>) {
    && w <= v <= g.Keys && 1 <= |w| <= ef
    && Expanded(g, level, v, w)
    && (forall x :: x in v && x !in w ==> |w| == ef && AllNearer(g, dist, q, w, x))
  }

  lemma {:induction false} NoCandidates(g: Graph, dist: Metric, q: Vec, level: nat, ef: nat, v: set<nat>, w: set<nat>,
                                        e: set<nat>)
    requires Inv(g, dist, q, level, ef, v, w, {}, e) && Expanded(g, level, v, e)
    ensures Finished(g, dist, q, level, ef, v, w)
  {
  }

  /** The nearest candidate x is farther than all of w: then all of w has been expanded. */
  lemma {:induction false} NoBetter(g: Graph, dist: Metric, q: Vec, level: nat, ef: nat, v: set<nat>, w: set<nat>,
                                    c: set<nat>, e: set<nat>, x: nat)
    requires Inv(g, dist, q, level, ef, v, w, c, e) && Expanded(g, level, v, e) && x in c
    requires forall y :: y in c ==> D(g, dist, q, x) <= D(g, dist, q, y)
    requires forall y :: y in w ==> D(g, dist, q, y) < D(g, dist, q, x)
    ensures Finished(g, dist, q, level, ef, v, w)
  {
    assert forall y :: y in w ==> y in e;
  }

  /** With a beam at least as wide as a closed set around the entry, the result is itself closed and holds
      the entry: nothing reachable has been lost. */
  lemma {:induction false} WideBeam(g: Graph, dist: Metric, q: Vec, level: nat, ef: nat, ep: nat, v: set<nat>,
                                    w: set<nat>, s: set<nat>)
    requires Finished(g, dist, q, level, ef, v, w) && ep in v && v <= s && |s| <= ef
    ensures v == w && Closed(g, level, w) && ep in w
  {
    if v != w {
      var x :| x in v && x !in w;
      assert |w + {x}| == |w| + 1 == ef + 1;
      SubsetSize(w + {x}, s);
    }
  }

  lemma {:induction false} SubsetSize(a: set<nat>, b: set<nat>)
    requires a <= b
    ensures |a| <= |b|
  {
    assert |b| == |a| + |b - a| by { assert b == a + (b - a); }
  }

  // ---------- The result ----------

  ghost predicate Ascending(r: seq<Match>) {
    forall i, j :: 0 <= i < j < |r| ==> r[i].distance <= r[j].distance && r[i].id != r[j].id
  }

  ghost function IdsOf(r: seq<Match>): set<nat> {
    set i | 0 <= i < |r| :: r[i].id
  }

  /** x is in the result, or the result is full of nodes no farther than x. */
  ghost predicate Beaten(g: Graph, dist: Metric, q: Vec, ef: nat, r: seq<Match>, x: nat) {
    x in IdsOf(r) || (x in g && |r| == ef && forall i :: 0 <= i < |r| ==> r[i].distance <= D(g, dist, q, x))
  }

  /** What searchLayer promises: at most ef nodes, nearest first, each once with its true distance; the entry
      and every neighbour of a returned node are in the result or beaten by all of it. */
  ghost predicate BeamResult(g: Graph, dist: Metric, q: Vec, level: nat, ef: nat, ep: nat, r: seq<Match>) {
    && 1 <= |r| <= ef && Ascending(r)
    && (forall i :: 0 <= i < |r| ==> r[i].id in g && r[i] == MatchOf(g, dist, q, r[i].id))
    && Beaten(g, dist, q, ef, r, ep)
    && forall x, i :: x in IdsOf(r) && 0 <= i < |Neighbours(g, x, level)|
         ==> Beaten(g, dist, q, ef, r, Neighbours(g, x, level)[i])
  }

  lemma {:induction false} ResultOf(g: Graph, dist: Metric, q: Vec, level: nat, ef: nat, ep: nat, v: set<nat>,
                                    w: set<nat>, r: seq<Match>)
    requires Finished(g, dist, q, level, ef, v, w) && ep in v
    requires Ascending(r) && HoldsSet(g, dist, q, r, w)
    ensures BeamResult(g, dist, q, level, ef, ep, r) && IdsOf(r) == w
  {
    InHeap(g, dist, q, r, w);
    forall i | 0 <= i < |r| ensures r[i].id in w && r[i] == MatchOf(g, dist, q, r[i].id) {
      assert r[i] in r;
    }
    forall x | x in w ensures x in IdsOf(r) {
      assert MatchOf(g, dist, q, x) in r;
    }
    forall x | x in v ensures Beaten(g, dist, q, ef, r, x) {
      if x !in w { assert AllNearer(g, dist, q, w, x); }
    }
  }
}
