/**
 The greedy walks of HNSW: on one level from node to nearest neighbour while distances fall, and from level to
 level down.
 */
module GreedyWalk {
  import opened BeamSearch

  /** One pass over the neighbours of x moves to the first of the nearest, if it is nearer than x. */
  ghost predicate Moves(g: Graph, dist: Metric, q: Vec, level: nat, x: nat, y: nat) {
    && x in g && y in g && D(g, dist, q, y) < D(g, dist, q, x)
    && exists j :: 0 <= j < |Neighbours(g, x, level)| && FirstNearest(g, dist, q, Neighbours(g, x, level), j, y)
  }

  ghost predicate FirstNearest(g: Graph, dist: Metric, q: Vec, ns: seq<nat>, j: nat, y: nat)
    requires y in g
  {
    && j < |ns| && ns[j] == y
    && (forall k :: 0 <= k < |ns| ==> ns[k] in g && D(g, dist, q, y) <= D(g, dist, q, ns[k]))
    && forall k :: 0 <= k < j ==> D(g, dist, q, y) < D(g, dist, q, ns[k])
  }

  /** No neighbour is nearer. */
  ghost predicate LocalMin(g: Graph, dist: Metric, q: Vec, level: nat, x: nat) {
    && x in g
    && forall i :: 0 <= i < |Neighbours(g, x, level)| ==>
         Neighbours(g, x, level)[i] in g && D(g, dist, q, x) <= D(g, dist, q, Neighbours(g, x, level)[i])
  }

  ghost predicate Path(g: Graph, dist: Metric, q: Vec, level: nat, path: seq<nat>) {
    && |path| > 0 && path[0] in g
    && forall i :: 0 <= i < |path| - 1 ==> Moves(g, dist, q, level, path[i], path[i + 1])
  }

  /** The walk from a on a level ends at b. */
  ghost predicate WalkEnds(g: Graph, dist: Metric, q: Vec, level: nat, a: nat, b: nat) {
    && LocalMin(g, dist, q, level, b)
    && exists path :: Path(g, dist, q, level, path) && path[0] == a && path[|path| - 1] == b
  }

  /** Walking on the levels from `top` down to the one above `low`, each walk from where the last one ended. */
  ghost predicate Descends(g: Graph, dist: Metric, q: Vec, from: nat, top: int, low: nat, to: nat)
    decreases top
  {
    if top <= low then to == from
    else exists mid :: WalkEnds(g, dist, q, top, from, mid) && Descends(g, dist, q, mid, top - 1, low, to)
  }

  /** There is only one way to go. */
  lemma {:induction false} MovesUnique(g: Graph, dist: Metric, q: Vec, level: nat, x: nat, y: nat, z: nat)
    requires Moves(g, dist, q, level, x, y) && Moves(g, dist, q, level, x, z)
    ensures y == z
  {
    var ns := Neighbours(g, x, level);
    var j :| 0 <= j < |ns| && FirstNearest(g, dist, q, ns, j, y);
    var k :| 0 <= k < |ns| && FirstNearest(g, dist, q, ns, k, z);
    assert D(g, dist, q, y) <= D(g, dist, q, ns[k]) && D(g, dist, q, z) <= D(g, dist, q, ns[j]);
  }

  lemma {:induction false} NoMoveFromMin(g: Graph, dist: Metric, q: Vec, level: nat, x: nat, y: nat)
    requires LocalMin(g, dist, q, level, x)
    ensures !Moves(g, dist, q, level, x, y)
  {
  }

  /** Two walks from one node end at one node. */
  lemma {:induction false} WalkUnique(g: Graph, dist: Metric, q: Vec, level: nat, a: nat, b: nat, c: nat)
    requires WalkEnds(g, dist, q, level, a, b) && WalkEnds(g, dist, q, level, a, c)
    ensures b == c
  {
    hide Moves, LocalMin;
    var p :| Path(g, dist, q, level, p) && p[0] == a && p[|p| - 1] == b;
    var r :| Path(g, dist, q, level, r) && r[0] == a && r[|r| - 1] == c;
    PathsAgree(g, dist, q, level, p, r);
  }

  lemma {:induction false} PathsAgree(g: Graph, dist: Metric, q: Vec, level: nat, p: seq<nat>, r: seq<nat>)
    requires Path(g, dist, q, level, p) && Path(g, dist, q, level, r) && p[0] == r[0]
    requires LocalMin(g, dist, q, level, p[|p| - 1]) && LocalMin(g, dist, q, level, r[|r| - 1])
    ensures p == r
  {
    hide Moves, LocalMin;
    if |p| == 1 || |r| == 1 {
      if |r| > 1 { NoMoveFromMin(g, dist, q, level, p[0], r[1]); }
      if |p| > 1 { NoMoveFromMin(g, dist, q, level, r[0], p[1]); }
    } else {
      assert Moves(g, dist, q, level, p[0], p[1]) && Moves(g, dist, q, level, r[0], r[1]);
      MovesUnique(g, dist, q, level, p[0], p[1], r[1]);
      PathFrom(g, dist, q, level, p);
      PathFrom(g, dist, q, level, r);
      PathsAgree(g, dist, q, level, p[1..], r[1..]);
      assert p == [p[0]] + p[1..] && r == [r[0]] + r[1..];
    }
  }

  lemma {:induction false} PathFrom(g: Graph, dist: Metric, q: Vec, level: nat, p: seq<nat>)
    requires Path(g, dist, q, level, p) && |p| > 1
    ensures Path(g, dist, q, level, p[1..])
  {
    assert Moves(g, dist, q, level, p[0], p[1]);
    forall i | 0 <= i < |p[1..]| - 1 ensures Moves(g, dist, q, level, p[1..][i], p[1..][i + 1]) {
      assert Moves(g, dist, q, level, p[i + 1], p[i + 1 + 1]);
    }
  }

  /** The node at which the search of the lower levels starts is determined. */
  lemma {:induction false} DescendsUnique(g: Graph, dist: Metric, q: Vec, from: nat, top: int, low: nat, a: nat, b: nat)
    requires Descends(g, dist, q, from, top, low, a) && Descends(g, dist, q, from, top, low, b)
    ensures a == b
    decreases top
  {
    hide WalkEnds;
    if top > low {
      var x :| WalkEnds(g, dist, q, top, from, x) && Descends(g, dist, q, x, top - 1, low, a);
      var y :| WalkEnds(g, dist, q, top, from, y) && Descends(g, dist, q, y, top - 1, low, b);
      WalkUnique(g, dist, q, top, from, x, y);
      DescendsUnique(g, dist, q, x, top - 1, low, a, b);
    }
  }

  /** A walk leads no farther away, and if it moves at all, at least as near as the nearest neighbour of its start. */
  lemma {:induction false} WalkNearer(g: Graph, dist: Metric, q: Vec, level: nat, a: nat, b: nat)
    requires WalkEnds(g, dist, q, level, a, b)
    ensures a in g && b in g && D(g, dist, q, b) <= D(g, dist, q, a)
    ensures forall i :: 0 <= i < |Neighbours(g, a, level)| ==>
              Neighbours(g, a, level)[i] in g && D(g, dist, q, b) <= D(g, dist, q, Neighbours(g, a, level)[i])
  {
    var p :| Path(g, dist, q, level, p) && p[0] == a && p[|p| - 1] == b;
    if |p| > 1 {
      assert Moves(g, dist, q, level, p[0], p[1]);
      PathFrom(g, dist, q, level, p);
      PathNearer(g, dist, q, level, p[1..]);
    }
  }

  lemma {:induction false} PathNearer(g: Graph, dist: Metric, q: Vec, level: nat, p: seq<nat>)
    requires Path(g, dist, q, level, p)
    ensures p[|p| - 1] in g && D(g, dist, q, p[|p| - 1]) <= D(g, dist, q, p[0])
  {
    if |p| > 1 {
      assert Moves(g, dist, q, level, p[0], p[1]);
      PathFrom(g, dist, q, level, p);
      PathNearer(g, dist, q, level, p[1..]);
    }
  }

  lemma {:induction false} DescentNearer(g: Graph, dist: Metric, q: Vec, from: nat, top: int, low: nat, to: nat)
    requires Descends(g, dist, q, from, top, low, to) && from in g
    ensures to in g && D(g, dist, q, to) <= D(g, dist, q, from)
    ensures top > low ==> forall i :: 0 <= i < |Neighbours(g, from, top)| ==>
              Neighbours(g, from, top)[i] in g && D(g, dist, q, to) <= D(g, dist, q, Neighbours(g, from, top)[i])
    decreases top
  {
    hide WalkEnds, Neighbours;
    if top > low {
      var mid :| WalkEnds(g, dist, q, top, from, mid) && Descends(g, dist, q, mid, top - 1, low, to);
      WalkNearer(g, dist, q, top, from, mid);
      DescentNearer(g, dist, q, mid, top - 1, low, to);
    }
  }

  /** One more level at the lower end. */
  lemma {:induction false} DescendOne(g: Graph, dist: Metric, q: Vec, from: nat, top: int, l: nat, cur: nat, next: nat)
    requires l < top + 1 && l >= 1 && Descends(g, dist, q, from, top, l, cur) && WalkEnds(g, dist, q, l, cur, next)
    ensures Descends(g, dist, q, from, top, l - 1, next)
    decreases top
  {
    hide WalkEnds;
    if top > l {
      var mid :| WalkEnds(g, dist, q, top, from, mid) && Descends(g, dist, q, mid, top - 1, l, cur);
      DescendOne(g, dist, q, mid, top - 1, l, cur, next);
    } else {
      assert Descends(g, dist, q, next, top - 1, l - 1, next);
    }
  }

  lemma {:induction false} Moved(g: Graph, dist: Metric, q: Vec, level: nat, path: seq<nat>, y: nat)
    requires Path(g, dist, q, level, path) && Moves(g, dist, q, level, path[|path| - 1], y)
    ensures Path(g, dist, q, level, path + [y])
  {
    hide Moves;
    var p := path + [y];
    forall i | 0 <= i < |p| - 1 ensures Moves(g, dist, q, level, p[i], p[i + 1]) {
      if i < |path| - 1 { assert p[i] == path[i] && p[i + 1] == path[i + 1]; }
    }
  }
}
