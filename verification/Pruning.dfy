/**
 pruneNeighbors: keep the nearest neighbours of a node.
 */
module Pruning {
  import opened Heaps
  import opened BeamSearch

  ghost predicate Distinct(s: seq<nat>) {
    forall i, j :: 0 <= i < j < |s| ==> s[i] != s[j]
  }

  ghost predicate DistinctPairs(s: seq<Match>) {
    forall i, j :: 0 <= i < j < |s| ==> s[i].id != s[j].id
  }

  ghost predicate SortedPairs(s: seq<Match>) {
    forall i, j :: 0 <= i < j < |s| ==> s[i].distance <= s[j].distance
  }

  /** Both lists pair the same ids with the same distances. */
  ghost predicate SamePairs(a: seq<Match>, b: seq<Match>) {
    |a| == |b| && DistinctPairs(a) && DistinctPairs(b) && forall m :: m in a <==> m in b
  }

  lemma {:induction false} SwapKeepsPairs(a: seq<Match>, b: seq<Match>, i: nat, j: nat)
    requires SamePairs(a, b) && i < j < |b|
    ensures SamePairs(a, Swap(b, i, j))
  {
    var c := Swap(b, i, j);
    forall m | m in b ensures m in c {
      var k :| 0 <= k < |b| && b[k] == m;
      assert c[if k == i then j else if k == j then i else k] == m;
    }
    forall m | m in c ensures m in b {
      var k :| 0 <= k < |c| && c[k] == m;
      assert b[if k == i then j else if k == j then i else k] == m;
    }
    forall k, l | 0 <= k < l < |c| ensures c[k].id != c[l].id {
      var k' := if k == i then j else if k == j then i else k;
      var l' := if l == i then j else if l == j then i else l;
      assert c[k] == b[k'] && c[l] == b[l'] && k' != l';
    }
  }

  /** The exchange sort: the i-th place gets the nearest of the rest. */
  method SortPairs(pairs: seq<Match>) returns (p: seq<Match>)
    requires DistinctPairs(pairs)
    ensures SortedPairs(p) && SamePairs(pairs, p)
  {
    hide Swap, SamePairs;
    p := pairs;
    assert SamePairs(pairs, p) by { SameSelf(p); }
    var i := 0;
    while i < |p| - 1
      invariant 0 <= i <= |p| == |pairs| && SamePairs(pairs, p)
      invariant forall a, b :: 0 <= a < b < |p| && a < i ==> p[a].distance <= p[b].distance
    {
      var j := i + 1;
      while j < |p|
        invariant i < j <= |p| == |pairs| && SamePairs(pairs, p)
        invariant forall a, b :: 0 <= a < b < |p| && a < i ==> p[a].distance <= p[b].distance
        invariant forall b :: i < b < j ==> p[i].distance <= p[b].distance
      {
        if p[j].distance < p[i].distance {
          SwapKeepsPairs(pairs, p, i, j);
          SwapAt(p, i, j);
          p := Swap(p, i, j);
        }
        j := j + 1;
      }
      i := i + 1;
    }
  }

  lemma {:induction false} SameSelf(p: seq<Match>)
    requires DistinctPairs(p)
    ensures SamePairs(p, p)
  {
  }

  lemma {:induction false} SwapAt(h: seq<Match>, i: nat, j: nat)
    requires i < j < |h|
    ensures |Swap(h, i, j)| == |h| && Swap(h, i, j)[i] == h[j] && Swap(h, i, j)[j] == h[i]
    ensures forall k :: 0 <= k < |h| && k != i && k != j ==> Swap(h, i, j)[k] == h[k]
  {
  }

  /** Keep at most `cap` of the given nodes, and none farther from the base than one left out. */
  method Prune(g: Graph, dist: Metric, ids: seq<nat>, base: Vec, cap: nat) returns (r: seq<nat>)
    requires Distinct(ids) && forall i :: 0 <= i < |ids| ==> ids[i] in g
    ensures |r| == (if |ids| < cap then |ids| else cap) && Distinct(r)
    ensures forall i :: 0 <= i < |r| ==> r[i] in ids
    ensures forall i, x :: 0 <= i < |r| && x in ids && x !in r ==> D(g, dist, base, r[i]) <= D(g, dist, base, x)
  {
    var pairs: seq<Match> := [];
    var i := 0;
    while i < |ids|
      invariant 0 <= i <= |ids| && |pairs| == i
      invariant forall k :: 0 <= k < i ==> pairs[k] == MatchOf(g, dist, base, ids[k])
    {
      pairs := pairs + [Match(ids[i], dist(base, g[ids[i]].vec))];
      i := i + 1;
    }
    var p := SortPairs(pairs);
    var n := if |p| > cap then cap else |p|;
    r := [];
    i := 0;
    while i < n
      invariant 0 <= i <= n && |r| == i && forall k :: 0 <= k < i ==> r[k] == p[k].id
    {
      r := r + [p[i].id];
      i := i + 1;
    }
    PrunedIs(g, dist, ids, base, pairs, p, r);
  }

  lemma {:induction false} PrunedIs(g: Graph, dist: Metric, ids: seq<nat>, base: Vec, pairs: seq<Match>, p: seq<Match>,
                                    r: seq<nat>)
    requires forall i :: 0 <= i < |ids| ==> ids[i] in g
    requires |pairs| == |ids| && forall k :: 0 <= k < |ids| ==> pairs[k] == MatchOf(g, dist, base, ids[k])
    requires SortedPairs(p) && SamePairs(pairs, p) && |r| <= |p| && forall k :: 0 <= k < |r| ==> r[k] == p[k].id
    ensures Distinct(r) && forall i :: 0 <= i < |r| ==> r[i] in ids
    ensures forall i, x :: 0 <= i < |r| && x in ids && x !in r ==> D(g, dist, base, r[i]) <= D(g, dist, base, x)
  {
    forall i | 0 <= i < |p| ensures p[i].id in ids && p[i] == MatchOf(g, dist, base, p[i].id) {
      assert p[i] in pairs;
      var k :| 0 <= k < |pairs| && pairs[k] == p[i];
      assert ids[k] in ids;
    }
    forall i, x | 0 <= i < |r| && x in ids && x !in r ensures D(g, dist, base, r[i]) <= D(g, dist, base, x) {
      var k :| 0 <= k < |ids| && ids[k] == x;
      assert pairs[k] in pairs && pairs[k] in p;
      var j :| 0 <= j < |p| && p[j] == pairs[k];
      assert p[i].distance <= p[j].distance;
    }
  }
}
