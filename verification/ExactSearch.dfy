/**
 ExactTopK: exact nearest-neighbour search with a bounded heap, and its agreement with the HNSW search.
 */
module ExactSearch {
  import opened Heaps
  import opened BeamSearch
  import opened Hnsw

  /** The candidates that have a vector of the query's dimension, with their distances. */
  function Eligible(q: Vec, candidates: seq<nat>, vectors: map<nat, Vec>, dist: Metric): seq<Match> {
    if candidates == [] then []
    else
      var n := |candidates| - 1;
      var id := candidates[n];
      var rest := Eligible(q, candidates[..n], vectors, dist);
      if id in vectors && |vectors[id]| == |q| then rest + [Match(id, dist(q, vectors[id]))] else rest
  }

  /** How often a match is among the candidates: as often as its id is, if that has a vector of the query's dimension at
      that distance. */
  lemma {:induction false} EligibleIff(q: Vec, candidates: seq<nat>, vectors: map<nat, Vec>, dist: Metric, m: Match)
    ensures multiset(Eligible(q, candidates, vectors, dist))[m] ==
            if m.id in vectors && |vectors[m.id]| == |q| && m.distance == dist(q, vectors[m.id])
            then multiset(candidates)[m.id] else 0
  {
    if candidates != [] {
      var n := |candidates| - 1;
      EligibleIff(q, candidates[..n], vectors, dist, m);
      assert candidates == candidates[..n] + [candidates[n]];
      assert multiset(candidates) == multiset(candidates[..n]) + multiset{candidates[n]};
    }
  }

  ghost predicate ByDistance(r: seq<Match>) {
    forall i, j :: 0 <= i < j < |r| ==> r[i].distance <= r[j].distance
  }

  /** r is the k nearest of the matches in all, nearest first. */
  ghost predicate Nearest(all: multiset<Match>, k: nat, r: seq<Match>) {
    && |r| == (if |all| < k then |all| else k) && ByDistance(r) && multiset(r) <= all
    && forall m, i :: m in all - multiset(r) && 0 <= i < |r| ==> r[i].distance <= m.distance
  }

  /** The heap holds the nearest of what has been seen. */
  ghost predicate HoldsNearest(all: multiset<Match>, k: nat, h: seq<Match>) {
    && |h| == (if |all| < k then |all| else k) && multiset(h) <= all
    && forall m, i :: m in all - multiset(h) && 0 <= i < |h| ==> h[i].distance <= m.distance
  }

  lemma {:induction false} Kept(all: multiset<Match>, k: nat, h: seq<Match>, h': seq<Match>, m: Match)
    requires HoldsNearest(all, k, h) && |h| < k && multiset(h') == multiset(h) + multiset{m} && |h'| == |h| + 1
    ensures HoldsNearest(all + multiset{m}, k, h')
  {
    assert |all| < k && multiset(h) == all by { SameBySize(multiset(h), all); }
    assert all + multiset{m} - multiset(h') == multiset{};
  }

  lemma {:induction false} SameBySize<T>(a: multiset<T>, b: multiset<T>)
    requires a <= b && |a| == |b|
    ensures a == b
  {
    assert b == a + (b - a);
    assert |b - a| == 0;
  }

  /** A match no nearer than the farthest kept is passed over. */
  lemma {:induction false} Passed(all: multiset<Match>, k: nat, h: seq<Match>, m: Match)
    requires HoldsNearest(all, k, h) && |h| == k && forall i :: 0 <= i < |h| ==> h[i].distance <= m.distance
    ensures HoldsNearest(all + multiset{m}, k, h)
  {
    forall x, i | x in all + multiset{m} - multiset(h) && 0 <= i < |h| ensures h[i].distance <= x.distance {
      if x != m { assert x in all - multiset(h); }
    }
  }

  /** A nearer match takes the place of the farthest. */
  lemma {:induction false} Replaced(all: multiset<Match>, k: nat, h: seq<Match>, out: Match, rest: seq<Match>,
                                    h': seq<Match>, m: Match)
    requires HoldsNearest(all, k, h) && |h| == k && multiset(h) == multiset(rest) + multiset{out} && |rest| == k - 1
    requires multiset(h') == multiset(rest) + multiset{m} && |h'| == k
    requires m.distance < out.distance && forall x :: x in h ==> x.distance <= out.distance
    ensures HoldsNearest(all + multiset{m}, k, h')
  {
    forall x, i | x in all + multiset{m} - multiset(h') && 0 <= i < |h'| ensures h'[i].distance <= x.distance {
      var y := h'[i];
      assert y in multiset(h');
      assert y == m || (y in multiset(rest) && y in multiset(h) && y in h);
      assert out in multiset(h) && out in h;
      var j :| 0 <= j < |h| && h[j] == out;
      if x != out { assert x in all - multiset(h); }
    }
  }

  method ExactTopK(q: Vec, candidates: seq<nat>, vectors: map<nat, Vec>, k: nat, dist: Metric) returns (r: seq<Match>)
    requires k >= 1
    ensures Nearest(multiset(Eligible(q, candidates, vectors, dist)), k, r)
  {
    hide Ordered, HoldsNearest, Far;
    var h: seq<Match> := [];
    ghost var seen: seq<Match> := [];
    NothingSeen(k);
    var i := 0;
    while i < |candidates|
      invariant 0 <= i <= |candidates| && seen == Eligible(q, candidates[..i], vectors, dist)
      invariant Ordered(h, Far) && HoldsNearest(multiset(seen), k, h) && |h| <= k
    {
      var id := candidates[i];
      assert candidates[..i + 1][..i] == candidates[..i];
      if id in vectors && |vectors[id]| == |q| {
        h := Offer(h, k, Match(id, dist(q, vectors[id])), multiset(seen));
        seen := seen + [Match(id, dist(q, vectors[id]))];
      }
      i := i + 1;
    }
    assert candidates[..i] == candidates;
    r := EmptyHeap(h);
    Emptied(multiset(seen), k, h, r);
  }

  lemma {:induction false} NothingSeen(k: nat)
    ensures Ordered([], Far) && HoldsNearest(multiset([]), k, [])
  {
  }

  /** One candidate. */
  method Offer(h: seq<Match>, k: nat, m: Match, ghost all: multiset<Match>) returns (h': seq<Match>)
    requires k >= 1 && Ordered(h, Far) && HoldsNearest(all, k, h)
    ensures Ordered(h', Far) && HoldsNearest(all + multiset{m}, k, h') && |h'| <= k
  {
    hide Ordered;
    if |h| < k {
      h' := Push(h, m, Far);
      Kept(all, k, h, h', m);
    } else {
      TopBounds(h, Far);
      if m.distance < h[0].distance {
        var out, rest := Pop(h, Far);
        h' := Push(rest, m, Far);
        Replaced(all, k, h, out, rest, h', m);
      } else {
        assert forall i :: 0 <= i < |h| ==> h[i] in h;
        Passed(all, k, h, m);
        h' := h;
      }
    }
  }

  /** The heap emptied from its top, farthest last. */
  method EmptyHeap(heap: seq<Match>) returns (r: seq<Match>)
    requires Ordered(heap, Far)
    ensures ByDistance(r) && multiset(r) == multiset(heap) && |r| == |heap|
  {
    hide Ordered;
    r := [];
    var h := heap;
    while |h| > 0
      invariant Ordered(h, Far) && ByDistance(r) && multiset(h) + multiset(r) == multiset(heap) && |h| + |r| == |heap|
      invariant forall x, i :: x in h && 0 <= i < |r| ==> x.distance <= r[i].distance
      decreases |h|
    {
      TopBounds(h, Far);
      assert h[0] in h;
      var x, rest := Pop(h, Far);
      forall y | y in rest ensures y in h { assert y in multiset(rest) && y in multiset(h); }
      assert multiset([x] + r) == multiset{x} + multiset(r);
      r := [x] + r;
      h := rest;
    }
    assert multiset(h) == multiset{};
  }

  lemma {:induction false} Emptied(all: multiset<Match>, k: nat, h: seq<Match>, r: seq<Match>)
    requires HoldsNearest(all, k, h) && ByDistance(r) && multiset(r) == multiset(h) && |r| == |h|
    ensures Nearest(all, k, r)
  {
    forall m, i | m in all - multiset(r) && 0 <= i < |r| ensures r[i].distance <= m.distance {
      assert r[i] in multiset(r) && r[i] in multiset(h);
      var j :| 0 <= j < |h| && h[j] == r[i];
    }
  }

  // ---------- Agreement ----------

  /** Two answers to one question have the same distances, place by place. */
  lemma {:induction false} SameDistances(all: multiset<Match>, k: nat, r: seq<Match>, s: seq<Match>, i: nat)
    requires Nearest(all, k, r) && Nearest(all, k, s) && i < |r|
    ensures |s| == |r| && r[i].distance == s[i].distance
  {
    if r[i].distance < s[i].distance {
      NotNearer(all, k, r, s, i);
    } else if s[i].distance < r[i].distance {
      NotNearer(all, k, s, r, i);
    }
  }

  lemma {:induction false} NotNearer(all: multiset<Match>, k: nat, r: seq<Match>, s: seq<Match>, i: nat)
    requires Nearest(all, k, r) && Nearest(all, k, s) && i < |r|
    ensures |s| == |r| && r[i].distance >= s[i].distance
  {
    hide Nearest;
    if multiset(r[..i + 1]) <= multiset(s) {
      Inside(all, k, r, s, i);
    } else {
      Outside(all, k, r, s, i);
    }
  }

  /** A match of r[..i + 1] that s leaves out is no nearer than any of s. */
  lemma {:induction false} Outside(all: multiset<Match>, k: nat, r: seq<Match>, s: seq<Match>, i: nat)
    requires Nearest(all, k, r) && Nearest(all, k, s) && i < |r| && !(multiset(r[..i + 1]) <= multiset(s))
    ensures |s| == |r| && r[i].distance >= s[i].distance
  {
    var m :| multiset(r[..i + 1])[m] > multiset(s)[m];
    var p := LeftOut(all, r, s, i, m);
    assert s[i].distance <= m.distance && r[p].distance <= r[i].distance;
  }

  lemma {:induction false} LeftOut(all: multiset<Match>, r: seq<Match>, s: seq<Match>, i: nat, m: Match)
    returns (p: nat)
    requires i < |r| && multiset(r) <= all && multiset(r[..i + 1])[m] > multiset(s)[m]
    ensures m in all - multiset(s) && p <= i && r[p] == m
  {
    PrefixCount(r, i + 1, m);
    assert multiset(r)[m] <= all[m];
    assert m in r[..i + 1] by { assert m in multiset(r[..i + 1]); }
    p :| 0 <= p <= i && r[p] == m;
  }

  lemma {:induction false} PrefixCount<T>(r: seq<T>, n: nat, m: T)
    requires n <= |r|
    ensures multiset(r[..n])[m] <= multiset(r)[m]
  {
    assert r == r[..n] + r[n..];
  }

  /** Not all of r[..i + 1] can be among the first i of s. */
  lemma {:induction false} Inside(all: multiset<Match>, k: nat, r: seq<Match>, s: seq<Match>, i: nat)
    requires Nearest(all, k, r) && Nearest(all, k, s) && i < |r| && multiset(r[..i + 1]) <= multiset(s)
    ensures |s| == |r| && r[i].distance >= s[i].distance
  {
    var first, front := multiset(r[..i + 1]), multiset(s[..i]);
    assert |first| == i + 1 && |front| == i;
    if first <= front { SubsetSizes(first, front); }
    if r[i].distance < s[i].distance { NearOnes(r, s, i); }
  }

  lemma {:induction false} SubsetSizes<T>(a: multiset<T>, b: multiset<T>)
    requires a <= b
    ensures |a| <= |b|
  {
    assert b == a + (b - a);
  }

  /** What is nearer than s[i] lies in front of it. */
  lemma {:induction false} NearOnes(r: seq<Match>, s: seq<Match>, i: nat)
    requires ByDistance(r) && ByDistance(s) && i < |r| && i < |s| && r[i].distance < s[i].distance
             && multiset(r[..i + 1]) <= multiset(s)
    ensures multiset(r[..i + 1]) <= multiset(s[..i])
  {
    assert s == s[..i] + s[i..];
    forall m ensures multiset(r[..i + 1])[m] <= multiset(s[..i])[m] {
      if m in multiset(r[..i + 1]) {
        assert m in r[..i + 1];
        assert m !in s[i..];
        assert multiset(s)[m] == multiset(s[..i])[m] + multiset(s[i..])[m];
      }
    }
  }

  /** The k nearest nodes of a graph, as TopK has them, are the nearest of all its matches. */
  lemma {:induction false} TopKIsNearest(g: Graph, dist: Metric, q: Vec, k: nat, r: seq<Match>)
    requires TopK(g, dist, q, k, r)
    ensures Nearest(multiset(Matches(g, dist, q, g.Keys)), k, r)
  {
    var ms := Matches(g, dist, q, g.Keys);
    SameSize(g, dist, q, g.Keys);
    forall m ensures multiset(r)[m] <= multiset(ms)[m] {
      if m in r {
        assert m in ms;
        OnlyOnce(r, m);
      }
    }
    forall m, i | m in multiset(ms) - multiset(r) && 0 <= i < |r| ensures r[i].distance <= m.distance {
      assert m in ms && m !in r;
      forall j | 0 <= j < |r| ensures r[j].id != m.id { assert r[j] in r; }
      assert m.id !in IdsOf(r);
    }
  }

  lemma {:induction false} OnlyOnce(r: seq<Match>, m: Match)
    requires Ascending(r) && m in r
    ensures multiset(r)[m] == 1
  {
    var i :| 0 <= i < |r| && r[i] == m;
    assert r == r[..i] + [m] + r[i + 1..];
    assert m !in r[..i] && m !in r[i + 1..];
  }

  /** The candidates list every node of the graph once, with its vector. */
  ghost predicate ListsAll(g: Graph, q: Vec, ids: seq<nat>, vectors: map<nat, Vec>) {
    && (forall i, j :: 0 <= i < j < |ids| ==> ids[i] != ids[j]) && (forall x :: x in ids <==> x in g)
    && forall x :: x in g ==> x in vectors && vectors[x] == g[x].vec && |g[x].vec| == |q|
  }

  ghost function SetOf(ids: seq<nat>): set<nat> {
    set i | 0 <= i < |ids| :: ids[i]
  }

  lemma {:induction false} EligibleHolds(g: Graph, dist: Metric, q: Vec, ids: seq<nat>, vectors: map<nat, Vec>)
    requires (forall i, j :: 0 <= i < j < |ids| ==> ids[i] != ids[j]) && forall i :: 0 <= i < |ids| ==> ids[i] in g
    requires forall x :: x in g ==> x in vectors && vectors[x] == g[x].vec && |g[x].vec| == |q|
    ensures HoldsSet(g, dist, q, Eligible(q, ids, vectors, dist), SetOf(ids))
  {
    if ids == [] {
      assert SetOf(ids) == {} && Matches(g, dist, q, {}) == {};
    } else {
      var n := |ids| - 1;
      var rest := ids[..n];
      EligibleHolds(g, dist, q, rest, vectors);
      assert SetOf(ids) == SetOf(rest) + {ids[n]} && ids[n] !in SetOf(rest);
      AddToHeap(g, dist, q, Eligible(q, rest, vectors, dist), Eligible(q, ids, vectors, dist), SetOf(rest), ids[n]);
    }
  }

  /** The eligible candidates are then the matches of all nodes. */
  lemma {:induction false} EligibleIsMatches(g: Graph, dist: Metric, q: Vec, ids: seq<nat>, vectors: map<nat, Vec>)
    requires ListsAll(g, q, ids, vectors)
    ensures multiset(Eligible(q, ids, vectors, dist)) == multiset(Matches(g, dist, q, g.Keys))
  {
    forall i | 0 <= i < |ids| ensures ids[i] in g { assert ids[i] in ids; }
    EligibleHolds(g, dist, q, ids, vectors);
    assert SetOf(ids) == g.Keys;
  }

  lemma {:induction false} SameAnswers(g: Graph, dist: Metric, q: Vec, k: nat, r: seq<Match>, exact: seq<Match>, i: nat)
    requires TopK(g, dist, q, k, r) && Nearest(multiset(Matches(g, dist, q, g.Keys)), k, exact) && i < |r|
    ensures |exact| == |r| && r[i].distance == exact[i].distance
  {
    TopKIsNearest(g, dist, q, k, r);
    SameDistances(multiset(Matches(g, dist, q, g.Keys)), k, r, exact, i);
  }

  /** The index search and the exhaustive search over all nodes return the same distances, place by place,
      where level 0 is connected and the beam as wide as the graph. */
  method SearchAgrees(index: Index, q: Vec, k: nat, ids: seq<nat>, vectors: map<nat, Vec>)
    returns (r: seq<Match>, exact: seq<Match>)
    requires index.Valid() && k >= 1 && ListsAll(index.nodes, q, ids, vectors)
    requires Connected(index.nodes) && |index.nodes| <= (if index.efSearch < k then k else index.efSearch)
    modifies index`visitedGen, index`generation
    ensures index.Valid() && |r| == |exact| && forall i :: 0 <= i < |r| ==> r[i].distance == exact[i].distance
  {
    hide TopK, Nearest, Connected, Index.Valid, Eligible;
    r := index.Search(q, k);
    exact := ExactTopK(q, ids, vectors, k, index.dist);
    EligibleIsMatches(index.nodes, index.dist, q, ids, vectors);
    SameLengths(index.nodes, index.dist, q, k, r, exact);
    forall i | 0 <= i < |r| ensures r[i].distance == exact[i].distance {
      SameAnswers(index.nodes, index.dist, q, k, r, exact, i);
    }
  }

  lemma {:induction false} SameLengths(g: Graph, dist: Metric, q: Vec, k: nat, r: seq<Match>, exact: seq<Match>)
    requires TopK(g, dist, q, k, r) && Nearest(multiset(Matches(g, dist, q, g.Keys)), k, exact)
    ensures |exact| == |r|
  {
    SameSize(g, dist, q, g.Keys);
  }
}
