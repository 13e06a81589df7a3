/**
 Binary heaps with the least key on top: minCandidateHeap and maxHeap of the vector index, and what
 container/heap does for the ready heap of a queue.  The heaps differ only in the key they order by.
 */
module Heaps {

  function Parent(j: nat): nat {
    if j == 0 then 0 else (j - 1) / 2
  }

  ghost predicate Ordered<T>(h: seq<T>, key: T -> real) {
    forall k :: 1 <= k < |h| ==> key(h[Parent(k)]) <= key(h[k])
  }

  lemma {:induction false} TopIsLeast<T>(h: seq<T>, key: T -> real, k: nat)
    requires Ordered(h, key) && k < |h|
    ensures key(h[0]) <= key(h[k])
  {
    if k > 0 { TopIsLeast(h, key, Parent(k)); }
  }

  lemma {:induction false} TopBounds<T>(h: seq<T>, key: T -> real)
    requires Ordered(h, key) && h != []
    ensures forall m :: m in h ==> key(h[0]) <= key(m)
  {
    forall m | m in h ensures key(h[0]) <= key(m) {
      var k :| 0 <= k < |h| && h[k] == m;
      TopIsLeast(h, key, k);
    }
  }

  function Swap<T>(h: seq<T>, i: nat, j: nat): (r: seq<T>)
    requires i < |h| && j < |h|
    ensures |r| == |h|
  {
    h[i := h[j]][j := h[i]]
  }

  lemma {:induction false} SwapPermutes<T>(h: seq<T>, i: nat, j: nat)
    requires i < |h| && j < |h|
    ensures multiset(Swap(h, i, j)) == multiset(h)
  {
  }

  /** Order everywhere but between j and its parent. */
  ghost predicate OrderedUp<T>(h: seq<T>, j: nat, key: T -> real) {
    && (forall k :: 1 <= k < |h| && k != j ==> key(h[Parent(k)]) <= key(h[k]))
    && (forall k :: 1 <= k < |h| && Parent(k) == j && j > 0 ==> key(h[Parent(j)]) <= key(h[k]))
  }

  /** Order everywhere but between i and its children, among the first n. */
  ghost predicate OrderedDown<T>(h: seq<T>, i: nat, n: nat, key: T -> real)
    requires n <= |h|
  {
    && (forall k :: 1 <= k < n && Parent(k) != i ==> key(h[Parent(k)]) <= key(h[k]))
    && (forall k :: 1 <= k < n && Parent(k) == i && i > 0 ==> key(h[Parent(i)]) <= key(h[k]))
  }

  lemma {:induction false} SwapUp<T>(h: seq<T>, j: nat, key: T -> real)
    requires 0 < j < |h| && OrderedUp(h, j, key) && key(h[j]) < key(h[Parent(j)])
    ensures OrderedUp(Swap(h, Parent(j), j), Parent(j), key)
  {
  }

  lemma {:induction false} SwapDown<T>(h: seq<T>, i: nat, j: nat, n: nat, key: T -> real)
    requires i < j < n <= |h| && Parent(j) == i && OrderedDown(h, i, n, key)
    requires key(h[j]) < key(h[i])
    requires forall k :: 1 <= k < n && Parent(k) == i ==> key(h[j]) <= key(h[k])
    ensures OrderedDown(Swap(h, i, j), j, n, key)
  {
  }

  method Push<T>(heap: seq<T>, m: T, key: T -> real) returns (h: seq<T>)
    requires Ordered(heap, key)
    ensures Ordered(h, key) && multiset(h) == multiset(heap) + multiset{m} && |h| == |heap| + 1
  {
    hide Swap;
    h := heap + [m];
    var j: nat := |heap|;
    assert multiset(h) == multiset(heap) + multiset{m};
    while true
      invariant j < |h| == |heap| + 1 && OrderedUp(h, j, key)
      invariant multiset(h) == multiset(heap) + multiset{m}
      decreases j
    {
      var i := Parent(j);
      if i == j || key(h[i]) <= key(h[j]) {
        break;
      }
      SwapUp(h, j, key);
      SwapPermutes(h, i, j);
      h := Swap(h, i, j);
      j := i;
    }
  }

  /** The smaller child of i, if i has children among the first n. */
  method SmallerChild<T>(s: seq<T>, i: nat, n: nat, key: T -> real) returns (j: nat)
    requires i < n <= |s|
    ensures j == 2 * i + 1 || j == 2 * i + 2
    ensures j >= n ==> forall k :: 1 <= k < n ==> Parent(k) != i
    ensures j < n ==> Parent(j) == i && forall k :: 1 <= k < n && Parent(k) == i ==> key(s[j]) <= key(s[k])
  {
    j := 2 * i + 1;
    if j + 1 < n && key(s[j + 1]) < key(s[j]) {
      j := j + 1;
    }
    assert forall k :: 1 <= k < n && Parent(k) == i ==> k == 2 * i + 1 || k == 2 * i + 2;
  }

  lemma {:induction false} Sunk<T>(s: seq<T>, i: nat, n: nat, key: T -> real)
    requires n + 1 == |s| && OrderedDown(s, i, n, key)
    requires forall k :: 1 <= k < n && Parent(k) == i ==> key(s[i]) <= key(s[k])
    ensures Ordered(s[..n], key) && multiset(s) == multiset(s[..n]) + multiset{s[n]}
  {
    assert s == s[..n] + [s[n]];
  }

  method Pop<T>(heap: seq<T>, key: T -> real) returns (x: T, h: seq<T>)
    requires Ordered(heap, key) && heap != []
    ensures x == heap[0] && Ordered(h, key) && |h| == |heap| - 1
    ensures multiset(heap) == multiset(h) + multiset{x}
  {
    hide Swap, Parent, OrderedDown, Ordered;
    var n := |heap| - 1;
    var s := Swap(heap, 0, n);
    SwapPermutes(heap, 0, n);
    PopStart(heap, key);
    var i: nat := 0;
    while i < n
      invariant i <= n && |s| == n + 1 && s[n] == heap[0]
      invariant OrderedDown(s, i, n, key) && multiset(s) == multiset(heap)
      invariant i == n ==> n == 0
      decreases n - i
    {
      var j := SmallerChild(s, i, n, key);
      if j >= n || key(s[i]) <= key(s[j]) {
        break;
      }
      SwapDown(s, i, j, n, key);
      SwapPermutes(s, i, j);
      SwapKeeps(s, i, j, n);
      s := Swap(s, i, j);
      i := j;
    }
    Sunk(s, i, n, key);
    x, h := s[n], s[..n];
  }

  lemma {:induction false} PopStart<T>(heap: seq<T>, key: T -> real)
    requires Ordered(heap, key) && heap != []
    ensures var n := |heap| - 1; Swap(heap, 0, n)[n] == heap[0] && OrderedDown(Swap(heap, 0, n), 0, n, key)
  {
  }

  lemma {:induction false} SwapKeeps<T>(h: seq<T>, i: nat, j: nat, k: nat)
    requires i < |h| && j < |h| && k < |h| && k != i && k != j
    ensures Swap(h, i, j)[k] == h[k]
  {
  }
}
