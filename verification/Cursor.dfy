/**
 Cursor: ordered scans over the leaf chain of a B+tree.

 A cursor is seen as two lists: `Ahead`, the cells that Next will still visit, the current one first,
 and `Behind`, those that Prev will visit, the current one last.  A cursor never crosses an empty
 leaf, which Delete can leave in the chain, so both lists end there.
 */
module Cursor {
  import opened ByteOrder
  import opened Cells
  import opened BTreeLevels
  import BTreeSteps
  import opened BTreeContents
  import opened BTreeWay
  import opened BTree

  // ---------- Runs of non-empty leaves ----------

  ghost function CellsOf(pages: Pages, es: Level, i: nat): seq<LeafItem>
    requires AllLeaves(pages, es) && i < |es|
  {
    pages[es[i].child].cells
  }

  /** The first empty leaf at or after position i. */
  ghost function Stop(pages: Pages, es: Level, i: nat): (j: nat)
    requires AllLeaves(pages, es) && i <= |es|
    ensures i <= j <= |es| && (j < |es| ==> CellsOf(pages, es, j) == [])
    ensures forall x :: i <= x < j ==> CellsOf(pages, es, x) != []
    decreases |es| - i
  {
    if i == |es| || CellsOf(pages, es, i) == [] then i else Stop(pages, es, i + 1)
  }

  /** One past the last empty leaf before position i. */
  ghost function Start(pages: Pages, es: Level, i: nat): (j: nat)
    requires AllLeaves(pages, es) && i <= |es|
    ensures j <= i && (j > 0 ==> CellsOf(pages, es, j - 1) == [])
    ensures forall x :: j <= x < i ==> CellsOf(pages, es, x) != []
  {
    if i == 0 || CellsOf(pages, es, i - 1) == [] then i else Start(pages, es, i - 1)
  }

  ghost function AheadOf(pages: Pages, es: Level, i: nat, k: nat): seq<LeafItem>
    requires AllLeaves(pages, es) && i < |es| && k <= |CellsOf(pages, es, i)|
  {
    CellsOf(pages, es, i)[k..] + AllCells(pages, es[i + 1..Stop(pages, es, i + 1)])
  }

  ghost function BehindOf(pages: Pages, es: Level, i: nat, k: nat): seq<LeafItem>
    requires AllLeaves(pages, es) && i < |es| && k < |CellsOf(pages, es, i)|
  {
    AllCells(pages, es[Start(pages, es, i)..i]) + CellsOf(pages, es, i)[..k + 1]
  }

  lemma {:induction false} FirstLeafOf(pages: Pages, es: Level, i: nat, j: nat)
    requires AllLeaves(pages, es) && i < j <= |es|
    ensures AllCells(pages, es[i..j]) == CellsOf(pages, es, i) + AllCells(pages, es[i + 1..j])
  {
    assert es[i..j] == [es[i]] + es[i + 1..j];
    AllCellsConcat(pages, [es[i]], es[i + 1..j]);
    assert [es[i]][..0] == [] && AllCells(pages, [es[i]][..0]) == [];
  }

  lemma {:induction false} LastLeafOf(pages: Pages, es: Level, i: nat, j: nat)
    requires AllLeaves(pages, es) && i < j <= |es|
    ensures AllCells(pages, es[i..j]) == AllCells(pages, es[i..j - 1]) + CellsOf(pages, es, j - 1)
  {
    assert es[i..j][..j - i - 1] == es[i..j - 1];
  }

  /** The leaves from position n on hold no cell exactly when each of them is empty. */
  lemma {:induction false} NoCells(pages: Pages, es: Level, n: nat)
    requires AllLeaves(pages, es) && n <= |es|
    ensures AllCells(pages, es[n..]) == [] <==> forall i :: n <= i < |es| ==> CellsOf(pages, es, i) == []
    decreases |es| - n
  {
    if n < |es| {
      NoCells(pages, es, n + 1);
      FirstLeafOf(pages, es, n, |es|);
      assert es[n..|es|] == es[n..] && es[n + 1..|es|] == es[n + 1..];
    }
  }

  ghost predicate NoEmptyLeaf(pages: Pages, es: Level)
    requires AllLeaves(pages, es)
  {
    forall i :: 0 <= i < |es| ==> CellsOf(pages, es, i) != []
  }

  /** What a scan from the first leaf reaches is everything exactly when only empty leaves follow the
      first empty one. */
  lemma {:induction false} ScanComplete(pages: Pages, es: Level)
    requires AllLeaves(pages, es)
    ensures AllCells(pages, es[..Stop(pages, es, 0)]) == AllCells(pages, es) <==>
            forall i :: Stop(pages, es, 0) <= i < |es| ==> CellsOf(pages, es, i) == []
    ensures NoEmptyLeaf(pages, es) ==> Stop(pages, es, 0) == |es|
  {
    var n := Stop(pages, es, 0);
    AllCellsConcat(pages, es[..n], es[n..]);
    assert es == es[..n] + es[n..];
    NoCells(pages, es, n);
  }

  // ---------- The outermost leaves ----------

  lemma {:induction false} OutermostChildren(pages: Pages, upper: Level, lower: Level)
    requires Linked(pages, upper, lower) && |upper| > 0
    ensures |lower| > 0
    ensures lower[0].child == pages[upper[0].child].items[0].child
    ensures lower[|lower| - 1].child == pages[upper[|upper| - 1].child].rightmost
  {
    ExpandAt(pages, upper, 0);
    assert NodeOk(pages[upper[0].child]);
    assert Expand(pages, upper[..0]) == [];
    assert lower[0] == pages[upper[0].child].items[0];
  }

  method FindLeftmostLeaf(t: Tree) returns (page: PageId)
    requires t.Valid() && t.root != INVALID_PAGE_ID
    ensures page == t.levels[0][0].child
  {
    hide Expand, LeafOk, SortedFences, Distinct, LevelOk;
    page := t.root;
    ghost var g := |t.levels| - 1;
    Shapes(t.pages, t.root, t.levels, t.depth);
    while true
      invariant 0 <= g < |t.levels| && page == t.levels[g][0].child
      decreases g
    {
      if g > 0 {
        assert Linked(t.pages, t.levels[g], t.levels[g - 1]);
        OutermostChildren(t.pages, t.levels[g], t.levels[g - 1]);
      } else {
        LeavesAreLeaves(t.pages, t.levels[0]);
      }
      var p := t.pages[page];
      if p.Leaf? {
        return;
      }
      // an internal page always has an item, so the fallback to the rightmost child is never taken
      page := p.items[0].child;
      g := g - 1;
    }
  }

  method FindRightmostLeaf(t: Tree) returns (page: PageId)
    requires t.Valid() && t.root != INVALID_PAGE_ID
    ensures page == t.levels[0][|t.levels[0]| - 1].child
  {
    hide Expand, LeafOk, SortedFences, Distinct, LevelOk;
    page := t.root;
    ghost var g := |t.levels| - 1;
    Shapes(t.pages, t.root, t.levels, t.depth);
    while true
      invariant 0 <= g < |t.levels| && page == t.levels[g][|t.levels[g]| - 1].child
      decreases g
    {
      if g > 0 {
        assert Linked(t.pages, t.levels[g], t.levels[g - 1]);
        OutermostChildren(t.pages, t.levels[g], t.levels[g - 1]);
      } else {
        LeavesAreLeaves(t.pages, t.levels[0]);
      }
      var p := t.pages[page];
      if p.Leaf? {
        return;
      }
      page := p.rightmost;
      g := g - 1;
    }
  }

  lemma {:induction false} NoneBefore(pages: Pages, es: Level)
    requires AllLeaves(pages, es)
    ensures AllCells(pages, es[..0]) == [] && AllCells(pages, es[|es|..]) == []
  {
  }

  /** The chain pointers of a leaf name its neighbours in the leaf level. */
  lemma {:induction false} Neighbours(pages: Pages, root: PageId, levels: seq<Level>, depth: map<PageId, nat>, i: nat)
    requires WellFormed(pages, root, levels, depth) && i < |levels[0]|
    ensures levels[0][i].child in pages && pages[levels[0][i].child].Leaf?
    ensures var p, es := pages[levels[0][i].child], levels[0];
            && (p.next == INVALID_PAGE_ID <==> i + 1 == |es|) && (i + 1 < |es| ==> p.next == es[i + 1].child)
            && (p.prev == INVALID_PAGE_ID <==> i == 0) && (i > 0 ==> p.prev == es[i - 1].child)
  {
    hide SortedFences, Distinct, CellsOk, Linked;
    assert LevelOk(pages, depth, levels[0], 0);
    assert LeafOk(pages, levels[0], i);
  }

  /** One step ahead of position k of leaf i. */
  lemma {:induction false} NextOf(pages: Pages, es: Level, i: nat, k: nat)
    requires AllLeaves(pages, es) && i < |es| && k < |CellsOf(pages, es, i)|
    ensures AheadOf(pages, es, i, k) != []
    ensures k + 1 < |CellsOf(pages, es, i)| ==> AheadOf(pages, es, i, k)[1..] == AheadOf(pages, es, i, k + 1)
    ensures k + 1 == |CellsOf(pages, es, i)| ==>
              AheadOf(pages, es, i, k)[1..] ==
              if i + 1 < |es| && CellsOf(pages, es, i + 1) != [] then AheadOf(pages, es, i + 1, 0) else []
  {
    var c, n := CellsOf(pages, es, i), Stop(pages, es, i + 1);
    var rest := AllCells(pages, es[i + 1..n]);
    assert i + 1 >= n ==> es[i + 1..n] == [] && rest == [];
    hide AllCells;
    assert c[k..][1..] == c[k + 1..];
    assert (c[k..] + rest)[1..] == c[k + 1..] + rest;
    if k + 1 == |c| {
      assert c[k + 1..] == [] && [] + rest == rest;
      if i + 1 < n {
        FirstLeafOf(pages, es, i + 1, n);
        assert Stop(pages, es, i + 2) == n;
        assert CellsOf(pages, es, i + 1)[0..] == CellsOf(pages, es, i + 1);
      }
    }
  }

  /** One step back from position k of leaf i. */
  lemma {:induction false} PrevOf(pages: Pages, es: Level, i: nat, k: nat)
    requires AllLeaves(pages, es) && i < |es| && k < |CellsOf(pages, es, i)|
    ensures var b := BehindOf(pages, es, i, k);
            && b != []
            && (k > 0 ==> b[..|b| - 1] == BehindOf(pages, es, i, k - 1))
            && (k == 0 && i > 0 && CellsOf(pages, es, i - 1) != [] ==>
                  b[..|b| - 1] == BehindOf(pages, es, i - 1, |CellsOf(pages, es, i - 1)| - 1))
            && (k == 0 && (i == 0 || CellsOf(pages, es, i - 1) == []) ==> b[..|b| - 1] == [])
  {
    var c, n := CellsOf(pages, es, i), Start(pages, es, i);
    var rest := AllCells(pages, es[n..i]);
    assert c[..k + 1][..k] == c[..k];
    assert (rest + c[..k + 1])[..|rest| + k] == rest + c[..k];
    if k == 0 {
      assert c[..k] == [] && rest + [] == rest;
      if n < i {
        LastLeafOf(pages, es, n, i);
        assert Start(pages, es, i - 1) == n;
        var d := CellsOf(pages, es, i - 1);
        assert d[..|d| - 1 + 1] == d;
      } else {
        assert es[n..i] == [];
      }
    }
  }

  // ---------- Where Seek lands ----------

  lemma {:induction false} PlaceInCells(a: seq<LeafItem>, c: seq<LeafItem>, b: seq<LeafItem>, key: Bytes)
    requires Between(a, key, b) && SortedCells(a + c + b)
    ensures LowerBound(a + c + b, key) == |a| + LowerBound(c, key)
  {
    hide Rank, LowerBound, SortedCells;
    var all, lb := a + c + b, LowerBound(c, key);
    var p := |a| + lb;
    assert lb < |c| ==> all[p] == c[lb];
    assert lb == |c| && p < |all| ==> all[p] == b[0];
    assert lb > 0 ==> all[p - 1] == c[lb - 1];
    assert lb == 0 && p > 0 ==> all[p - 1] == a[p - 1];
    LowerBoundUnique(all, key, p);
  }

  /** The place of a key in the whole tree is its place in the covering leaf. */
  lemma {:induction false} PlaceOf(pages: Pages, es: Level, i: nat, key: Bytes)
    requires LeafLevel(pages, es) && Covers(es, i, key)
    ensures SortedCells(AllCells(pages, es))
    ensures LowerBound(AllCells(pages, es), key) == |AllCells(pages, es[..i])| + LowerBound(CellsOf(pages, es, i), key)
  {
    hide Rank, LowerBound, AllCells, Between, SortedCells;
    CellsBefore(pages, es, |es|);
    assert es[..|es|] == es;
    var a, b := CellsAround(pages, es, i, key);
    PlaceInCells(a, CellsOf(pages, es, i), b, key);
  }

  /** Seek looks into the covering leaf and the one after it.  So it finds the least key not below its
      target, when there is one, exactly under this condition. */
  ghost predicate SeekReaches(pages: Pages, es: Level, key: Bytes)
    requires LeafLevel(pages, es) && |es| > 0 && Rank(key) < FenceRank(es[|es| - 1].fence)
  {
    var i := CoverIndex(es, key);
    || LowerBound(CellsOf(pages, es, i), key) < |CellsOf(pages, es, i)|
    || (i + 1 < |es| && CellsOf(pages, es, i + 1) != [])
    || (forall j :: i < j < |es| ==> CellsOf(pages, es, j) == [])
  }

  ghost function SeekAhead(pages: Pages, es: Level, key: Bytes): seq<LeafItem>
    requires LeafLevel(pages, es) && |es| > 0 && Rank(key) < FenceRank(es[|es| - 1].fence)
  {
    var i := CoverIndex(es, key);
    var lb := LowerBound(CellsOf(pages, es, i), key);
    if lb < |CellsOf(pages, es, i)| then AheadOf(pages, es, i, lb)
    else if i + 1 < |es| && CellsOf(pages, es, i + 1) != [] then AheadOf(pages, es, i + 1, 0)
    else []
  }

  lemma {:induction false} TailOf(pages: Pages, es: Level, i: nat, k: nat)
    requires AllLeaves(pages, es) && i < |es| && k <= |CellsOf(pages, es, i)|
    ensures |AllCells(pages, es[..i])| + k <= |AllCells(pages, es)|
    ensures var off := |AllCells(pages, es[..i])|;
            && AllCells(pages, es)[off + k..] == CellsOf(pages, es, i)[k..] + AllCells(pages, es[i + 1..])
            && (NoEmptyLeaf(pages, es) ==> AheadOf(pages, es, i, k) == AllCells(pages, es)[off + k..])
  {
    AllCellsAt(pages, es, i);
    var a, c, b := AllCells(pages, es[..i]), CellsOf(pages, es, i), AllCells(pages, es[i + 1..]);
    assert AllCells(pages, es) == a + c + b;
    assert (a + c + b)[|a| + k..] == c[k..] + b;
    assert es[i + 1..|es|] == es[i + 1..];
  }

  /** From position n on, only empty leaves follow the first empty one. */
  ghost predicate OnlyEmptyAfter(pages: Pages, es: Level, n: nat)
    requires AllLeaves(pages, es) && n <= |es|
  {
    forall j :: Stop(pages, es, n) <= j < |es| ==> CellsOf(pages, es, j) == []
  }

  lemma {:induction false} NothingIn(pages: Pages)
    ensures AllCells(pages, []) == []
  {
  }

  lemma {:induction false} NextLeafAhead(pages: Pages, es: Level, j: nat)
    requires AllLeaves(pages, es) && j < |es|
    ensures AllCells(pages, es[j..Stop(pages, es, j)]) == if CellsOf(pages, es, j) != [] then AheadOf(pages, es, j, 0)
                                                            else []
  {
    NothingIn(pages);
    hide AllCells;
    var n := Stop(pages, es, j);
    if CellsOf(pages, es, j) != [] {
      FirstLeafOf(pages, es, j, n);
      assert CellsOf(pages, es, j)[0..] == CellsOf(pages, es, j);
    } else {
      assert es[j..n] == [];
    }
  }

  /** Seek has ahead of it what is left of the covering leaf, and the leaves up to the next empty one. */
  lemma {:induction false} SeekAheadIs(pages: Pages, es: Level, key: Bytes)
    requires LeafLevel(pages, es) && |es| > 0 && Rank(key) < FenceRank(es[|es| - 1].fence)
    ensures var i := CoverIndex(es, key);
            SeekAhead(pages, es, key) == CellsOf(pages, es, i)[LowerBound(CellsOf(pages, es, i),
                key)..] + AllCells(pages, es[i + 1..Stop(pages, es, i + 1)])
  {
    hide LowerBound, AllCells, LeavesOk, SortedFences, CoverIndex, Rank;
    var i := CoverIndex(es, key);
    var c := CellsOf(pages, es, i);
    if LowerBound(c, key) == |c| {
      assert c[|c|..] == [];
      if i + 1 < |es| {
        NextLeafAhead(pages, es, i + 1);
      } else {
        assert es[i + 1..Stop(pages, es, i + 1)] == [];
        NothingIn(pages);
      }
    }
  }

  /** The leaves from n up to the next empty one hold all there is from n on exactly if the rest is empty. */
  lemma {:induction false} RestComplete(pages: Pages, es: Level, n: nat, front: seq<LeafItem>)
    requires AllLeaves(pages, es) && n <= |es|
    ensures front + AllCells(pages, es[n..Stop(pages, es, n)]) == front + AllCells(pages, es[n..])
            <==> OnlyEmptyAfter(pages, es, n)
  {
    hide AllCells;
    var m := Stop(pages, es, n);
    var a, b := AllCells(pages, es[n..m]), AllCells(pages, es[m..]);
    assert es[n..] == es[n..m] + es[m..];
    AllCellsConcat(pages, es[n..m], es[m..]);
    NoCells(pages, es, m);
    assert front + (a + b) == (front + a) + b;
    assert |front + a| == |(front + a) + b| <==> b == [];
    if b == [] { assert a + b == a; }
  }

  /** What Seek finds, against the sorted list of all cells. */
  lemma {:induction false} SeekMeaning(pages: Pages, es: Level, key: Bytes)
    requires LeafLevel(pages, es) && |es| > 0 && Rank(key) < FenceRank(es[|es| - 1].fence)
    ensures var all, found := AllCells(pages, es), SeekAhead(pages, es, key);
            var p := LowerBound(all, key);
            && (found != [] ==> p < |all| && found[0] == all[p])
            && ((found != [] <==> p < |all|) <==> SeekReaches(pages, es, key))
            && (found == all[p..] <==> OnlyEmptyAfter(pages, es, CoverIndex(es, key) + 1))
  {
    hide LowerBound, AllCells, LeavesOk, SortedFences, CoverIndex, Rank, SortedCells, Stop, Covers;
    var i := CoverIndex(es, key);
    assert Covers(es, i, key) by { CoverCovers(es, key); }
    PlaceOf(pages, es, i, key);
    var c := CellsOf(pages, es, i);
    var lb := LowerBound(c, key);
    TailOf(pages, es, i, lb);
    SeekAheadIs(pages, es, key);
    RestComplete(pages, es, i + 1, c[lb..]);
    if lb < |c| {
    } else if i + 1 < |es| {
      NextTail(pages, es, i);
      NoCells(pages, es, i + 1);
    } else {
      assert AllCells(pages, es[i + 1..]) == [] by { NoneBefore(pages, es); }
    }
  }

  lemma {:induction false} CoverCovers(es: Level, key: Bytes)
    requires |es| > 0 && Rank(key) < FenceRank(es[|es| - 1].fence)
    ensures Covers(es, CoverIndex(es, key), key)
  {
  }

  /** Past the last cell of a leaf comes the next leaf. */
  lemma {:induction false} NextTail(pages: Pages, es: Level, i: nat)
    requires AllLeaves(pages, es) && i + 1 < |es|
    ensures var off := |AllCells(pages, es[..i])| + |CellsOf(pages, es, i)|;
            && off <= |AllCells(pages, es)| && AllCells(pages, es)[off..] == AllCells(pages, es[i + 1..])
            && (CellsOf(pages, es, i + 1) != [] ==>
                  AllCells(pages, es[i + 1..]) != [] && AllCells(pages, es[i + 1..])[0] == CellsOf(pages, es, i + 1)[0])
            && (NoEmptyLeaf(pages, es) ==> AheadOf(pages, es, i + 1, 0) == AllCells(pages, es)[off..])
  {
    var c := CellsOf(pages, es, i);
    TailOf(pages, es, i, |c|);
    assert c[|c|..] == [];
    FirstLeafOf(pages, es, i + 1, |es|);
    assert es[i + 1..|es|] == es[i + 1..];
    TailOf(pages, es, i + 1, 0);
    LastLeafOf(pages, es, 0, i + 1);
    assert es[0..i + 1] == es[..i + 1] && es[0..i] == es[..i];
  }

  // ---------- Scans ----------

  /** The cells a scan visits: while they are inside its range, and until the callback says stop.  The cell
      it stops at has been visited. */
  ghost function Visit(items: seq<LeafItem>, inside: LeafItem -> bool, fn: LeafItem -> bool): seq<LeafItem> {
    if items == [] || !inside(items[0]) then []
    else if !fn(items[0]) then [items[0]]
    else [items[0]] + Visit(items[1..], inside, fn)
  }

  const Always: LeafItem -> bool := (c: LeafItem) => true

  /** Until the callback stops it: a prefix of the run, cut right after the first cell the callback refuses. */
  lemma {:induction false} VisitUntil(run: seq<LeafItem>, fn: LeafItem -> bool)
    ensures var r := Visit(run, Always, fn);
            && r <= run && (forall i :: 0 <= i < |r| - 1 ==> fn(r[i]))
            && (r != run ==> r != [] && !fn(r[|r| - 1])) && ((forall c :: c in run ==> fn(c)) ==> r == run)
  {
    if run != [] {
      VisitUntil(run[1..], fn);
      assert run == [run[0]] + run[1..];
    }
  }

  ghost predicate NoneInside(cells: seq<LeafItem>, inside: LeafItem -> bool) {
    forall i :: 0 <= i < |cells| ==> !inside(cells[i])
  }

  /** A scan visits the leading run inside its range, until the callback stops it. */
  lemma {:induction false} VisitRun(items: seq<LeafItem>, inside: LeafItem -> bool, fn: LeafItem -> bool, n: nat)
    requires n <= |items| && (forall i :: 0 <= i < n ==> inside(items[i])) && (n < |items| ==> !inside(items[n]))
    ensures Visit(items, inside, fn) == Visit(items[..n], Always, fn)
  {
    if n > 0 {
      VisitRun(items[1..], inside, fn, n - 1);
      assert items[..n][1..] == items[1..][..n - 1];
    }
  }

  /** A scan that has only a front part ahead of it visits the run of n cells inside its range, until the callback
      stops it, if none of these is in the part it does not see; and only then if the callback never stops it. */
  lemma {:induction false} VisitFront(ahead: seq<LeafItem>, hidden: seq<LeafItem>, inside: LeafItem -> bool,
                                      fn: LeafItem -> bool, n: nat)
    requires n <= |ahead + hidden| && forall i :: 0 <= i < |ahead + hidden| ==> (inside((ahead + hidden)[i]) <==> i < n)
    ensures NoneInside(hidden, inside) ==> Visit(ahead, inside, fn) == Visit((ahead + hidden)[..n], Always, fn)
    ensures Visit(ahead, inside, Always) == (ahead + hidden)[..n] <==> NoneInside(hidden, inside)
  {
    hide Visit;
    var s := ahead + hidden;
    forall i | 0 <= i < |hidden| ensures hidden[i] == s[|ahead| + i] {}
    assert n > |ahead| ==> inside(hidden[0]);
    assert NoneInside(hidden, inside) <==> n <= |ahead|;
    var k := if n <= |ahead| then n else |ahead|;
    forall i | 0 <= i < |ahead| ensures ahead[i] == s[i] {}
    VisitRun(ahead, inside, fn, k);
    VisitRun(ahead, inside, Always, k);
    VisitUntil(ahead[..k], Always);
    assert n <= |ahead| ==> ahead[..k] == s[..n];
  }

  /** A possibly missing end of a range. */
  datatype Bound = Open | At(key: Bytes)

  /** The place of a bound in a sorted list, an open one at the given end. */
  ghost function Place(all: seq<LeafItem>, b: Bound, open: nat): nat {
    if b.At? then LowerBound(all, b.key) else open
  }

  ghost function RunFrom(all: seq<LeafItem>, a: nat, b: nat): seq<LeafItem>
    requires a <= |all| && b <= |all|
  {
    if a <= b then all[a..b] else []
  }

  /** From a place on, the keys below the end are the run up to the place of the end. */
  lemma {:induction false} RangeMembers(all: seq<LeafItem>, a: nat, end: Bound, inside: LeafItem -> bool)
    requires SortedCells(all) && a <= |all| && forall c: LeafItem :: inside(c) == (end.Open? || Less(c.key, end.key))
    ensures var b := Place(all, end, |all|);
            && b <= |all| && |RunFrom(all, a, b)| <= |all[a..]|
                && all[a..][..|RunFrom(all, a, b)|] == RunFrom(all, a, b)
            && forall i :: 0 <= i < |all[a..]| ==> (inside(all[a..][i]) <==> i < |RunFrom(all, a, b)|)
  {
    hide Rank, Less, LowerBound;
    var b := Place(all, end, |all|);
    forall i | 0 <= i < |all[a..]| ensures inside(all[a..][i]) <==> a + i < b {
      if end.At? {
        RankIsOrderEmbedding(all[a + i].key, end.key);
        assert a + i < b ==> Rank(all[a + i].key) <= Rank(all[b - 1].key);
        assert a + i >= b ==> Rank(all[b].key) <= Rank(all[a + i].key);
      }
    }
  }

  /** The keys with a prefix are a run of the sorted list that begins where Seek lands. */
  lemma {:induction false} PrefixMembers(all: seq<LeafItem>, prefix: Bytes) returns (b: nat)
    requires SortedCells(all)
    ensures LowerBound(all, prefix) <= b <= |all|
    ensures forall i :: 0 <= i < |all| ==> (HasPrefix(all[i].key, prefix) <==> LowerBound(all, prefix) <= i < b)
  {
    hide Rank, Less, LowerBound, HasPrefix;
    var a := LowerBound(all, prefix);
    b := a;
    while b < |all| && HasPrefix(all[b].key, prefix)
      invariant a <= b <= |all|
      invariant forall i :: a <= i < b ==> HasPrefix(all[i].key, prefix)
    {
      b := b + 1;
    }
    forall i | 0 <= i < |all| ensures HasPrefix(all[i].key, prefix) <==> a <= i < b {
      if HasPrefix(all[i].key, prefix) && !(a <= i < b) {
        PrefixPlace(all, prefix, i, b);
      }
    }
  }

  lemma {:induction false} PrefixPlace(all: seq<LeafItem>, prefix: Bytes, i: nat, b: nat)
    requires SortedCells(all) && i < |all| && LowerBound(all, prefix) <= b <= |all| && HasPrefix(all[i].key, prefix)
    requires b < |all| ==> !HasPrefix(all[b].key, prefix)
    ensures LowerBound(all, prefix) <= i < b
  {
    hide Rank, Less, LowerBound, HasPrefix;
    var a := LowerBound(all, prefix);
    assert i < a ==> Rank(all[i].key) <= Rank(all[a - 1].key);
    RankIsOrderEmbedding(all[i].key, prefix);
    if b < |all| {
      PrefixInterval(prefix, all[b].key, all[i].key);
      RankIsOrderEmbedding(all[b].key, prefix);
      RankIsOrderEmbedding(all[i].key, all[b].key);
      assert a < b ==> Rank(all[a].key) < Rank(all[b].key);
    } else {
      PrefixInterval(prefix, prefix, all[i].key);
    }
  }

  lemma {:induction false} TreeSorted(pages: Pages, es: Level)
    requires LeafLevel(pages, es)
    ensures SortedCells(AllCells(pages, es))
  {
    hide Rank, AllCells, SortedCells;
    CellsBefore(pages, es, |es|);
    assert es[..|es|] == es;
  }

  /** What RangeScan has ahead of it when it starts. */
  ghost function ScanAhead(pages: Pages, es: Level, start: Bound): seq<LeafItem>
    requires LeafLevel(pages, es) && |es| > 0 && es[|es| - 1].fence.Unbounded?
  {
    if start.At? then SeekAhead(pages, es, start.key) else AllCells(pages, es[..Stop(pages, es, 0)])
  }

  /** The leaf from which on a scan stops at an empty one. */
  ghost function ScanLeaf(es: Level, start: Bound): (n: nat)
    requires |es| > 0 && es[|es| - 1].fence.Unbounded?
    ensures n <= |es|
  {
    if start.At? then CoverIndex(es, start.key) + 1 else 0
  }

  /** The cells behind the empty leaf that a scan stops at. */
  ghost function Hidden(pages: Pages, es: Level, start: Bound): seq<LeafItem>
    requires AllLeaves(pages, es) && |es| > 0 && es[|es| - 1].fence.Unbounded?
  {
    AllCells(pages, es[Stop(pages, es, ScanLeaf(es, start))..])
  }

  /** A level in two parts, at the empty leaf that a scan stops at. */
  lemma {:induction false} UpToStop(pages: Pages, es: Level, n: nat)
    requires AllLeaves(pages, es) && n <= |es|
    ensures var m := Stop(pages, es, n);
            && AllCells(pages, es[n..]) == AllCells(pages, es[n..m]) + AllCells(pages, es[m..])
            && (AllCells(pages, es[m..]) == [] <==> OnlyEmptyAfter(pages, es, n))
  {
    hide AllCells, Stop;
    var m := Stop(pages, es, n);
    NoCells(pages, es, m);
    assert es[n..] == es[n..m] + es[m..];
    AllCellsConcat(pages, es[n..m], es[m..]);
  }

  /** What a scan has ahead of it and what is hidden from it is everything from its start on. */
  lemma {:induction false} ScanThenHidden(pages: Pages, es: Level, start: Bound)
    requires LeafLevel(pages, es) && |es| > 0 && es[|es| - 1].fence.Unbounded?
    ensures var all := AllCells(pages, es);
            Place(all, start, 0) <= |all| && ScanAhead(pages, es, start) + Hidden(pages, es, start)
                == all[Place(all, start, 0)..]
    ensures Hidden(pages, es, start) == [] <==> OnlyEmptyAfter(pages, es, ScanLeaf(es, start))
  {
    hide LowerBound, AllCells, LeavesOk, SortedFences, CoverIndex, Rank, Stop, OnlyEmptyAfter, SeekAhead;
    var n := ScanLeaf(es, start);
    UpToStop(pages, es, n);
    if start.At? {
      SeekThenRest(pages, es, start.key);
    } else {
      var m := Stop(pages, es, 0);
      assert es[0..] == es && es[0..m] == es[..m];
      assert AllCells(pages, es)[0..] == AllCells(pages, es);
    }
  }

  lemma {:induction false} SeekThenRest(pages: Pages, es: Level, key: Bytes)
    requires LeafLevel(pages, es) && |es| > 0 && es[|es| - 1].fence.Unbounded?
    ensures var all, n := AllCells(pages, es), CoverIndex(es, key) + 1;
            && LowerBound(all, key) <= |all|
            && SeekAhead(pages, es, key) + AllCells(pages, es[Stop(pages, es, n)..]) == all[LowerBound(all, key)..]
  {
    hide LowerBound, AllCells, LeavesOk, SortedFences, CoverIndex, Rank, SortedCells, Stop, Covers, SeekAhead,
        OnlyEmptyAfter;
    var i := CoverIndex(es, key);
    assert Covers(es, i, key) by { CoverCovers(es, key); }
    PlaceOf(pages, es, i, key);
    var lb := LowerBound(CellsOf(pages, es, i), key);
    TailOf(pages, es, i, lb);
    SeekAheadIs(pages, es, key);
    UpToStop(pages, es, i + 1);
    var m := Stop(pages, es, i + 1);
    var x, y, z := CellsOf(pages, es, i)[lb..], AllCells(pages, es[i + 1..m]), AllCells(pages, es[m..]);
    assert (x + y) + z == x + (y + z);
  }

  /** Everything from the start on lies ahead if and only if no empty leaf hides any of it. */
  lemma {:induction false} ScanAheadIff(pages: Pages, es: Level, start: Bound)
    requires LeafLevel(pages, es) && |es| > 0 && es[|es| - 1].fence.Unbounded?
    ensures var all := AllCells(pages, es);
            && Place(all, start, 0) <= |all|
            && (ScanAhead(pages, es, start) == all[Place(all, start, 0)..]
                <==> OnlyEmptyAfter(pages, es, ScanLeaf(es, start)))
  {
    hide AllCells, ScanAhead, Hidden, OnlyEmptyAfter, LeavesOk, SortedFences, Place;
    ScanThenHidden(pages, es, start);
    var ahead, hidden := ScanAhead(pages, es, start), Hidden(pages, es, start);
    assert |ahead + hidden| == |ahead| <==> hidden == [];
    assert hidden == [] ==> ahead + hidden == ahead;
  }

  /** RangeScan visits exactly the cells from start up to end, in order, until the callback stops it, if none of
      them is hidden behind an empty leaf; and only then if the callback does not stop it.  What lies past the end
      does not matter. */
  lemma {:induction false} RangeScanExact(pages: Pages, es: Level, start: Bound, end: Bound, inside: LeafItem -> bool,
                                          fn: LeafItem -> bool)
    requires LeafLevel(pages, es) && |es| > 0 && es[|es| - 1].fence.Unbounded?
    requires forall c: LeafItem :: inside(c) == (end.Open? || Less(c.key, end.key))
    ensures var all := AllCells(pages, es);
            var a, b := Place(all, start, 0), Place(all, end, |all|);
            var ahead, hidden := ScanAhead(pages, es, start), Hidden(pages, es, start);
            && a <= |all| && b <= |all|
            && (NoneInside(hidden, inside) ==> Visit(ahead, inside, fn) == Visit(RunFrom(all, a, b), Always, fn))
            && (Visit(ahead, inside, Always) == RunFrom(all, a, b) <==> NoneInside(hidden, inside))
  {
    hide LowerBound, Less, SortedCells, Visit, AllCells, ScanAhead, LeavesOk, SortedFences, Hidden, NoneInside,
        OnlyEmptyAfter;
    ScanThenHidden(pages, es, start);
    TreeSorted(pages, es);
    var all := AllCells(pages, es);
    var a := Place(all, start, 0);
    RangeMembers(all, a, end, inside);
    VisitFront(ScanAhead(pages, es, start), Hidden(pages, es, start), inside, fn,
        |RunFrom(all, a, Place(all, end, |all|))|);
  }

  /** PrefixScan visits exactly the cells whose key has the prefix, in order, until the callback stops it, if none
      of them is hidden behind an empty leaf; and only then if the callback does not stop it. */
  lemma {:induction false} PrefixScanExact(pages: Pages, es: Level, prefix: Bytes, inside: LeafItem -> bool,
                                           fn: LeafItem -> bool) returns (a: nat, b: nat)
    requires LeafLevel(pages, es) && |es| > 0 && es[|es| - 1].fence.Unbounded?
    requires forall c: LeafItem :: inside(c) == HasPrefix(c.key, prefix)
    ensures var all := AllCells(pages, es);
            var ahead, hidden := SeekAhead(pages, es, prefix), Hidden(pages, es, At(prefix));
            && a <= b <= |all| && (forall i :: 0 <= i < |all| ==> (HasPrefix(all[i].key, prefix) <==> a <= i < b))
            && (NoneInside(hidden, inside) ==> Visit(ahead, inside, fn) == Visit(all[a..b], Always, fn))
            && (Visit(ahead, inside, Always) == all[a..b] <==> NoneInside(hidden, inside))
  {
    hide LowerBound, Less, SortedCells, Visit, AllCells, SeekAhead, LeavesOk, SortedFences, Hidden, HasPrefix,
        NoneInside, OnlyEmptyAfter;
    ScanThenHidden(pages, es, At(prefix));
    TreeSorted(pages, es);
    var all := AllCells(pages, es);
    a := LowerBound(all, prefix);
    b := PrefixMembers(all, prefix);
    forall i | 0 <= i < |all[a..]| ensures inside(all[a..][i]) <==> i < b - a {
      assert all[a..][i] == all[a + i];
    }
    assert all[a..][..b - a] == all[a..b];
    VisitFront(SeekAhead(pages, es, prefix), Hidden(pages, es, At(prefix)), inside, fn, b - a);
  }

  /** What a scan back from the last leaf reaches is everything exactly when only empty leaves come before the
      last empty one. */
  lemma {:induction false} BackScanComplete(pages: Pages, es: Level)
    requires AllLeaves(pages, es)
    ensures AllCells(pages, es[Start(pages, es, |es|)..]) == AllCells(pages, es) <==>
            forall i :: 0 <= i < Start(pages, es, |es|) ==> CellsOf(pages, es, i) == []
    ensures NoEmptyLeaf(pages, es) ==> Start(pages, es, |es|) == 0
  {
    hide AllCells;
    var n := Start(pages, es, |es|);
    AllCellsConcat(pages, es[..n], es[n..]);
    assert es == es[..n] + es[n..];
    NoCells(pages, es[..n], 0);
    assert es[..n][0..] == es[..n];
    forall i | 0 <= i < n ensures CellsOf(pages, es[..n], i) == CellsOf(pages, es, i) {}
    var a, b := AllCells(pages, es[..n]), AllCells(pages, es[n..]);
    assert |a + b| == |b| <==> a == [];
    assert a == [] ==> a + b == b;
  }

  lemma {:induction false} TwoLeafCells(pages: Pages, es: Level)
    requires |es| == 2 && AllLeaves(pages, es)
    ensures AllCells(pages, es) == pages[es[0].child].cells + pages[es[1].child].cells
  {
    assert es[..1][..0] == [] && AllCells(pages, es[..1][..0]) == [];
  }

  ghost predicate IsTwoLeaves(pages: Pages, sep: Bytes, left: seq<LeafItem>, right: seq<LeafItem>) {
    && 2 in pages && 3 in pages && 4 in pages
    && pages[2] == Internal([Entry(3, Key(sep))], 4)
    && pages[3] == Leaf(left, INVALID_PAGE_ID, 4) && pages[4] == Leaf(right, 3, INVALID_PAGE_ID)
  }

  lemma {:induction false} TwoLeavesOk(pages: Pages, es: Level, sep: Bytes, left: seq<LeafItem>, right: seq<LeafItem>)
    requires CellsOk(left, -1.0, Rank(sep)) && CellsOk(right, Rank(sep), 1.0)
    requires IsTwoLeaves(pages, sep, left, right) && es == [Entry(3, Key(sep)), Entry(4, Unbounded)]
    ensures LeavesOk(pages, es)
  {
    hide CellsOk, Rank;
    assert LeafOk(pages, es, 0);
    assert LeafOk(pages, es, 1);
  }

  lemma {:induction false} TwoLevelsOk(pages: Pages, depth: map<PageId, nat>, es: Level, top: Level, sep: Bytes)
    requires 2 in pages && 3 in pages && 4 in pages && 2 in depth && 3 in depth && 4 in depth && depth[2] == 1
             && depth[3] == depth[4] == 0
    requires es == [Entry(3, Key(sep)), Entry(4, Unbounded)] && top == [Entry(2, Unbounded)]
    ensures LevelOk(pages, depth, es, 0) && LevelOk(pages, depth, top, 1)
  {
    hide Rank;
  }

  /** A tree of a root and two leaves. */
  lemma {:induction false} TwoLeaves(pages: Pages, depth: map<PageId, nat>, sep: Bytes, left: seq<LeafItem>,
                                     right: seq<LeafItem>)
    requires CellsOk(left, -1.0, Rank(sep)) && CellsOk(right, Rank(sep), 1.0) && |sep| <= MAX_KEY_SIZE
    requires IsTwoLeaves(pages, sep, left, right)
    requires 2 in depth && 3 in depth && 4 in depth && depth[2] == 1 && depth[3] == depth[4] == 0
    ensures var es := [Entry(3, Key(sep)), Entry(4, Unbounded)];
            && WellFormed(pages, 2, [es, [Entry(2, Unbounded)]], depth)
            && AllLeaves(pages, es) && AllCells(pages, es) == left + right
  {
    var es, top := [Entry(3, Key(sep)), Entry(4, Unbounded)], [Entry(2, Unbounded)];
    BTreeSteps.OneRoot(pages, 2, es[0], 4);
    TwoLeavesOk(pages, es, sep, left, right);
    TwoLevelsOk(pages, depth, es, top, sep);
    hide Linked, Expand, LevelOk, LeavesOk, CellsOk, Rank;
    TwoLeafCells(pages, es);
  }

  /** A well-formed tree that holds a key, although First finds none: its first leaf has been emptied. */
  lemma {:induction false} EmptyLeafHidesKeys()
    returns (pages: Pages, root: PageId, levels: seq<Level>, depth: map<PageId, nat>)
    ensures WellFormed(pages, root, levels, depth) && AllLeaves(pages, levels[0])
    ensures AllCells(pages, levels[0]) != [] && AllCells(pages, levels[0][..Stop(pages, levels[0], 0)]) == []
  {
    var cell := LeafItem([2], []);
    var es := [Entry(3, Key([1])), Entry(4, Unbounded)];
    root, levels, depth := 2, [es, [Entry(2, Unbounded)]], map[2 := 1, 3 := 0, 4 := 0];
    pages := map[2 := Internal([es[0]], 4), 3 := Leaf([], INVALID_PAGE_ID, 4), 4 := Leaf([cell], 3, INVALID_PAGE_ID)];
    RankIsOrderEmbedding([1], [2]);
    hide Rank;
    assert [cell][..0] == [] && LeafSize([cell]) == LeafCost(cell);
    TwoLeaves(pages, depth, [1], [], [cell]);
    hide WellFormed, CellsOk;
    assert es[..0] == [];
  }

  lemma {:induction false} VisitStep(ahead: seq<LeafItem>, inside: LeafItem -> bool, fn: LeafItem -> bool,
                                     before: seq<LeafItem>)
    requires ahead != []
    ensures !inside(ahead[0]) ==> before + Visit(ahead, inside, fn) == before
    ensures inside(ahead[0]) && !fn(ahead[0]) ==> before + Visit(ahead, inside, fn) == before + [ahead[0]]
    ensures inside(ahead[0]) && fn(ahead[0]) ==>
              before + Visit(ahead, inside, fn) == (before + [ahead[0]]) + Visit(ahead[1..], inside, fn)
  {
  }

  lemma {:induction false} CoveringCells(pages: Pages, root: PageId, levels: seq<Level>, depth: map<PageId, nat>,
                                         key: Bytes)
    requires WellFormed(pages, root, levels, depth)
    ensures LevelShapes(levels) && LeafLevel(pages, levels[0])
    ensures SortedCells(CellsOf(pages, levels[0], CoverIndex(levels[0], key)))
  {
    hide Rank, CoverIndex;
    Shapes(pages, root, levels, depth);
    assert LeafOk(pages, levels[0], CoverIndex(levels[0], key));
  }

  class Cursor {
    const tree: Tree
    var page: PageId
    var cells: seq<LeafItem>
    var idx: int
    var valid: bool
    ghost var leaf: nat

    ghost predicate Ok()
      reads this, tree
    {
      && tree.Valid()
      && (valid ==>
            && tree.root != INVALID_PAGE_ID && LeafLevel(tree.pages, tree.levels[0])
            && leaf < |tree.levels[0]| && page == tree.levels[0][leaf].child
            && cells == CellsOf(tree.pages, tree.levels[0], leaf) && 0 <= idx < |cells|)
    }

    ghost function Ahead(): seq<LeafItem>
      requires Ok()
      reads this, tree
    {
      if valid then AheadOf(tree.pages, tree.levels[0], leaf, idx) else []
    }

    ghost function Behind(): seq<LeafItem>
      requires Ok()
      reads this, tree
    {
      if valid then BehindOf(tree.pages, tree.levels[0], leaf, idx) else []
    }

    constructor (t: Tree)
      requires t.Valid()
      ensures tree == t && !valid && Ok()
    {
      tree, page, cells, idx, valid := t, INVALID_PAGE_ID, [], -1, false;
    }

    method Item() returns (c: LeafItem)
      requires Ok() && valid
      ensures Ahead() != [] && c == Ahead()[0]
      ensures Behind() != [] && c == Behind()[|Behind()| - 1]
    {
      c := cells[idx];
    }

    method First() returns (ok: bool)
      requires tree.Valid()
      modifies this
      ensures Ok() && ok == valid
      ensures tree.root == INVALID_PAGE_ID ==> !ok
      ensures tree.root != INVALID_PAGE_ID ==>
                LeafLevel(tree.pages, tree.levels[0]) &&
                Ahead() == AllCells(tree.pages, tree.levels[0][..Stop(tree.pages, tree.levels[0], 0)])
      ensures ok ==> Ahead() != [] && Behind() == [Ahead()[0]]
    {
      hide WellFormed, AllCells, LeavesOk, SortedFences;
      page, cells, idx, valid := INVALID_PAGE_ID, [], -1, false;
      if tree.root == INVALID_PAGE_ID { return false; }
      Shapes(tree.pages, tree.root, tree.levels, tree.depth);
      page := FindLeftmostLeaf(tree);
      leaf := 0;
      cells := tree.pages[page].cells;
      ghost var es, n := tree.levels[0], Stop(tree.pages, tree.levels[0], 0);
      assert es[..n] == es[0..n];
      if |cells| == 0 {
        assert AllCells(tree.pages, es[..n]) == [] by { NoneBefore(tree.pages, es); }
        return false;
      }
      idx, valid := 0, true;
      FirstLeafOf(tree.pages, es, 0, n);
      assert Stop(tree.pages, es, 1) == n;
      Here();
      PrevOf(tree.pages, es, leaf, idx);
      return true;
    }

    method Last() returns (ok: bool)
      requires tree.Valid()
      modifies this
      ensures Ok() && ok == valid
      ensures tree.root == INVALID_PAGE_ID ==> !ok
      ensures tree.root != INVALID_PAGE_ID ==>
                LeafLevel(tree.pages, tree.levels[0]) &&
                Behind() == AllCells(tree.pages, tree.levels[0][Start(tree.pages, tree.levels[0], |tree.levels[0]|)..])
      ensures ok ==> Behind() != [] && Ahead() == [Behind()[|Behind()| - 1]]
    {
      hide WellFormed, AllCells, LeavesOk, SortedFences;
      page, cells, idx, valid := INVALID_PAGE_ID, [], -1, false;
      if tree.root == INVALID_PAGE_ID { return false; }
      Shapes(tree.pages, tree.root, tree.levels, tree.depth);
      page := FindRightmostLeaf(tree);
      ghost var es := tree.levels[0];
      leaf := |es| - 1;
      cells := tree.pages[page].cells;
      ghost var n := Start(tree.pages, es, |es|);
      assert es[n..] == es[n..|es|];
      if |cells| == 0 {
        assert AllCells(tree.pages, es[n..]) == [] by { NoneBefore(tree.pages, es); }
        return false;
      }
      idx, valid := |cells| - 1, true;
      LastLeafOf(tree.pages, es, n, |es|);
      assert Start(tree.pages, es, |es| - 1) == n;
      Here();
      NextOf(tree.pages, es, leaf, idx);
      return true;
    }

    method Next() returns (ok: bool)
      requires Ok()
      modifies this
      ensures Ok() && ok == valid
      ensures Ahead() == if old(Ahead()) == [] then [] else old(Ahead())[1..]
      ensures ok ==> Ahead() != [] && Behind() == old(Behind()) + [Ahead()[0]]
    {
      hide WellFormed, AllCells, LeavesOk, SortedFences, AheadOf, BehindOf;
      if !valid { return false; }
      Shapes(tree.pages, tree.root, tree.levels, tree.depth);
      Neighbours(tree.pages, tree.root, tree.levels, tree.depth, leaf);
      NextOf(tree.pages, tree.levels[0], leaf, idx);
      idx := idx + 1;
      if idx < |cells| {
        Here();
        PrevOf(tree.pages, tree.levels[0], leaf, idx);
        return true;
      }
      var nextId := tree.pages[page].next;
      if nextId == INVALID_PAGE_ID {
        valid := false;
        return false;
      }
      page := nextId;
      cells := tree.pages[page].cells;
      leaf := leaf + 1;
      if |cells| == 0 {
        valid := false;
        return false;
      }
      idx := 0;
      Here();
      PrevOf(tree.pages, tree.levels[0], leaf, idx);
      return true;
    }

    /** Both views show the current cell. */
    lemma {:induction false} Here()
      requires Ok() && valid
      ensures Ahead() != [] && Ahead()[0] == cells[idx] && Behind() != [] && Behind()[|Behind()| - 1] == cells[idx]
    {
    }

    method Prev() returns (ok: bool)
      requires Ok()
      modifies this
      ensures Ok() && ok == valid
      ensures Behind() == if old(Behind()) == [] then [] else old(Behind())[..|old(Behind())| - 1]
      ensures ok ==> Behind() != [] && Ahead() == [Behind()[|Behind()| - 1]] + old(Ahead())
    {
      hide WellFormed, AllCells, LeavesOk, SortedFences, BehindOf, AheadOf;
      if !valid { return false; }
      Shapes(tree.pages, tree.root, tree.levels, tree.depth);
      Neighbours(tree.pages, tree.root, tree.levels, tree.depth, leaf);
      PrevOf(tree.pages, tree.levels[0], leaf, idx);
      idx := idx - 1;
      if idx >= 0 {
        Here();
        NextOf(tree.pages, tree.levels[0], leaf, idx);
        return true;
      }
      var prevId := tree.pages[page].prev;
      if prevId == INVALID_PAGE_ID {
        valid := false;
        return false;
      }
      page := prevId;
      cells := tree.pages[page].cells;
      leaf := leaf - 1;
      if |cells| == 0 {
        valid := false;
        return false;
      }
      idx := |cells| - 1;
      Here();
      NextOf(tree.pages, tree.levels[0], leaf, idx);
      return true;
    }

    method Seek(key: Bytes) returns (ok: bool)
      requires tree.Valid()
      modifies this
      ensures Ok() && ok == valid
      ensures tree.root == INVALID_PAGE_ID ==> !ok
      ensures tree.root != INVALID_PAGE_ID ==>
                && LevelShapes(tree.levels) && LeafLevel(tree.pages, tree.levels[0])
                && Ahead() == SeekAhead(tree.pages, tree.levels[0], key)
    {
      hide WellFormed, AllCells, LeavesOk, SortedFences, CoverIndex, LowerBound, Rank, ToMap, Put, AheadOf, SortedCells,
          LevelOk, Distinct;
      page, cells, idx, valid := INVALID_PAGE_ID, [], -1, false;
      if tree.root == INVALID_PAGE_ID { return false; }
      CoveringCells(tree.pages, tree.root, tree.levels, tree.depth, key);
      var path := tree.Descend(key);
      page := path[|path| - 1];
      ghost var i := CoverIndex(tree.levels[0], key);
      leaf := i;
      Neighbours(tree.pages, tree.root, tree.levels, tree.depth, i);
      cells := tree.pages[page].cells;
      var k, _ := BinarySearch(cells, key);
      if k < |cells| {
        idx, valid := k, true;
        return true;
      }
      var nextId := tree.pages[page].next;
      if nextId != INVALID_PAGE_ID {
        page := nextId;
        leaf := i + 1;
        cells := tree.pages[page].cells;
        if |cells| > 0 {
          idx, valid := 0, true;
          return true;
        }
      }
      return false;
    }

    /** The loop of PrefixScan and RangeScan. */
    method ScanWhile(inside: LeafItem -> bool, fn: LeafItem -> bool) returns (visited: seq<LeafItem>)
      requires Ok()
      modifies this
      ensures visited == Visit(old(Ahead()), inside, fn)
    {
      hide AheadOf, BehindOf, WellFormed, LeafLevel, CellsOf;
      ghost var all := Ahead();
      visited := [];
      while valid
        invariant Ok() && visited + Visit(Ahead(), inside, fn) == Visit(all, inside, fn)
        decreases |Ahead()|
      {
        var c := Item();
        VisitStep(Ahead(), inside, fn, visited);
        if !inside(c) { return; }
        visited := visited + [c];
        if !fn(c) { return; }
        var _ := Next();
      }
      assert visited + [] == visited;
    }

    method PrefixScan(prefix: Bytes, fn: LeafItem -> bool) returns (visited: seq<LeafItem>)
      requires tree.Valid()
      modifies this
      ensures tree.root == INVALID_PAGE_ID ==> visited == []
      ensures tree.root != INVALID_PAGE_ID ==>
                && LevelShapes(tree.levels) && LeafLevel(tree.pages, tree.levels[0])
                && visited == Visit(SeekAhead(tree.pages, tree.levels[0], prefix),
                    (c: LeafItem) => HasPrefix(c.key, prefix), fn)
    {
      hide WellFormed, LeafLevel;
      var ok := Seek(prefix);
      if !ok { return []; }
      visited := ScanWhile((c: LeafItem) => HasPrefix(c.key, prefix), fn);
    }

    method RangeScan(start: Bound, end: Bound, fn: LeafItem -> bool) returns (visited: seq<LeafItem>)
      requires tree.Valid()
      modifies this
      ensures tree.root == INVALID_PAGE_ID ==> visited == []
      ensures tree.root != INVALID_PAGE_ID ==>
                && LevelShapes(tree.levels) && LeafLevel(tree.pages, tree.levels[0])
                && visited == Visit(ScanAhead(tree.pages, tree.levels[0], start), (c: LeafItem) => end.Open?
                    || Less(c.key, end.key), fn)
    {
      hide WellFormed, LeafLevel;
      if tree.root != INVALID_PAGE_ID { Shapes(tree.pages, tree.root, tree.levels, tree.depth); }
      var ok;
      if start.At? {
        ok := Seek(start.key);
      } else {
        ok := First();
      }
      if !ok { return []; }
      visited := ScanWhile((c: LeafItem) => end.Open? || Less(c.key, end.key), fn);
    }
  }
}
