/**
 What a search finds in a page store, whether or not the pages still form a tree: the descent of findLeaf
 and the lookup in the leaf it ends in.

 A refused insertion leaves pages that are no tree any more.  This module says what can still be found in
 them: everything but the keys of one range, or of two.
 */
module BTreeLookup {
  import opened ByteOrder
  import opened Options
  import opened Cells
  import opened BTreeLevels
  import opened BTreeSteps
  import opened BTreeContents
  import opened BTreeWay

  function Get(m: map<Bytes, Bytes>, k: Bytes): Option<Bytes> {
    if k in m then Some(m[k]) else None
  }

  ghost function CellValue(cells: seq<LeafItem>, k: Bytes): Option<Bytes> {
    if Holds(cells, k) then Some(cells[LowerBound(cells, k)].value) else None
  }

  /** The child a search takes. */
  ghost function Route(p: Page, k: Bytes): PageId
    requires p.Internal?
  {
    var L := Entries(p, Unbounded);
    L[CoverIndex(L, k)].child
  }

  ghost function Lookup(pages: Pages, id: PageId, h: nat, k: Bytes): Option<Bytes>
    decreases h
  {
    if id !in pages then None
    else if h == 0 then (if pages[id].Leaf? then CellValue(pages[id].cells, k) else None)
    else if pages[id].Internal? then Lookup(pages, Route(pages[id], k), h - 1, k)
    else None
  }

  /** From page id, every descent of h steps meets sorted internal pages and ends in a sorted leaf. */
  ghost predicate Searchable(pages: Pages, id: PageId, h: nat)
    decreases h
  {
    && id in pages
    && if h == 0 then pages[id].Leaf? && SortedCells(pages[id].cells)
       else
         && pages[id].Internal? && ItemsOk(pages[id].items)
         && var L := Entries(pages[id], Unbounded);
         SortedFences(L) && forall i :: 0 <= i < |L| ==> Searchable(pages, L[i].child, h - 1)
  }

  // ---------- Levels joined by expansion ----------

  ghost predicate Joined(pages: Pages, upper: Level, lower: Level) {
    && AllInternal(pages, upper) && Expand(pages, upper) == lower
    && forall i :: 0 <= i < |upper| ==> ItemsOk(pages[upper[i].child].items)
  }

  ghost predicate Fenced(es: Level) {
    |es| > 0 && es[|es| - 1].fence.Unbounded? && SortedFences(es)
  }

  /** Levels a to b, each the expansion of the one above it. */
  ghost predicate Stack(pages: Pages, levels: seq<Level>, a: nat, b: nat) {
    && a <= b < |levels| && (forall g :: a <= g <= b ==> Fenced(levels[g]))
    && forall g :: a < g <= b ==> Joined(pages, levels[g], levels[g - 1])
  }

  ghost predicate LeavesBounded(pages: Pages, es: Level) {
    forall i :: 0 <= i < |es| ==> LeafBounded(pages, es, i)
  }

  ghost predicate LeafBounded(pages: Pages, es: Level, i: nat)
    requires i < |es|
  {
    && es[i].child in pages && pages[es[i].child].Leaf? && SortedCells(pages[es[i].child].cells)
    && Within(pages[es[i].child].cells, LowRank(es, i), FenceRank(es[i].fence))
  }

  ghost function At(levels: seq<Level>, g: nat, k: Bytes): PageId
    requires g < |levels| && Fenced(levels[g])
  {
    levels[g][CoverIndex(levels[g], k)].child
  }

  /** The outermost fence does not matter for the choice among a page's children. */
  lemma {:induction false} RouteIs(p: Page, fence: Fence, k: Bytes)
    requires p.Internal? && ItemsOk(p.items) && SortedFences(Entries(p, fence)) && Rank(k) < FenceRank(fence)
    ensures Route(p, k) == Entries(p, fence)[CoverIndex(Entries(p, fence), k)].child
    ensures SortedFences(Entries(p, Unbounded)) && CoverIndex(Entries(p, Unbounded), k)
            == CoverIndex(Entries(p, fence), k)
  {
    hide Rank, CoverIndex;
    var L, U := Entries(p, fence), Entries(p, Unbounded);
    forall i | 0 <= i < |p.items| ensures L[i] == U[i] == p.items[i] && p.items[i].fence.Key?
        && FenceRank(p.items[i].fence) < 1.0 {
      assert ItemOk(p.items[i]);
    }
    SortedOpen(p, fence);
    var x := CoverIndex(L, k);
    assert Covers(U, x, k);
    CoverUnique(U, k, x);
  }

  lemma {:induction false} SortedOpen(p: Page, fence: Fence)
    requires p.Internal? && ItemsOk(p.items) && SortedFences(Entries(p, fence))
    ensures SortedFences(Entries(p, Unbounded))
  {
    hide Rank;
    var L, U := Entries(p, fence), Entries(p, Unbounded);
    forall i, j | 0 <= i < j < |U| ensures FenceRank(U[i].fence) < FenceRank(U[j].fence) {
      assert ItemOk(p.items[i]) && L[i] == U[i];
      assert j < |p.items| ==> L[j] == U[j];
      assert FenceRank(L[i].fence) < FenceRank(L[j].fence);
    }
  }

  /** The entries of a page sit in the level beneath in one piece, between the fences of the page. */
  lemma {:induction false} Children(pages: Pages, upper: Level, lower: Level, j: nat)
    requires Joined(pages, upper, lower) && Fenced(upper) && Fenced(lower) && j < |upper|
    ensures AllInternal(pages, upper[..j])
    ensures var L := Entries(pages[upper[j].child], upper[j].fence);
            var off := |Expand(pages, upper[..j])|;
            && off + |L| <= |lower| && SortedFences(L) && (forall x :: 0 <= x < |L| ==> lower[off + x] == L[x])
            && LowRank(lower, off) == LowRank(upper, j)
  {
    hide Rank, FenceRank, Expand;
    ExpandAt(pages, upper, j);
    var before := Expand(pages, upper[..j]);
    Piece(lower, before, Entries(pages[upper[j].child], upper[j].fence), Expand(pages, upper[j + 1..]));
    if j > 0 {
      ExpandLast(pages, upper[..j]);
      assert lower[|before| - 1] == before[|before| - 1];
    } else {
      NothingBefore(pages, upper);
    }
  }

  lemma {:induction false} NothingBefore(pages: Pages, upper: Level)
    ensures AllInternal(pages, upper[..0]) && Expand(pages, upper[..0]) == []
  {
  }

  lemma {:induction false} Piece(lower: Level, a: Level, L: Level, b: Level)
    requires lower == a + L + b && SortedFences(lower)
    ensures SortedFences(L) && forall x :: 0 <= x < |L| ==> lower[|a| + x] == L[x]
  {
    hide FenceRank;
    forall x, y | 0 <= x < y < |L| ensures FenceRank(L[x].fence) < FenceRank(L[y].fence) {
      assert lower[|a| + x] == L[x] && lower[|a| + y] == L[y];
    }
  }

  /** A search goes to the page that covers the key, level after level. */
  lemma {:induction false} Reach(pages: Pages, levels: seq<Level>, a: nat, b: nat, g: nat, k: Bytes)
    requires Stack(pages, levels, a, b) && a <= g <= b
    ensures Lookup(pages, At(levels, g, k), g, k) == Lookup(pages, At(levels, a, k), a, k)
  {
    hide Rank, FenceRank, CoverIndex, SortedFences, Expand, Route;
    if g > a {
      assert Fenced(levels[g]) && Fenced(levels[g - 1]) && Joined(pages, levels[g], levels[g - 1]);
      OneStep(pages, levels[g], levels[g - 1], k);
      Reach(pages, levels, a, b, g - 1, k);
    }
  }

  lemma {:induction false} OneStep(pages: Pages, upper: Level, lower: Level, k: Bytes)
    requires Joined(pages, upper, lower) && Fenced(upper) && Fenced(lower)
    ensures var c := upper[CoverIndex(upper, k)].child;
            c in pages && pages[c].Internal? && Route(pages[c], k) == lower[CoverIndex(lower, k)].child
  {
    hide Rank, FenceRank, CoverIndex, Expand, Route;
    var j := CoverIndex(upper, k);
    CoverPosition(pages, upper, lower, k);
    Children(pages, upper, lower, j);
    RouteIs(pages[upper[j].child], upper[j].fence, k);
  }

  /** A key outside the fences of a page is not found beneath it. */
  lemma {:induction false} Stray(pages: Pages, levels: seq<Level>, b: nat, g: nat, y: nat, k: Bytes)
    requires Stack(pages, levels, 0, b) && LeavesBounded(pages, levels[0]) && g <= b && y < |levels[g]|
             && !Covers(levels[g], y, k)
    ensures Lookup(pages, levels[g][y].child, g, k) == None
  {
    hide Rank, FenceRank, CoverIndex, Expand, Route, LowerBound, SortedFences;
    if g == 0 {
      assert LeafBounded(pages, levels[0], y);
    } else {
      assert Fenced(levels[g]) && Fenced(levels[g - 1]) && Joined(pages, levels[g], levels[g - 1]);
      var x := ChildTaken(pages, levels[g], levels[g - 1], y, k);
      Stray(pages, levels, b, g - 1, x, k);
    }
  }

  /** The child a search takes from page y, and why it does not cover a key that y does not cover. */
  lemma {:induction false} ChildTaken(pages: Pages, upper: Level, lower: Level, y: nat, k: Bytes) returns (x: nat)
    requires Joined(pages, upper, lower) && Fenced(upper) && Fenced(lower) && y < |upper|
    ensures x < |lower| && Route(pages[upper[y].child], k) == lower[x].child
    ensures !Covers(upper, y, k) ==> !Covers(lower, x, k)
  {
    hide Rank, FenceRank, CoverIndex, Expand;
    var p := pages[upper[y].child];
    var L, off := Entries(p, upper[y].fence), |Expand(pages, upper[..y])|;
    Children(pages, upper, lower, y);
    var c := CoverIndex(Entries(p, Unbounded), k);
    x := off + c;
    assert lower[off + c] == L[c] && Entries(p, Unbounded)[c].child == L[c].child;
    assert L[|L| - 1].fence == upper[y].fence;
    if Covers(lower, x, k) {
      LowerWithin(lower, off, L, c, upper, y, k);
    }
  }

  lemma {:induction false} LowerWithin(lower: Level, off: nat, L: Level, c: nat, upper: Level, y: nat, k: Bytes)
    requires SortedFences(L) && c < |L| && off + |L| <= |lower| && y < |upper|
             && (forall x :: 0 <= x < |L| ==> lower[off + x] == L[x])
    requires LowRank(lower, off) == LowRank(upper, y) && L[|L| - 1].fence == upper[y].fence && SortedFences(lower)
    requires Covers(lower, off + c, k)
    ensures Covers(upper, y, k)
  {
    hide Rank, FenceRank;
    assert lower[off + c] == L[c];
    assert c < |L| - 1 ==> FenceRank(L[c].fence) < FenceRank(L[|L| - 1].fence);
    if c > 0 {
      assert lower[off + c - 1] == L[c - 1];
      if off > 0 { assert FenceRank(lower[off - 1].fence) < FenceRank(lower[off + c - 1].fence); }
    }
  }

  /** Above searchable pages all pages are searchable. */
  lemma {:induction false} UpSearchable(pages: Pages, levels: seq<Level>, a: nat, b: nat, g: nat, y: nat)
    requires Stack(pages, levels, a, b)
             && (forall x :: 0 <= x < |levels[a]| ==> Searchable(pages, levels[a][x].child, a))
    requires a <= g <= b && y < |levels[g]|
    ensures Searchable(pages, levels[g][y].child, g)
  {
    hide Rank, FenceRank, Expand, SortedFences;
    if g > a {
      assert Fenced(levels[g]) && Fenced(levels[g - 1]) && Joined(pages, levels[g], levels[g - 1]);
      var p := pages[levels[g][y].child];
      Children(pages, levels[g], levels[g - 1], y);
      SortedOpen(p, levels[g][y].fence);
      var L, U, off := Entries(p, levels[g][y].fence), Entries(p, Unbounded), |Expand(pages, levels[g][..y])|;
      forall i | 0 <= i < |U| ensures Searchable(pages, U[i].child, g - 1) {
        assert U[i].child == L[i].child && levels[g - 1][off + i] == L[i];
        UpSearchable(pages, levels, a, b, g - 1, off + i);
      }
    }
  }

  lemma {:induction false} StackSearchable(pages: Pages, levels: seq<Level>, b: nat, g: nat, y: nat)
    requires Stack(pages, levels, 0, b) && LeavesBounded(pages, levels[0]) && g <= b && y < |levels[g]|
    ensures Searchable(pages, levels[g][y].child, g)
  {
    hide Rank, FenceRank, Expand, SortedFences, Joined;
    forall x | 0 <= x < |levels[0]| ensures Searchable(pages, levels[0][x].child, 0) {
      assert LeafBounded(pages, levels[0], x);
    }
    UpSearchable(pages, levels, 0, b, g, y);
  }

  /** In a leaf level the covering leaf answers for the map. */
  lemma {:induction false} LeafAnswers(pages: Pages, es: Level, k: Bytes)
    requires LeafLevel(pages, es) && Fenced(es)
    ensures CellValue(pages[es[CoverIndex(es, k)].child].cells, k) == Get(ToMap(AllCells(pages, es)), k)
  {
    hide Rank, CoverIndex, LowerBound, ToMap, AllCells, FenceRank;
    var i := CoverIndex(es, k);
    assert LowRank(es, i) <= Rank(k) by { RankNotNegative(k); }
    LeafDecides(pages, es, i, k, []);
  }

  lemma {:induction false} RankNotNegative(k: Bytes)
    ensures -1.0 <= Rank(k) < 1.0
  {
  }

  lemma {:induction false} LeavesAreBounded(pages: Pages, es: Level)
    requires LeavesOk(pages, es)
    ensures LeavesBounded(pages, es)
  {
    hide Rank, FenceRank, SortedCells, Within;
    forall i | 0 <= i < |es| ensures LeafBounded(pages, es, i) {
      assert LeafOk(pages, es, i);
    }
  }

  // ---------- What a refused insertion leaves ----------

  /** The n first cells of the overfull leaf are kept; everything else in its range is gone. */
  ghost predicate KeptInLeaf(es: Level, i: nat, cells: seq<LeafItem>, n: nat, k: Bytes) {
    !Covers(es, i, k) || n >= |cells| || Rank(k) < Rank(cells[n].key)
  }

  /** Of the overfull page j, the first n entries and the middle one are kept; the rest of its range is gone. */
  ghost predicate KeptUnder(upper: Level, j: nat, L: Level, n: nat, mid: nat, k: Bytes)
    requires n <= mid < |L|
  {
    !Covers(upper, j, k) || Rank(k) < LowRank(L, n) || (LowRank(L, mid) <= Rank(k) < FenceRank(L[mid].fence))
  }

  ghost predicate KeptAbove(pages: Pages, levels: seq<Level>, h: nat, key: Bytes, sep: Bytes, k: Bytes)
    decreases |levels| - h, 1
  {
    && UpperLevels(pages, levels, h)
    && (h + 1 < |levels| ==> KeptByParent(pages, levels, h, key,
                               ParentAfter(pages, levels[h + 1], key, sep, INVALID_PAGE_ID), k))
  }

  ghost predicate KeptByParent(pages: Pages, levels: seq<Level>, h: nat, key: Bytes, L: Level, k: Bytes)
    requires |L| >= 2 && h + 1 < |levels| && |levels[h + 1]| > 0 && levels[h + 1][|levels[h + 1]| - 1].fence.Unbounded?
    decreases |levels| - h, 0
  {
    var mid, j := (|L| - 1) / 2, CoverIndex(levels[h + 1], key);
    if InternalFits(L[..|L| - 1]) then true
    else if !InternalFits(L[..mid]) then KeptUnder(levels[h + 1], j, L, |InternalPrefix(L[..mid])|, mid, k)
    else if !InternalFits(L[mid + 1..|L| - 1]) then KeptUnder(levels[h + 1], j, L, mid, mid, k)
    else L[mid].fence.Key? && KeptAbove(pages, levels, h + 1, key, L[mid].fence.key, k)
  }

  /** A search still finds k, if it would have been found after the insertion. */
  ghost predicate Kept(pages: Pages, levels: seq<Level>, key: Bytes, value: Bytes, k: Bytes)
    requires LevelShapes(levels) && AllLeaves(pages, levels[0])
  {
    var i := CoverIndex(levels[0], key);
    var cells := Put(pages[levels[0][i].child].cells, key, value);
    var mid := |cells| / 2;
    if !LeafFits(cells[..mid]) then KeptInLeaf(levels[0], i, cells, |LeafPrefix(cells[..mid])|, k)
    else if !LeafFits(cells[mid..]) then KeptInLeaf(levels[0], i, cells, mid, k)
    else mid < |cells| && KeptAbove(pages, levels, 0, key, cells[mid].key, k)
  }

  /** A search finds the keys of m that are kept, and no others. */
  ghost predicate FindsAbove(pages: Pages, root: PageId, top: nat, m: map<Bytes, Bytes>, pages0: Pages,
                             levels0: seq<Level>, h: nat, key: Bytes, sep: Bytes) {
    Searchable(pages, root, top) && forall k :: Lookup(pages, root, top, k)
                                      == if KeptAbove(pages0, levels0, h, key, sep, k) then Get(m, k) else None
  }

  ghost predicate FindsKept(pages: Pages, root: PageId, top: nat, m: map<Bytes, Bytes>, pages0: Pages,
                            levels0: seq<Level>, key: Bytes, value: Bytes)
    requires LevelShapes(levels0) && AllLeaves(pages0, levels0[0])
  {
    Searchable(pages, root, top) && forall k :: Lookup(pages, root, top, k)
                                      == if Kept(pages0, levels0, key, value, k) then Get(m, k) else None
  }

  lemma {:induction false} PrefixValue(cells: seq<LeafItem>, n: nat, k: Bytes)
    requires SortedCells(cells) && n <= |cells|
    ensures CellValue(cells[..n], k) == if n == |cells| || Rank(k) < Rank(cells[n].key) then CellValue(cells, k)
                                          else None
    ensures SortedCells(cells[..n])
  {
    hide Rank, LowerBound;
    var front, i := cells[..n], LowerBound(cells, k);
    if n == |cells| {
      assert front == cells;
    } else if Rank(k) < Rank(cells[n].key) {
      AtMost(cells, k, n);
      LowerBoundUnique(front, k, i);
      SameRank(k, cells[n].key);
    } else {
      forall x | 0 <= x < n ensures Rank(front[x].key) < Rank(k) { }
      LowerBoundUnique(front, k, n);
    }
  }

  lemma {:induction false} AtMost(cells: seq<LeafItem>, k: Bytes, n: nat)
    requires SortedCells(cells) && n < |cells| && Rank(k) <= Rank(cells[n].key)
    ensures LowerBound(cells, k) <= n
  {
    hide Rank, LowerBound, SortedCells;
    var i := LowerBound(cells, k);
    if i > n { RanksAscend(cells, n, i - 1); }
  }

  lemma {:induction false} SameRank(a: Bytes, b: Bytes)
    requires Rank(a) < Rank(b)
    ensures a != b
  {
  }

  /** The leaf of the key keeps a prefix of its new cells, and no parent knows of a split. */
  lemma {:induction false} LeafCut(pages: Pages, root: PageId, levels: seq<Level>, depth: map<PageId, nat>, key: Bytes,
                                   value: Bytes, n: nat, pages': Pages, k: Bytes)
    requires WellFormed(pages, root, levels, depth) && LevelShapes(levels) && AllLeaves(pages, levels[0])
             && LeafItemOk(LeafItem(key, value))
    requires forall g :: 0 < g < |levels| ==> Agree(pages, pages', levels[g])
    requires var i := CoverIndex(levels[0], key);
             var cells := Put(pages[levels[0][i].child].cells, key, value);
             && n <= |cells| && CutLeaf(pages, levels[0], i, cells[..n], pages')
    ensures var i := CoverIndex(levels[0], key);
            var cells := Put(pages[levels[0][i].child].cells, key, value);
            && Searchable(pages', root, |levels| - 1)
            && Lookup(pages', root, |levels| - 1, k) ==
               if KeptInLeaf(levels[0], i, cells, n, k) then Get(ToMap(AllCells(pages, levels[0]))[key := value], k)
                   else None
  {
    hide Rank, FenceRank, CoverIndex, LowerBound, ToMap, AllCells, WellFormed, Put, LeafSize, Lookup, CellValue,
        SortedCells, Within, Searchable, Get, SortedFences;
    var es := levels[0];
    var i := CoverIndex(es, key);
    TreeStack(pages, root, levels, depth);
    StackElsewhere(pages, pages', levels, 0, |levels| - 1);
    CoveringLeaf(pages, root, levels, depth, key, value);
    var cells := Put(pages[es[i].child].cells, key, value);
    PutOk(pages[es[i].child].cells, key, value, LowRank(es, i), FenceRank(es[i].fence));
    CutBounded(pages, es, i, cells, n, pages');
    StackSearchable(pages', levels, |levels| - 1, |levels| - 1, 0);
    OnlyRoot(root, levels, k);
    Reach(pages', levels, 0, |levels| - 1, |levels| - 1, k);
    LeafCutAnswers(pages, es, key, value, cells, n, pages', k);
  }

  /** Leaf i holds other cells; every other leaf of the level holds the same. */
  ghost predicate CutLeaf(pages: Pages, es: Level, i: nat, cells: seq<LeafItem>, pages': Pages) {
    forall x :: 0 <= x < |es| ==>
      && es[x].child in pages && pages[es[x].child].Leaf? && es[x].child in pages' && pages'[es[x].child].Leaf?
      && pages'[es[x].child].cells == if x == i then cells else pages[es[x].child].cells
  }

  lemma {:induction false} TreeStack(pages: Pages, root: PageId, levels: seq<Level>, depth: map<PageId, nat>)
    requires WellFormed(pages, root, levels, depth)
    ensures Stack(pages, levels, 0, |levels| - 1) && LeavesBounded(pages, levels[0])
            && levels[|levels| - 1] == [Entry(root, Unbounded)]
  {
    hide Rank, FenceRank, Expand, SortedFences, LeafOk;
    forall g | 0 <= g < |levels| ensures Fenced(levels[g]) { assert LevelOk(pages, depth, levels[g], g); }
    forall g | 0 < g < |levels|
      ensures Joined(pages, levels[g], levels[g - 1]) { LinkedJoins(pages, levels[g], levels[g - 1]); }
    LeavesAreBounded(pages, levels[0]);
  }

  lemma {:induction false} LinkedJoins(pages: Pages, upper: Level, lower: Level)
    requires Linked(pages, upper, lower)
    ensures Joined(pages, upper, lower)
  {
    hide Expand, InternalSize;
  }

  lemma {:induction false} StackElsewhere(pages: Pages, pages': Pages, levels: seq<Level>, a: nat, b: nat)
    requires Stack(pages, levels, a, b) && forall g :: a < g <= b ==> Agree(pages, pages', levels[g])
    ensures Stack(pages', levels, a, b)
  {
    hide Expand, SortedFences;
    forall g | a < g <= b ensures Joined(pages', levels[g], levels[g - 1]) {
      assert Joined(pages, levels[g], levels[g - 1]) && Agree(pages, pages', levels[g]);
      ExpandFrame(pages, pages', levels[g]);
    }
  }

  lemma {:induction false} OnlyRoot(root: PageId, levels: seq<Level>, k: Bytes)
    requires |levels| > 0 && levels[|levels| - 1] == [Entry(root, Unbounded)] && Fenced(levels[|levels| - 1])
    ensures At(levels, |levels| - 1, k) == root
  {
  }

  lemma {:induction false} CutBounded(pages: Pages, es: Level, i: nat, cells: seq<LeafItem>, n: nat, pages': Pages)
    requires LeavesBounded(pages, es) && i < |es| && n <= |cells| && CutLeaf(pages, es, i, cells[..n], pages')
    requires SortedCells(cells) && Within(cells, LowRank(es, i), FenceRank(es[i].fence))
    ensures LeavesBounded(pages', es)
  {
    hide Rank, FenceRank;
    forall x | 0 <= x < |es| ensures LeafBounded(pages', es, x) {
      assert LeafBounded(pages, es, x);
    }
  }

  lemma {:induction false} LeafCutAnswers(pages: Pages, es: Level, key: Bytes, value: Bytes, cells: seq<LeafItem>,
                                          n: nat, pages': Pages, k: Bytes)
    requires LeafLevel(pages, es) && Fenced(es)
    requires var i := CoverIndex(es, key);
             cells == Put(pages[es[i].child].cells, key, value) && SortedCells(cells) && n <= |cells|
                 && CutLeaf(pages, es, i, cells[..n], pages')
    ensures var i := CoverIndex(es, key);
            Lookup(pages', es[CoverIndex(es, k)].child, 0, k) ==
            if KeptInLeaf(es, i, cells, n, k) then Get(ToMap(AllCells(pages, es))[key := value], k) else None
  {
    hide Rank, FenceRank, CoverIndex, LowerBound, ToMap, AllCells, Put, SortedCells, CellValue, SortedFences;
    var i, j := CoverIndex(es, key), CoverIndex(es, k);
    CoverCovers(es, key);
    CoverCovers(es, k);
    if j != i {
      LeafAnswers(pages, es, k);
      NotCovered(es, k, i);
    } else {
      PrefixValue(cells, n, k);
      NewValue(pages, es, i, key, value, k);
    }
  }

  lemma {:induction false} CoverCovers(es: Level, k: Bytes)
    requires Fenced(es)
    ensures Covers(es, CoverIndex(es, k), k)
  {
    RankNotNegative(k);
    hide Rank, CoverIndex;
  }

  lemma {:induction false} NotCovered(es: Level, k: Bytes, i: nat)
    requires Fenced(es) && i != CoverIndex(es, k)
    ensures !Covers(es, i, k)
  {
    hide Rank, CoverIndex;
    if Covers(es, i, k) { CoverUnique(es, k, i); }
  }

  /** The new cells of the leaf answer for the updated map. */
  lemma {:induction false} NewValue(pages: Pages, es: Level, i: nat, key: Bytes, value: Bytes, k: Bytes)
    requires LeafLevel(pages, es) && Covers(es, i, key) && Covers(es, i, k)
    requires SortedCells(Put(pages[es[i].child].cells, key, value))
    ensures CellValue(Put(pages[es[i].child].cells, key, value), k) == Get(ToMap(AllCells(pages, es))[key := value], k)
  {
    hide Rank, FenceRank, LowerBound, ToMap, AllCells, Put, SortedCells, SortedFences;
    LeafDecides(pages, es, i, key, value);
    var a, b := CellsAround(pages, es, i, k);
    LookupInCells(a, Put(pages[es[i].child].cells, key, value), b, k);
  }

  // ---------- A parent cut short ----------

  /** The pages as they would be if the parent had taken all its new entries, however many. */
  ghost function Virtual(pages: Pages, upper: Level, j: nat, L: Level): Pages
    requires j < |upper| && L != []
  {
    pages[upper[j].child := Rewritten(L)]
  }

  lemma {:induction false} VirtualJoined(pages: Pages, upper: Level, lower: Level, j: nat, L: Level)
    requires Distinct(upper) && ParentView(pages, upper, lower, j, L) && AllInternal(pages, upper)
    requires forall x :: 0 <= x < |upper| && x != j ==> ItemsOk(pages[upper[x].child].items)
    ensures Joined(Virtual(pages, upper, j, L), upper, lower)
  {
    var e := upper[j];
    var pages' := Virtual(pages, upper, j, L);
    assert Entries(pages'[e.child], e.fence) == L;
    assert Expand(pages', [e][..0]) == [];
    assert Expand(pages', [e]) == L;
    ExpandReplace(pages, pages', upper, j, [e]);
    assert upper == upper[..j] + [e] + upper[j + 1..];
  }

  lemma {:induction false} VirtualStack(pages: Pages, root: PageId, levels: seq<Level>, depth: map<PageId, nat>, h: nat,
                                        i: nat, j: nat, L: Level)
    requires SplitPending(pages, root, levels, depth, h, i) && h + 1 < |levels|
             && ParentView(pages, levels[h + 1], levels[h], j, L)
    ensures var V := Virtual(pages, levels[h + 1], j, L);
            && Stack(V, levels, 0, |levels| - 1) && LeavesBounded(V, levels[0])
                && levels[|levels| - 1] == [Entry(root, Unbounded)]
            && Agree(pages, V, levels[0]) && LeafLevel(pages, levels[0])
  {
    hide Rank, FenceRank, Expand, SortedFences, Merge, Virtual, LeafOk;
    var V := Virtual(pages, levels[h + 1], j, L);
    forall g | 0 <= g < |levels| ensures Fenced(levels[g]) { assert LevelOk(pages, depth, levels[g], g); }
    OnlyLevel(pages, levels, depth, h, j, L);
    LinkedJoins(pages, levels[h + 1], Merge(levels[h], i));
    assert LevelOk(pages, depth, levels[h + 1], h + 1);
    VirtualJoined(pages, levels[h + 1], levels[h], j, L);
    forall g | 0 < g < |levels| ensures Joined(V, levels[g], levels[g - 1]) {
      if g != h + 1 {
        LinkedJoins(pages, levels[g], levels[g - 1]);
        ExpandFrame(pages, V, levels[g]);
      }
    }
    LeavesFrame(pages, V, levels[0]);
    LeavesAreBounded(V, levels[0]);
    LeavesAreLeaves(pages, levels[0]);
  }

  lemma {:induction false} OnlyLevel(pages: Pages, levels: seq<Level>, depth: map<PageId, nat>, h: nat, j: nat,
                                     L: Level)
    requires forall g :: 0 <= g < |levels| ==> LevelOk(pages, depth, levels[g], g)
    requires h + 1 < |levels| && j < |levels[h + 1]| && L != []
    ensures forall g :: 0 <= g < |levels| && g != h + 1 ==> Agree(pages, Virtual(pages, levels[h + 1], j, L), levels[g])
  {
    assert LevelOk(pages, depth, levels[h + 1], h + 1);
    OtherLevels(pages, Virtual(pages, levels[h + 1], j, L), depth, depth, levels, h + 1);
  }

  /** pages' has the first n entries of page j and its middle entry, and else what pages has. */
  ghost predicate CutPage(pages: Pages, levels: seq<Level>, g: nat, j: nat, L: Level, n: nat, mid: nat, pages': Pages)
    requires g < |levels| && j < |levels[g]|
  {
    && n <= mid < |L| - 1 && levels[g][j].child in pages && pages[levels[g][j].child] == Rewritten(L)
    && levels[g][j].child in pages' && pages'[levels[g][j].child] == Internal(L[..n], L[mid].child)
    && (forall x :: 0 <= x < |levels| && x != g ==> Agree(pages, pages', levels[x]))
    && forall x :: 0 <= x < |levels[g]| && x != j ==> levels[g][x].child in pages && levels[g][x].child in pages'
                                                        && pages'[levels[g][x].child] == pages[levels[g][x].child]
  }

  /** Where a search goes in a page cut short: to its child if that is kept, else to the middle one. */
  lemma {:induction false} CutRoute(L: Level, n: nat, mid: nat, k: Bytes)
    requires n <= mid < |L| - 1 && ItemsOk(L[..|L| - 1]) && SortedFences(L) && Rank(k) < FenceRank(L[|L| - 1].fence)
    ensures var x := CoverIndex(L, k);
            var p := Internal(L[..n], L[mid].child);
            && Route(p, k) == L[if x < n then x else mid].child
            && SortedFences(Entries(p, Unbounded)) && ItemsOk(p.items)
            && (x < n <==> Rank(k) < LowRank(L, n)) && (x == mid
                <==> LowRank(L, mid) <= Rank(k) < FenceRank(L[mid].fence))
  {
    hide Rank, CoverIndex;
    RankNotNegative(k);
    var x, p := CoverIndex(L, k), Internal(L[..n], L[mid].child);
    var U := Entries(p, Unbounded);
    forall y | 0 <= y < |L| - 1 ensures ItemOk(L[y]) { assert L[y] == L[..|L| - 1][y]; }
    forall y, z | 0 <= y < z < |U| ensures FenceRank(U[y].fence) < FenceRank(U[z].fence) {
      assert U[y] == L[y];
      assert z < n ==> U[z] == L[z];
    }
    CutCover(L, n, mid, k, x);
    if x < n {
      assert Covers(U, x, k);
      CoverUnique(U, k, x);
    } else {
      assert Covers(U, n, k);
      CoverUnique(U, k, n);
    }
  }

  lemma {:induction false} CutCover(L: Level, n: nat, mid: nat, k: Bytes, x: nat)
    requires n <= mid < |L| - 1 && SortedFences(L) && Covers(L, x, k)
    ensures (x < n <==> Rank(k) < LowRank(L, n)) && (x == mid <==> LowRank(L, mid) <= Rank(k) < FenceRank(L[mid].fence))
  {
    hide Rank, FenceRank;
    RankNotNegative(k);
    assert x < n ==> FenceRank(L[x].fence) <= FenceRank(L[n - 1].fence);
    assert n <= x && n > 0 ==> FenceRank(L[n - 1].fence) <= FenceRank(L[x - 1].fence);
    assert x < mid ==> FenceRank(L[x].fence) <= FenceRank(L[mid - 1].fence);
    assert mid < x ==> FenceRank(L[mid].fence) <= FenceRank(L[x - 1].fence);
  }

  /** The step of a search through level g, where page j has been cut short. */
  lemma {:induction false} CutStep(V: Pages, levels: seq<Level>, g: nat, j: nat, L: Level, n: nat, mid: nat,
                                   pages': Pages, k: Bytes)
    requires 0 < g < |levels| && j < |levels[g]| && Stack(V, levels, 0, g)
             && CutPage(V, levels, g, j, L, n, mid, pages')
    requires Stack(pages', levels, 0, g - 1) && LeavesBounded(pages', levels[0])
    requires L[|L| - 1].fence == levels[g][j].fence && ItemsOk(L[..|L| - 1])
    ensures Lookup(pages', At(levels, g, k), g, k) ==
            if KeptUnder(levels[g], j, L, n, mid, k) then Lookup(pages', At(levels, g - 1, k), g - 1, k) else None
  {
    hide Rank, FenceRank, CoverIndex, Expand, Route, Stack, SortedFences, Rewritten, KeptUnder;
    StackAt(V, levels, g);
    var upper, lower := levels[g], levels[g - 1];
    if CoverIndex(upper, k) != j {
      OneStep(V, upper, lower, k);
      KeptElsewhere(upper, j, L, n, mid, k);
    } else {
      var y := CutChild(V, upper, lower, j, L, n, mid, k);
      if !KeptUnder(upper, j, L, n, mid, k) {
        Stray(pages', levels, g - 1, g - 1, y, k);
      }
    }
  }

  lemma {:induction false} KeptElsewhere(upper: Level, j: nat, L: Level, n: nat, mid: nat, k: Bytes)
    requires Fenced(upper) && CoverIndex(upper, k) != j && n <= mid < |L|
    ensures KeptUnder(upper, j, L, n, mid, k)
  {
    NotCovered(upper, k, j);
  }

  /** The child a search takes from the page cut short, y in the level beneath: the one that covers the key
      exactly if the key is kept. */
  lemma {:induction false} CutChild(V: Pages, upper: Level, lower: Level, j: nat, L: Level, n: nat, mid: nat, k: Bytes)
    returns (y: nat)
    requires Joined(V, upper, lower) && Fenced(upper) && Fenced(lower) && j < |upper| && L != []
             && V[upper[j].child] == Rewritten(L)
    requires n <= mid < |L| - 1 && L[|L| - 1].fence == upper[j].fence && ItemsOk(L[..|L| - 1])
             && CoverIndex(upper, k) == j
    ensures y < |lower| && Route(Internal(L[..n], L[mid].child), k) == lower[y].child
    ensures if KeptUnder(upper, j, L, n, mid, k) then y == CoverIndex(lower, k) else !Covers(lower, y, k)
  {
    hide Rank, FenceRank, CoverIndex, Expand, Route;
    CoverCovers(upper, k);
    CoverPosition(V, upper, lower, k);
    Children(V, upper, lower, j);
    assert Entries(V[upper[j].child], upper[j].fence) == L;
    CutRoute(L, n, mid, k);
    var x, off := CoverIndex(L, k), |Expand(V, upper[..j])|;
    y := off + if x < n then x else mid;
    assert lower[y] == L[if x < n then x else mid] && CoverIndex(lower, k) == off + x;
    if y != off + x {
      NotCovered(lower, k, y);
    }
  }

  lemma {:induction false} StackAt(pages: Pages, levels: seq<Level>, g: nat)
    requires 0 < g && Stack(pages, levels, 0, g)
    ensures Fenced(levels[g]) && Fenced(levels[g - 1]) && Joined(pages, levels[g], levels[g - 1])
    ensures Fenced(levels[0]) && Stack(pages, levels, 0, g - 1)
  {
    hide Expand, SortedFences;
  }

  /** What a search finds when one page on some way has been cut short. */
  lemma {:induction false} ParentCut(V: Pages, levels: seq<Level>, g: nat, j: nat, L: Level, n: nat, mid: nat,
                                     pages': Pages, k: Bytes)
    requires 0 < g < |levels| && j < |levels[g]| && Stack(V, levels, 0, |levels| - 1) && LeavesBounded(V, levels[0])
    requires CutPage(V, levels, g, j, L, n, mid, pages') && L[|L| - 1].fence == levels[g][j].fence
             && ItemsOk(L[..|L| - 1])
    ensures Lookup(pages', At(levels, |levels| - 1, k), |levels| - 1, k) ==
            if KeptUnder(levels[g], j, L, n, mid, k) then Lookup(V, At(levels, 0, k), 0, k) else None
  {
    hide Rank, FenceRank, CoverIndex, Expand, Route, Lookup, KeptUnder, SortedFences, Joined, LeafBounded,
        LeavesBounded;
    CutStacks(V, levels, g, j, L, n, mid, pages');
    Reach(pages', levels, g, |levels| - 1, |levels| - 1, k);
    CutStep(V, levels, g, j, L, n, mid, pages', k);
    Reach(pages', levels, 0, g - 1, g - 1, k);
    SameLeaf(V, levels, g, j, L, n, mid, pages', k);
  }

  lemma {:induction false} SameLeaf(V: Pages, levels: seq<Level>, g: nat, j: nat, L: Level, n: nat, mid: nat,
                                    pages': Pages, k: Bytes)
    requires 0 < g < |levels| && j < |levels[g]| && Fenced(levels[0]) && CutPage(V, levels, g, j, L, n, mid, pages')
    ensures Lookup(pages', At(levels, 0, k), 0, k) == Lookup(V, At(levels, 0, k), 0, k)
  {
    hide CoverIndex, Rank, FenceRank, CellValue, Rewritten;
    assert Agree(V, pages', levels[0]);
  }

  lemma {:induction false} CutStacks(V: Pages, levels: seq<Level>, g: nat, j: nat, L: Level, n: nat, mid: nat,
                                     pages': Pages)
    requires 0 < g < |levels| && j < |levels[g]| && Stack(V, levels, 0, |levels| - 1) && LeavesBounded(V, levels[0])
    requires CutPage(V, levels, g, j, L, n, mid, pages')
    ensures Stack(V, levels, 0, g) && Stack(pages', levels, g, |levels| - 1) && Stack(pages', levels, 0, g - 1)
            && LeavesBounded(pages', levels[0])
    ensures Fenced(levels[0])
  {
    hide Rank, FenceRank, Expand, SortedFences, Joined, Rewritten;
    StackElsewhere(V, pages', levels, g, |levels| - 1);
    StackElsewhere(V, pages', levels, 0, g - 1);
    assert Agree(V, pages', levels[0]);
    forall x | 0 <= x < |levels[0]| ensures LeafBounded(pages', levels[0], x) {
      assert LeafBounded(V, levels[0], x);
    }
  }

  lemma {:induction false} CutSearchable(V: Pages, levels: seq<Level>, g: nat, j: nat, L: Level, n: nat, mid: nat,
                                         pages': Pages, k: Bytes)
    requires 0 < g < |levels| && j < |levels[g]| && Stack(V, levels, 0, |levels| - 1) && LeavesBounded(V, levels[0])
    requires CutPage(V, levels, g, j, L, n, mid, pages') && L[|L| - 1].fence == levels[g][j].fence
             && ItemsOk(L[..|L| - 1])
    ensures Searchable(pages', At(levels, |levels| - 1, k), |levels| - 1)
  {
    hide Rank, FenceRank, CoverIndex, Expand, SortedFences, LeavesBounded, Stack;
    CutStacks(V, levels, g, j, L, n, mid, pages');
    StackAt(V, levels, g);
    forall y | 0 <= y < |levels[g]| ensures Searchable(pages', levels[g][y].child, g) {
      PageSearchable(V, levels, g, j, L, n, mid, pages', y);
    }
    TopFenced(V, levels);
    UpSearchable(pages', levels, g, |levels| - 1, |levels| - 1, CoverIndex(levels[|levels| - 1], k));
  }

  lemma {:induction false} TopFenced(pages: Pages, levels: seq<Level>)
    requires |levels| > 0 && Stack(pages, levels, 0, |levels| - 1)
    ensures Fenced(levels[|levels| - 1])
  {
  }

  lemma {:induction false} PageSearchable(V: Pages, levels: seq<Level>, g: nat, j: nat, L: Level, n: nat, mid: nat,
                                          pages': Pages, y: nat)
    requires 0 < g < |levels| && j < |levels[g]| && y < |levels[g]| && Joined(V, levels[g], levels[g - 1])
             && Fenced(levels[g]) && Fenced(levels[g - 1])
    requires CutPage(V, levels, g, j, L, n, mid, pages') && L[|L| - 1].fence == levels[g][j].fence
             && ItemsOk(L[..|L| - 1])
    requires Stack(pages', levels, 0, g - 1) && LeavesBounded(pages', levels[0])
    ensures Searchable(pages', levels[g][y].child, g)
  {
    hide Rank, FenceRank, CoverIndex, Expand, Stack, LeavesBounded;
    var p := pages'[levels[g][y].child];
    var off := |Expand(V, levels[g][..y])|;
    Children(V, levels[g], levels[g - 1], y);
    var M := Entries(V[levels[g][y].child], levels[g][y].fence);
    SortedOpen(V[levels[g][y].child], levels[g][y].fence);
    var U := Entries(p, Unbounded);
    if y == j {
      assert M == L;
      CutSorted(L, n, mid);
    }
    forall i | 0 <= i < |U| ensures Searchable(pages', U[i].child, g - 1) {
      var c := if y != j || i < n then i else mid;
      assert U[i].child == M[c].child && levels[g - 1][off + c] == M[c];
      StackSearchable(pages', levels, g - 1, g - 1, off + c);
    }
  }

  lemma {:induction false} CutSorted(L: Level, n: nat, mid: nat)
    requires n <= mid < |L| - 1 && ItemsOk(L[..|L| - 1]) && SortedFences(L)
    ensures SortedFences(Entries(Internal(L[..n], L[mid].child), Unbounded)) && ItemsOk(L[..n])
  {
    hide Rank;
    var U := Entries(Internal(L[..n], L[mid].child), Unbounded);
    forall y | 0 <= y < |L| - 1 ensures ItemOk(L[y]) { assert L[y] == L[..|L| - 1][y]; }
    forall y, z | 0 <= y < z < |U| ensures FenceRank(U[y].fence) < FenceRank(U[z].fence) {
      assert U[y] == L[y];
      assert z < n ==> U[z] == L[z];
    }
  }

  // ---------- The refusal of a parent ----------

  lemma {:induction false} PrefixByFences(a: seq<Entry>, b: seq<Entry>)
    requires |a| == |b| && forall i :: 0 <= i < |a| ==> a[i].fence == b[i].fence
    ensures |InternalPrefix(a)| == |InternalPrefix(b)| && InternalFits(a) == InternalFits(b)
  {
    hide InternalSize;
    InternalSizeByFences(a, b);
    if !InternalFits(a) {
      assert a != [] by { assert InternalSize([]) <= CAPACITY by { NoSize(); } }
      PrefixByFences(a[..|a| - 1], b[..|b| - 1]);
    }
  }

  lemma {:induction false} NoSize()
    ensures InternalSize([]) == 0
  {
  }

  /** What is kept does not depend on the id of the new page. */
  lemma {:induction false} KeptStep(pages: Pages, levels: seq<Level>, h: nat, key: Bytes, sep: Bytes, right: PageId,
                                    k: Bytes)
    requires UpperLevels(pages, levels, h) && h + 1 < |levels|
    ensures KeptAbove(pages, levels, h, key, sep, k) <==>
            KeptByParent(pages, levels, h, key, ParentAfter(pages, levels[h + 1], key, sep, right), k)
  {
    var L := ParentAfter(pages, levels[h + 1], key, sep, right);
    var L0 := ParentAfter(pages, levels[h + 1], key, sep, INVALID_PAGE_ID);
    ParentFences(pages, levels[h + 1], key, sep, right, INVALID_PAGE_ID);
    hide ParentAfter, UpperLevels;
    KeptByFences(pages, levels, h, key, L, L0, k);
  }

  lemma {:induction false} KeptByFences(pages: Pages, levels: seq<Level>, h: nat, key: Bytes, L: Level, L0: Level,
                                        k: Bytes)
    requires |L| == |L0| >= 2 && h + 1 < |levels| && |levels[h + 1]| > 0
             && levels[h + 1][|levels[h + 1]| - 1].fence.Unbounded?
    requires forall i :: 0 <= i < |L| ==> L[i].fence == L0[i].fence
    ensures KeptByParent(pages, levels, h, key, L, k) == KeptByParent(pages, levels, h, key, L0, k)
  {
    hide KeptAbove, InternalFits, CoverIndex, Rank, InternalPrefix, Covers;
    var mid := (|L| - 1) / 2;
    PrefixByFences(L[..|L| - 1], L0[..|L| - 1]);
    PrefixByFences(L[..mid], L0[..mid]);
    PrefixByFences(L[mid + 1..|L| - 1], L0[mid + 1..|L| - 1]);
  }

  /** A parent that could not be divided: it keeps n entries and the middle one. */
  lemma {:induction false} ParentRefuses(pages: Pages, root: PageId, levels: seq<Level>, depth: map<PageId, nat>,
                                         h: nat, i: nat, j: nat, L: Level,
                                         n: nat, r: PageId, pages': Pages, k: Bytes)
    requires SplitPending(pages, root, levels, depth, h, i) && h + 1 < |levels|
             && ParentView(pages, levels[h + 1], levels[h], j, L)
    requires n <= (|L| - 1) / 2 && r !in pages && pages'.Keys == pages.Keys + {r}
    requires pages'[levels[h + 1][j].child] == Internal(L[..n], L[(|L| - 1) / 2].child)
    requires forall id :: id in pages && id != levels[h + 1][j].child ==> pages'[id] == pages[id]
    ensures AllLeaves(pages, levels[0]) && Searchable(pages', root, |levels| - 1)
    ensures Lookup(pages', root, |levels| - 1, k) ==
            if KeptUnder(levels[h + 1], j, L, n, (|L| - 1) / 2, k) then Get(ToMap(AllCells(pages, levels[0])), k)
                else None
  {
    hide Rank, FenceRank, CoverIndex, Expand, Route, Lookup, KeptUnder, SortedFences, Joined, LeavesBounded, Searchable,
        CutPage, ToMap, AllCells, Merge, Get;
    var mid := (|L| - 1) / 2;
    var V := Virtual(pages, levels[h + 1], j, L);
    VirtualStack(pages, root, levels, depth, h, i, j, L);
    CutFrom(pages, levels, depth, h, j, L, n, r, pages');
    OnlyRoot(root, levels, k);
    ParentCut(V, levels, h + 1, j, L, n, mid, pages', k);
    CutSearchable(V, levels, h + 1, j, L, n, mid, pages', k);
    VirtualAnswers(pages, V, levels[0], k);
  }

  lemma {:induction false} VirtualAnswers(pages: Pages, V: Pages, es: Level, k: Bytes)
    requires LeafLevel(pages, es) && Fenced(es) && Agree(pages, V, es)
    ensures Lookup(V, es[CoverIndex(es, k)].child, 0, k) == Get(ToMap(AllCells(pages, es)), k)
  {
    hide Rank, FenceRank, CoverIndex, ToMap, AllCells, CellValue, LeavesOk, SortedFences, Get;
    LeafAnswers(pages, es, k);
  }

  lemma {:induction false} CutFrom(pages: Pages, levels: seq<Level>, depth: map<PageId, nat>, h: nat, j: nat, L: Level,
                                   n: nat, r: PageId, pages': Pages)
    requires (forall g :: 0 <= g < |levels| ==> LevelOk(pages, depth, levels[g], g)) && h + 1 < |levels|
             && j < |levels[h + 1]| && |L| >= 2
    requires n <= (|L| - 1) / 2 && r !in pages && pages'.Keys == pages.Keys + {r}
    requires levels[h + 1][j].child in pages' && pages'[levels[h + 1][j].child]
             == Internal(L[..n], L[(|L| - 1) / 2].child)
    requires forall id :: id in pages && id != levels[h + 1][j].child ==> pages'[id] == pages[id]
    ensures CutPage(Virtual(pages, levels[h + 1], j, L), levels, h + 1, j, L, n, (|L| - 1) / 2, pages')
  {
    hide SortedFences, Rewritten;
    var V := Virtual(pages, levels[h + 1], j, L);
    assert LevelOk(pages, depth, levels[h + 1], h + 1);
    OnlyLevel(pages, levels, depth, h, j, L);
    forall x | 0 <= x < |levels| && x != h + 1 ensures Agree(V, pages', levels[x]) {
      assert LevelOk(pages, depth, levels[x], x) && Agree(pages, V, levels[x]);
    }
  }

  /** The refusal of the parent on the way, as a search sees it. */
  lemma {:induction false} RefusedAbove(pages0: Pages, levels0: seq<Level>, pages: Pages, root: PageId,
                                        levels: seq<Level>, depth: map<PageId, nat>,
                                        h: nat, key: Bytes, sep: Bytes, right: PageId, L: Level, r: PageId,
                                            pages': Pages)
    requires InFlight(pages0, levels0, pages, root, levels, depth, h, key, sep, right) && h + 1 < |levels|
             && UpperLevels(pages0, levels0, h)
    requires L == ParentAfter(pages0, levels0[h + 1], key, sep, right) && levels[h + 1] == levels0[h + 1]
    requires ParentView(pages, levels[h + 1], levels[h], CoverIndex(levels0[h + 1], key), L)
             && AllLeaves(pages, levels[0])
    requires !InternalFits(L[..|L| - 1])
    requires var mid := (|L| - 1) / 2;
             var P := levels[h + 1][CoverIndex(levels0[h + 1], key)].child;
             && (!InternalFits(L[..mid]) || !InternalFits(L[mid + 1..|L| - 1]))
             && r !in pages && pages'.Keys == pages.Keys + {r} && P in pages'
             && pages'[P] == Internal(InternalPrefix(L[..mid]), L[mid].child)
             && forall id :: id in pages && id != P ==> pages'[id] == pages[id]
    ensures FindsAbove(pages', root, |levels| - 1, ToMap(AllCells(pages, levels[0])), pages0, levels0, h, key, sep)
  {
    hide Rank, FenceRank, CoverIndex, Lookup, KeptUnder, Searchable, ToMap, AllCells, ParentAfter, ParentView,
        SplitPending, InternalSize, UpperLevels, Get, KeptAbove, Merge, Expand;
    var mid, j := (|L| - 1) / 2, CoverIndex(levels0[h + 1], key);
    var n := |InternalPrefix(L[..mid])|;
    assert InternalPrefix(L[..mid]) == L[..n];
    forall k ensures Searchable(pages', root, |levels| - 1)
      ensures Lookup(pages', root, |levels| - 1, k) == if KeptAbove(pages0, levels0, h, key, sep, k)
                                                         then Get(ToMap(AllCells(pages, levels[0])), k) else None
    {
      ParentRefuses(pages, root, levels, depth, h, CoverIndex(levels0[h], key), j, L, n, r, pages', k);
      KeptStep(pages0, levels0, h, key, sep, right, k);
      UpperShape(pages0, levels0, h);
    }
    assert Searchable(pages', root, |levels| - 1) by {
      ParentRefuses(pages, root, levels, depth, h, CoverIndex(levels0[h], key), j, L, n, r, pages', []);
    }
  }

  lemma {:induction false} UpperShape(pages: Pages, levels: seq<Level>, h: nat)
    requires UpperLevels(pages, levels, h) && h + 1 < |levels|
    ensures |levels[h + 1]| > 0 && levels[h + 1][|levels[h + 1]| - 1].fence.Unbounded?
            && AllInternal(pages, levels[h + 1])
  {
  }

  // ---------- The refusal as a whole ----------

  lemma {:induction false} TreeAnswers(pages: Pages, root: PageId, levels: seq<Level>, depth: map<PageId, nat>,
                                       k: Bytes)
    requires WellFormed(pages, root, levels, depth)
    ensures AllLeaves(pages, levels[0]) && Searchable(pages, root, |levels| - 1)
    ensures Lookup(pages, root, |levels| - 1, k) == Get(ToMap(AllCells(pages, levels[0])), k)
  {
    hide Rank, FenceRank, CoverIndex, Lookup, Searchable, ToMap, AllCells, Get, LeavesBounded, Joined, SortedFences;
    TreeStack(pages, root, levels, depth);
    Shapes(pages, root, levels, depth);
    StackSearchable(pages, levels, |levels| - 1, |levels| - 1, 0);
    OnlyRoot(root, levels, k);
    Reach(pages, levels, 0, |levels| - 1, |levels| - 1, k);
    AgreeSelf(pages, levels[0]);
    VirtualAnswers(pages, pages, levels[0], k);
  }

  lemma {:induction false} AgreeSelf(pages: Pages, es: Level)
    requires AllLeaves(pages, es)
    ensures Agree(pages, pages, es)
  {
  }

  lemma {:induction false} KeptMovesUp(pages: Pages, levels: seq<Level>, h: nat, key: Bytes, sep: Bytes, right: PageId,
                                       L: Level)
    requires UpperLevels(pages, levels, h) && h + 1 < |levels|
             && L == ParentAfter(pages, levels[h + 1], key, sep, right)
    requires !InternalFits(L[..|L| - 1]) && L[(|L| - 1) / 2].fence.Key?
    requires InternalFits(L[..(|L| - 1) / 2]) && InternalFits(L[(|L| - 1) / 2 + 1..|L| - 1])
    ensures forall k :: KeptAbove(pages, levels, h, key, sep, k)
              == KeptAbove(pages, levels, h + 1, key, L[(|L| - 1) / 2].fence.key, k)
  {
    hide KeptAbove, ParentAfter, UpperLevels, CoverIndex, KeptUnder;
    UpperShape(pages, levels, h);
    forall k ensures KeptAbove(pages, levels, h, key, sep, k)
        == KeptAbove(pages, levels, h + 1, key, L[(|L| - 1) / 2].fence.key, k) {
      KeptStep(pages, levels, h, key, sep, right, k);
    }
  }

  lemma {:induction false} SameFinds(pages: Pages, root: PageId, top: nat, m: map<Bytes, Bytes>, pages0: Pages,
                                     levels0: seq<Level>, key: Bytes,
                                     h: nat, sep: Bytes, h': nat, sep': Bytes)
    requires FindsAbove(pages, root, top, m, pages0, levels0, h, key, sep)
    requires forall k :: KeptAbove(pages0, levels0, h, key, sep, k) == KeptAbove(pages0, levels0, h', key, sep', k)
    ensures FindsAbove(pages, root, top, m, pages0, levels0, h', key, sep')
  {
    hide KeptAbove, Lookup, Searchable;
  }

  /** All pages but c hold what they held; only the links of leaves may differ. */
  ghost predicate SameButLinks(pages: Pages, pages': Pages, c: PageId) {
    forall id :: id in pages && id != c ==>
      && id in pages' && (pages[id].Internal? ==> pages'[id] == pages[id])
      && (pages[id].Leaf? ==> pages'[id].Leaf? && pages'[id].cells == pages[id].cells)
  }

  /** A leaf that could not be divided. */
  lemma {:induction false} LeafRefuses(pages: Pages, root: PageId, levels: seq<Level>, depth: map<PageId, nat>,
                                       key: Bytes, value: Bytes, r: PageId, pages': Pages)
    requires WellFormed(pages, root, levels, depth) && LevelShapes(levels) && AllLeaves(pages, levels[0])
             && LeafItemOk(LeafItem(key, value))
    requires var c := OnWay(levels, 0, key);
             var cells := Put(pages[c].cells, key, value);
             var mid := |cells| / 2;
             && (!LeafFits(cells[..mid]) || !LeafFits(cells[mid..]))
             && r !in pages && pages'.Keys == pages.Keys + {r} && pages'[c].Leaf?
                 && pages'[c].cells == LeafPrefix(cells[..mid])
             && SameButLinks(pages, pages', c)
    ensures FindsKept(pages', root, |levels| - 1, ToMap(AllCells(pages, levels[0]))[key := value], pages, levels, key,
                value)
  {
    hide Rank, FenceRank, CoverIndex, LowerBound, ToMap, AllCells, WellFormed, Put, LeafSize, Lookup, Searchable, Get,
        KeptInLeaf, LeafFits;
    var i := CoverIndex(levels[0], key);
    var cells := Put(pages[levels[0][i].child].cells, key, value);
    var mid := |cells| / 2;
    var n := |LeafPrefix(cells[..mid])|;
    assert cells[..mid][..n] == cells[..n];
    RefusedPages(pages, root, levels, depth, key, cells[..n], r, pages');
    forall k ensures Searchable(pages', root, |levels| - 1)
      ensures Lookup(pages', root, |levels| - 1, k) ==
              if Kept(pages, levels, key, value, k) then Get(ToMap(AllCells(pages, levels[0]))[key := value], k)
                  else None
    {
      LeafCut(pages, root, levels, depth, key, value, n, pages', k);
    }
    assert Searchable(pages', root, |levels| - 1) by { LeafCut(pages, root, levels, depth, key, value, n, pages', []); }
  }

  lemma {:induction false} RefusedPages(pages: Pages, root: PageId, levels: seq<Level>, depth: map<PageId, nat>,
                                        key: Bytes, kept: seq<LeafItem>, r: PageId, pages': Pages)
    requires WellFormed(pages, root, levels, depth) && LevelShapes(levels) && AllLeaves(pages, levels[0])
    requires var c := OnWay(levels, 0, key);
             && r !in pages && pages'.Keys == pages.Keys + {r} && pages'[c].Leaf? && pages'[c].cells == kept
             && SameButLinks(pages, pages', c)
    ensures CutLeaf(pages, levels[0], CoverIndex(levels[0], key), kept, pages')
    ensures forall g :: 0 < g < |levels| ==> Agree(pages, pages', levels[g])
  {
    hide Rank, FenceRank, CoverIndex, Expand, SortedFences, LeafOk;
    assert LevelOk(pages, depth, levels[0], 0);
    forall g | 0 < g < |levels| ensures Agree(pages, pages', levels[g]) {
      assert LevelOk(pages, depth, levels[g], g) && Linked(pages, levels[g], levels[g - 1]);
    }
  }

  lemma {:induction false} KeptIsAbove(pages: Pages, root: PageId, top: nat, m: map<Bytes, Bytes>, pages0: Pages,
                                       levels0: seq<Level>, key: Bytes, value: Bytes)
    requires LevelShapes(levels0) && AllLeaves(pages0, levels0[0])
    requires var cells := Put(pages0[OnWay(levels0, 0, key)].cells, key, value);
             var mid := |cells| / 2;
             mid < |cells| && LeafFits(cells[..mid]) && LeafFits(cells[mid..])
                 && FindsAbove(pages, root, top, m, pages0, levels0, 0, key, cells[mid].key)
    ensures FindsKept(pages, root, top, m, pages0, levels0, key, value)
  {
    hide Rank, CoverIndex, Put, LeafSize, KeptAbove, Lookup, Searchable, Get;
  }

  /** The two parts of a divided leaf can be rewritten one after the other. */
  lemma {:induction false} LeafParts(pages: Pages, c: PageId, left: seq<LeafItem>, right: seq<LeafItem>, r: PageId)
    requires c in pages && pages[c].Leaf? && pages[c].next != c && r !in pages
    ensures var S := SplitLeafPages(pages, c, left, right, r);
            && S.Keys == pages.Keys + {r} && S[c].Leaf? && S[c].cells == left && S[r].Leaf? && SameButLinks(pages, S, c)
            && (forall left' :: S[c := S[c].(cells := left')] == SplitLeafPages(pages, c, left', right, r))
            && (forall right' :: S[r := S[r].(cells := right')] == SplitLeafPages(pages, c, left, right', r))
  {
    var S := SplitLeafPages(pages, c, left, right, r);
    forall left' ensures S[c := S[c].(cells := left')] == SplitLeafPages(pages, c, left', right, r) { }
    forall right' ensures S[r := S[r].(cells := right')] == SplitLeafPages(pages, c, left, right', r) { }
  }

  lemma {:induction false} Halves(L: Level, items: seq<Entry>, rightmost: PageId)
    requires |L| == |items| + 1 && items == L[..|L| - 1] && L[|L| - 1].child == rightmost && |items| > 0
    ensures var mid := |items| / 2;
            && mid == (|L| - 1) / 2 && L[..mid] == items[..mid] && L[mid + 1..|L| - 1] == items[mid + 1..]
                && L[mid] == items[mid]
            && Rewritten(L[..mid + 1]) == Internal(items[..mid], items[mid].child)
            && Rewritten(L[mid + 1..]) == Internal(items[mid + 1..], rightmost)
  {
    assert L == items + [L[|L| - 1]];
    EntriesOf(L, items, rightmost, L[|L| - 1].fence);
  }

  /** When a leaf cannot be divided, a search finds none of its upper half any more; and that half had a
      stored key. */
  lemma {:induction false} UpperHalfLost(pages: Pages, root: PageId, levels: seq<Level>, depth: map<PageId, nat>,
                                         key: Bytes, value: Bytes) returns (lost: Bytes)
    requires WellFormed(pages, root, levels, depth) && LevelShapes(levels) && AllLeaves(pages, levels[0])
             && LeafItemOk(LeafItem(key, value))
    requires var cells := Put(pages[OnWay(levels, 0, key)].cells, key, value);
             !LeafFits(cells) && (!LeafFits(cells[..|cells| / 2]) || !LeafFits(cells[|cells| / 2..]))
    ensures var cells := Put(pages[OnWay(levels, 0, key)].cells, key, value);
            |cells| >= 3 && forall x :: |cells| / 2 <= x < |cells| ==> !Kept(pages, levels, key, value, cells[x].key)
    ensures lost in ToMap(AllCells(pages, levels[0])) && !Kept(pages, levels, key, value, lost)
  {
    hide Rank, FenceRank, CoverIndex, LowerBound, ToMap, AllCells, Put, WellFormed, LeafSize;
    var es := levels[0];
    var i := CoverIndex(es, key);
    CoveringLeaf(pages, root, levels, depth, key, value);
    var cells := Put(pages[es[i].child].cells, key, value);
    PutOk(pages[es[i].child].cells, key, value, LowRank(es, i), FenceRank(es[i].fence));
    OverflowCounts(cells, []);
    var mid := |cells| / 2;
    var n := |LeafPrefix(cells[..mid])|;
    forall x | mid <= x < |cells| ensures !Kept(pages, levels, key, value, cells[x].key) {
      RanksAscend(cells, n, x);
      assert Covers(es, i, cells[x].key);
    }
    assert Rank(cells[mid].key) < Rank(cells[mid + 1].key);
    var x := if cells[mid].key != key then mid else mid + 1;
    lost := cells[x].key;
    assert Covers(es, i, lost);
    NewValue(pages, es, i, key, value, lost);
    LowerBoundUnique(cells, lost, x);
  }
}
