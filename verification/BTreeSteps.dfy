/**
 The page rewrites of BTree.Insert and BTree.Delete, one lemma per rewrite: what each does to
 the levels of the tree and why the shape survives it.
 */
module BTreeSteps {
  import opened ByteOrder
  import opened Cells
  import opened BTreeLevels

  /** Rewriting pages of level h, and adding new ones to it, leaves every other level alone. */
  lemma {:induction false} OtherLevels(pages: Pages, pages': Pages, depth: map<PageId, nat>, depth': map<PageId, nat>,
                                       levels: seq<Level>, h: nat)
    requires forall g :: 0 <= g < |levels| ==> LevelOk(pages, depth, levels[g], g)
    requires forall id :: id in pages && id in depth ==> id in pages' && id in depth' && depth'[id] == depth[id]
    requires forall id :: id in pages && id in depth && depth[id] != h ==> pages'[id] == pages[id]
    ensures forall g :: 0 <= g < |levels| ==> LevelOk(pages', depth', levels[g], g)
    ensures forall g :: 0 <= g < |levels| && g != h ==> Agree(pages, pages', levels[g])
  {
    forall g | 0 <= g < |levels|
      ensures LevelOk(pages', depth', levels[g], g)
      ensures g != h ==> Agree(pages, pages', levels[g])
    {
      assert LevelOk(pages, depth, levels[g], g);
    }
  }

  // ---------- Rewriting a leaf in place ----------

  lemma {:induction false} LeafRewritten(pages: Pages, root: PageId, levels: seq<Level>, depth: map<PageId, nat>,
                                         i: nat, cells: seq<LeafItem>)
    requires WellFormed(pages, root, levels, depth) && i < |levels[0]|
    requires CellsOk(cells, LowRank(levels[0], i), FenceRank(levels[0][i].fence))
    ensures levels[0][i].child in pages && pages[levels[0][i].child].Leaf?
    ensures WellFormed(pages[levels[0][i].child := pages[levels[0][i].child].(cells := cells)], root, levels, depth)
  {
    var c := levels[0][i].child;
    assert LeafOk(pages, levels[0], i);
    var pages' := pages[c := pages[c].(cells := cells)];
    assert LevelOk(pages, depth, levels[0], 0);
    OtherLevels(pages, pages', depth, depth, levels, 0);
    hide LevelOk;
    forall h | 1 <= h < |levels| ensures Linked(pages', levels[h], levels[h - 1]) {
      LinkedFrame(pages, pages', levels[h], levels[h - 1]);
    }
    forall x | 0 <= x < |levels[0]| ensures LeafOk(pages', levels[0], x) {
      assert LeafOk(pages, levels[0], x);
    }
  }

  // ---------- Splitting a leaf ----------

  function SplitLeafPages(pages: Pages, c: PageId, left: seq<LeafItem>, right: seq<LeafItem>, r: PageId): Pages
    requires c in pages && pages[c].Leaf?
  {
    var leaf := pages[c];
    var linked :=
      if leaf.next != INVALID_PAGE_ID && leaf.next in pages && pages[leaf.next].Leaf?
      then pages[leaf.next := pages[leaf.next].(prev := r)] else pages;
    linked[c := Leaf(left, leaf.prev, r)][r := Leaf(right, c, leaf.next)]
  }

  lemma {:induction false} SplitCells(cells: seq<LeafItem>, mid: nat, low: real, high: real)
    requires SortedCells(cells) && Within(cells, low, high) && LeafItemsOk(cells) && 0 < mid < |cells|
    requires LeafFits(cells[..mid]) && LeafFits(cells[mid..])
    ensures low < Rank(cells[mid].key) < high
    ensures CellsOk(cells[..mid], low, Rank(cells[mid].key))
    ensures CellsOk(cells[mid..], Rank(cells[mid].key), high)
  {
    assert Rank(cells[0].key) < Rank(cells[mid].key);
  }

  /** Which leaf pages a split changes. */
  lemma {:induction false} SplitLeafLookup(pages: Pages, es: Level, i: nat, left: seq<LeafItem>, right: seq<LeafItem>,
                                           r: PageId)
    requires Distinct(es) && i < |es| && r !in pages
    requires forall x :: 0 <= x < |es| ==> es[x].child in pages && pages[es[x].child].Leaf?
                                             && es[x].child != INVALID_PAGE_ID
    requires pages[es[i].child].next == ChildOr(es, i + 1)
    ensures var pages' := SplitLeafPages(pages, es[i].child, left, right, r);
            && pages'.Keys == pages.Keys + {r}
            && pages'[es[i].child] == Leaf(left, pages[es[i].child].prev, r)
            && pages'[r] == Leaf(right, es[i].child, ChildOr(es, i + 1))
            && (i + 1 < |es| ==> pages'[es[i + 1].child] == pages[es[i + 1].child].(prev := r))
            && (forall id :: id in pages && id != es[i].child && id != ChildOr(es, i + 1) ==> pages'[id] == pages[id])
  {
  }

  lemma {:induction false} SplitLeaves(pages: Pages, es: Level, i: nat, left: seq<LeafItem>, right: seq<LeafItem>,
                                       r: PageId)
    requires Distinct(es) && LeavesOk(pages, es) && i < |es| && r !in pages && |right| > 0
    requires forall x :: 0 <= x < |es| ==> es[x].child != INVALID_PAGE_ID
    requires LeafOk(pages, es, i)
    requires CellsOk(left, LowRank(es, i), Rank(right[0].key))
    requires CellsOk(right, Rank(right[0].key), FenceRank(es[i].fence))
    ensures LeavesOk(SplitLeafPages(pages, es[i].child, left, right, r), SplitAt(es, i, Key(right[0].key), r))
  {
    hide CellsOk;
    var pages' := SplitLeafPages(pages, es[i].child, left, right, r);
    var es' := SplitAt(es, i, Key(right[0].key), r);
    forall x | 0 <= x < |es| ensures es[x].child in pages && pages[es[x].child].Leaf? {
      assert LeafOk(pages, es, x);
    }
    SplitLeafLookup(pages, es, i, left, right, r);
    hide SplitLeafPages;
    forall x | 0 <= x < |es'| ensures LeafOk(pages', es', x) {
      var o := if x <= i then x else x - 1;
      assert LeafOk(pages, es, o);
      assert es'[x].child == if x == i + 1 then r else es[o].child;
      if x > 0 { assert es'[x - 1].child == if x == i + 2 then r
                                              else if x == i + 1 then es[i].child else es[o - 1].child; }
      if x + 1 < |es'| { assert es'[x + 1].child == if x == i then r else es[o + 1].child; }
      assert LowRank(es', x) == if x == i + 1 then Rank(right[0].key) else LowRank(es, o);
    }
  }

  lemma {:induction false} LeafLevelSplit(pages: Pages, es: Level, depth: map<PageId, nat>, i: nat,
                                          cells: seq<LeafItem>, mid: nat, r: PageId)
    requires LevelOk(pages, depth, es, 0) && LeavesOk(pages, es) && i < |es|
    requires r !in pages && r != INVALID_PAGE_ID
    requires SortedCells(cells) && LeafItemsOk(cells) && Within(cells, LowRank(es, i), FenceRank(es[i].fence))
    requires 0 < mid < |cells| && LeafFits(cells[..mid]) && LeafFits(cells[mid..])
    ensures es[i].child in pages && pages[es[i].child].Leaf?
    ensures var pages' := SplitLeafPages(pages, es[i].child, cells[..mid], cells[mid..], r);
            var es' := SplitAt(es, i, Key(cells[mid].key), r);
            && pages'.Keys == pages.Keys + {r}
            && LevelOk(pages', depth[r := 0], es', 0) && LeavesOk(pages', es')
            && forall id :: id in pages && id in depth && depth[id] != 0 ==> pages'[id] == pages[id]
  {
    assert LeafOk(pages, es, i);
    var left, right, sep := cells[..mid], cells[mid..], Key(cells[mid].key);
    SplitCells(cells, mid, LowRank(es, i), FenceRank(es[i].fence));
    hide CellsOk, SortedCells, Within;
    var pages' := SplitLeafPages(pages, es[i].child, left, right, r);
    SplitLeaves(pages, es, i, left, right, r);
    forall x | 0 <= x < |es| ensures es[x].child in pages && pages[es[x].child].Leaf? {
      assert LeafOk(pages, es, x);
    }
    SplitLeafLookup(pages, es, i, left, right, r);
    hide SplitLeafPages;
    SplitLevelOk(pages, pages', depth, es, 0, i, sep, r);
  }

  lemma {:induction false} LeafSplit(pages: Pages, root: PageId, levels: seq<Level>, depth: map<PageId, nat>, i: nat,
                                     cells: seq<LeafItem>, mid: nat, r: PageId)
    requires WellFormed(pages, root, levels, depth) && i < |levels[0]|
    requires r !in pages && r != INVALID_PAGE_ID
    requires SortedCells(cells) && LeafItemsOk(cells) && Within(cells, LowRank(levels[0], i),
                 FenceRank(levels[0][i].fence))
    requires 0 < mid < |cells| && LeafFits(cells[..mid]) && LeafFits(cells[mid..])
    ensures levels[0][i].child in pages && pages[levels[0][i].child].Leaf?
    ensures SplitPending(SplitLeafPages(pages, levels[0][i].child, cells[..mid], cells[mid..], r), root,
                         levels[0 := SplitAt(levels[0], i, Key(cells[mid].key), r)], depth[r := 0], 0, i)
  {
    hide SplitLeafPages, LeafOk, CellsOk, SortedCells, Within, Linked, LevelOk, LeavesOk, LeafSize, Rank;
    var es := levels[0];
    LeafLevelSplit(pages, es, depth, i, cells, mid, r);
    var pages' := SplitLeafPages(pages, es[i].child, cells[..mid], cells[mid..], r);
    OtherLevels(pages, pages', depth, depth[r := 0], levels, 0);
    MergeSplit(es, i, Key(cells[mid].key), r);
    assert LeafItemOk(cells[mid]);
    forall g | 1 <= g < |levels| ensures Linked(pages', levels[g], levels[g - 1]) {
      LinkedFrame(pages, pages', levels[g], levels[g - 1]);
    }
  }

  // ---------- A parent that takes up the split of a child ----------

  /** Given the entries L for the j-th page of a level, the level beneath is as it should be. */
  ghost predicate ParentView(pages: Pages, upper: Level, lower: Level, j: nat, L: Level) {
    && j < |upper| && |L| >= 2
    && AllInternal(pages, upper[..j]) && AllInternal(pages, upper[j + 1..])
    && lower == Expand(pages, upper[..j]) + L + Expand(pages, upper[j + 1..])
    && ItemsOk(L[..|L| - 1]) && L[|L| - 1].fence == upper[j].fence
    && forall x :: 0 <= x < |L| - 1 ==> LowRank(upper, j) < FenceRank(L[x].fence) < FenceRank(upper[j].fence)
  }

  /** The entries of the parent after it has learnt of the split of its k-th child. */
  lemma {:induction false} ParentEntries(pages: Pages, root: PageId, levels: seq<Level>, depth: map<PageId, nat>,
                                         h: nat, i: nat, j: nat, k: nat)
    requires SplitPending(pages, root, levels, depth, h, i) && h + 1 < |levels|
    requires ChildPosition(pages, levels[h + 1], j, k, i)
    ensures var e := levels[h + 1][j];
            ParentView(pages, levels[h + 1], levels[h], j,
                       SplitAt(Entries(pages[e.child], e.fence), k, levels[h][i].fence, levels[h][i + 1].child))
  {
    hide Rank, FenceRank, InternalSize, LeavesOk;
    var upper, lower := levels[h + 1], levels[h];
    LowerSegment(pages, upper, lower, i, j, k);
    assert LevelOk(pages, depth, lower, h);
    var L := Entries(pages[upper[j].child], upper[j].fence);
    var L' := SplitAt(L, k, lower[i].fence, lower[i + 1].child);
    var before := Expand(pages, upper[..j]);
    assert NodeOk(pages[upper[j].child]);
    if j > 0 { ExpandLast(pages, upper[..j]); }
    forall x | 0 <= x < |L'| - 1
      ensures ItemOk(L'[x])
      ensures FenceRank(L'[x].fence) < FenceRank(upper[j].fence)
      ensures LowRank(upper, j) < FenceRank(L'[x].fence)
    {
      assert lower[|before| + x] == L'[x] && lower[|before| + |L'| - 1] == L'[|L'| - 1];
      assert FenceRank(lower[|before| + x].fence) < FenceRank(lower[|before| + |L'| - 1].fence);
      if x < k { assert L'[x] == L[x] == pages[upper[j].child].items[x]; }
      if x > k { assert L'[x].fence == L[x - 1].fence == pages[upper[j].child].items[x - 1].fence; }
      if j > 0 { assert lower[|before| - 1] == before[|before| - 1]; }
    }
  }

  function Rewritten(L: Level): Page
    requires L != []
  {
    Internal(L[..|L| - 1], L[|L| - 1].child)
  }

  lemma {:induction false} AbsorbLinked(pages: Pages, upper: Level, lower: Level, j: nat, L: Level)
    requires Distinct(upper) && ParentView(pages, upper, lower, j, L) && InternalFits(L[..|L| - 1])
    requires forall x :: 0 <= x < |upper| ==> upper[x].child in pages && NodeOk(pages[upper[x].child])
    ensures Linked(pages[upper[j].child := Rewritten(L)], upper, lower)
  {
    var e := upper[j];
    var pages' := pages[e.child := Rewritten(L)];
    assert Entries(pages'[e.child], e.fence) == L;
    assert Expand(pages', [e][..0]) == [];
    assert Expand(pages', [e]) == L;
    ExpandReplace(pages, pages', upper, j, [e]);
    assert upper == upper[..j] + [e] + upper[j + 1..];
  }

  lemma {:induction false} ParentAbsorbs(pages: Pages, root: PageId, levels: seq<Level>, depth: map<PageId, nat>,
                                         h: nat, i: nat, j: nat, L: Level)
    requires SplitPending(pages, root, levels, depth, h, i) && h + 1 < |levels|
    requires ParentView(pages, levels[h + 1], levels[h], j, L) && InternalFits(L[..|L| - 1])
    ensures WellFormed(pages[levels[h + 1][j].child := Rewritten(L)], root, levels, depth)
  {
    hide Expand, SortedFences, Rewritten, NodeOk, LeavesOk, InternalSize;
    var pages' := pages[levels[h + 1][j].child := Rewritten(L)];
    assert LevelOk(pages, depth, levels[h + 1], h + 1);
    AbsorbLinked(pages, levels[h + 1], levels[h], j, L);
    OtherLevels(pages, pages', depth, depth, levels, h + 1);
    hide LevelOk, Linked;
    UpperFrame(pages, pages', levels, h);
  }

  lemma {:induction false} UpperFrame(pages: Pages, pages': Pages, levels: seq<Level>, h: nat)
    requires h + 1 < |levels| && LeavesOk(pages, levels[0])
    requires forall g :: 1 <= g < |levels| && g != h + 1 ==> Linked(pages, levels[g], levels[g - 1])
    requires forall g :: 0 <= g < |levels| && g != h + 1 ==> Agree(pages, pages', levels[g])
    ensures LeavesOk(pages', levels[0])
    ensures forall g :: 1 <= g < |levels| && g != h + 1 ==> Linked(pages', levels[g], levels[g - 1])
  {
    LeavesFrame(pages, pages', levels[0]);
    forall g | 1 <= g < |levels| && g != h + 1 ensures Linked(pages', levels[g], levels[g - 1]) {
      LinkedFrame(pages, pages', levels[g], levels[g - 1]);
    }
  }

  /** The two pages an overflowing parent is divided into, around its middle item. */
  function SplitParentPages(pages: Pages, p: PageId, L: Level, r: PageId): Pages
    requires |L| >= 2
  {
    var mid := (|L| - 1) / 2;
    pages[p := Rewritten(L[..mid + 1])][r := Rewritten(L[mid + 1..])]
  }

  lemma {:induction false} ParentSplits(pages: Pages, root: PageId, levels: seq<Level>, depth: map<PageId, nat>, h: nat,
                                        i: nat, j: nat, L: Level, r: PageId)
    requires SplitPending(pages, root, levels, depth, h, i) && h + 1 < |levels|
    requires ParentView(pages, levels[h + 1], levels[h], j, L) && !InternalFits(L[..|L| - 1])
    requires var mid := (|L| - 1) / 2; InternalFits(L[..mid]) && InternalFits(L[mid + 1..|L| - 1])
    requires r !in pages && r != INVALID_PAGE_ID
    ensures SplitPending(SplitParentPages(pages, levels[h + 1][j].child, L, r), root,
                         levels[h + 1 := SplitAt(levels[h + 1], j, L[(|L| - 1) / 2].fence, r)], depth[r := h + 1],
                             h + 1, j)
  {
    hide Expand, SortedFences, NodeOk, LeavesOk, InternalSize, LevelOk, Linked, SplitParentPages, SplitAt, Merge;
    var upper := levels[h + 1];
    var mid := (|L| - 1) / 2;
    var pages' := SplitParentPages(pages, upper[j].child, L, r);
    PromotedLevel(pages, depth, upper, Merge(levels[h], i), levels[h], h + 1, j, L, r);
    MergeSplit(upper, j, L[mid].fence, r);
    OtherLevels(pages, pages', depth, depth[r := h + 1], levels, h + 1);
    UpperFrame(pages, pages', levels, h);
  }

  lemma {:induction false} PromotedLevel(pages: Pages, depth: map<PageId, nat>, upper: Level, merged: Level,
                                         lower: Level, h: nat, j: nat, L: Level, r: PageId)
    requires LevelOk(pages, depth, upper, h) && ParentView(pages, upper, lower, j, L) && !InternalFits(L[..|L| - 1])
    requires Linked(pages, upper, merged)
    requires var mid := (|L| - 1) / 2; InternalFits(L[..mid]) && InternalFits(L[mid + 1..|L| - 1])
    requires r !in pages && r != INVALID_PAGE_ID
    ensures var mid := (|L| - 1) / 2;
            var pages' := SplitParentPages(pages, upper[j].child, L, r);
            var upper' := SplitAt(upper, j, L[mid].fence, r);
            && ItemOk(L[mid])
            && pages'.Keys == pages.Keys + {r}
            && LevelOk(pages', depth[r := h], upper', h) && Linked(pages', upper', lower)
            && forall id :: id in pages && id in depth && depth[id] != h ==> pages'[id] == pages[id]
  {
    hide Expand, SortedFences, NodeOk, InternalSize, Rewritten;
    var mid := (|L| - 1) / 2;
    var pages' := SplitParentPages(pages, upper[j].child, L, r);
    OverflowCounts([], L[..|L| - 1]);
    assert ItemOk(L[..|L| - 1][mid]);
    SplitLevelOk(pages, pages', depth, upper, h, j, L[mid].fence, r);
    SplitLinked(pages, pages', upper, lower, j, L, mid, r);
  }

  lemma {:induction false} SplitLinked(pages: Pages, pages': Pages, upper: Level, lower: Level, j: nat, L: Level,
                                       mid: nat, r: PageId)
    requires Distinct(upper) && r !in pages && ParentView(pages, upper, lower, j, L)
    requires forall x :: 0 <= x < |upper| ==> upper[x].child in pages && NodeOk(pages[upper[x].child])
    requires mid == (|L| - 1) / 2 && pages' == SplitParentPages(pages, upper[j].child, L, r)
    requires 0 < mid && mid + 1 < |L| - 1
    requires InternalFits(L[..mid]) && InternalFits(L[mid + 1..|L| - 1])
    ensures Linked(pages', SplitAt(upper, j, L[mid].fence, r), lower)
  {
    var e := upper[j];
    var two := [Entry(e.child, L[mid].fence), Entry(r, e.fence)];
    SplitHalves(pages', e, L, mid, r);
    hide NodeOk;
    ExpandReplace(pages, pages', upper, j, two);
    var es' := SplitAt(upper, j, L[mid].fence, r);
    assert es' == upper[..j] + two + upper[j + 1..];
    forall x | 0 <= x < |es'| ensures es'[x].child in pages' && NodeOk(pages'[es'[x].child]) {
      if x < j { assert es'[x] == upper[x]; }
      if x > j + 1 { assert es'[x] == upper[x - 1]; }
    }
  }

  lemma {:induction false} ExpandTwo(pages: Pages, a: Entry, b: Entry)
    requires a.child in pages && pages[a.child].Internal? && b.child in pages && pages[b.child].Internal?
    ensures Expand(pages, [a, b]) == Entries(pages[a.child], a.fence) + Entries(pages[b.child], b.fence)
  {
    var two := [a, b];
    assert two[..1] == [a] && two[..1][..0] == [];
    assert Expand(pages, two[..1][..0]) == [];
  }

  lemma {:induction false} SplitHalves(pages: Pages, e: Entry, L: Level, mid: nat, r: PageId)
    requires |L| >= 2 && L[|L| - 1].fence == e.fence && ItemsOk(L[..|L| - 1])
    requires 0 < mid && mid + 1 < |L| - 1
    requires InternalFits(L[..mid]) && InternalFits(L[mid + 1..|L| - 1])
    requires e.child in pages && pages[e.child] == Rewritten(L[..mid + 1])
    requires r in pages && pages[r] == Rewritten(L[mid + 1..])
    ensures NodeOk(pages[e.child]) && NodeOk(pages[r])
    ensures Expand(pages, [Entry(e.child, L[mid].fence), Entry(r, e.fence)]) == L
  {
    assert L[..mid + 1][..mid] == L[..mid];
    assert L[mid + 1..][..|L| - mid - 2] == L[mid + 1..|L| - 1];
    forall x | 0 <= x < |L| - 1 ensures ItemOk(L[x]) { assert L[x] == L[..|L| - 1][x]; }
    assert Entries(pages[e.child], L[mid].fence) == L[..mid + 1];
    assert Entries(pages[r], e.fence) == L[mid + 1..];
    ExpandTwo(pages, Entry(e.child, L[mid].fence), Entry(r, e.fence));
  }

  /** A root with one item stands over two pages. */
  lemma {:induction false} OneRoot(pages: Pages, n: PageId, e: Entry, right: PageId)
    requires n in pages && pages[n] == Internal([e], right) && ItemOk(e)
    ensures Linked(pages, [Entry(n, Unbounded)], [e, Entry(right, Unbounded)])
  {
    var top := [Entry(n, Unbounded)];
    assert [e][..0] == [] && InternalSize([e]) == EntryCost(e);
    assert top[..0] == [] && Expand(pages, top[..0]) == [];
  }

  lemma {:induction false} TopSplit(es: Level, i: nat, root: PageId)
    requires i + 1 < |es| && Merge(es, i) == [Entry(root, Unbounded)]
    ensures i == 0 && |es| == 2 && es[0].child == root && es[1].fence == Unbounded
  {
    assert |Merge(es, i)| == |es| - 1;
    assert Merge(es, i)[0].child == es[0].child;
  }

  // ---------- A new root ----------

  lemma {:induction false} RootGrows(pages: Pages, root: PageId, levels: seq<Level>, depth: map<PageId, nat>, h: nat,
                                     i: nat, n: PageId)
    requires SplitPending(pages, root, levels, depth, h, i) && h + 1 == |levels|
    requires n !in pages && n != INVALID_PAGE_ID
    ensures i == 0 && |levels[h]| == 2 && levels[h][0].child == root
    ensures WellFormed(pages[n := Internal([levels[h][0]], levels[h][1].child)], n,
                       levels + [[Entry(n, Unbounded)]], depth[n := h + 1])
  {
    var es := levels[h];
    TopSplit(es, i, root);
    assert LevelOk(pages, depth, es, h);
    var top := [Entry(n, Unbounded)];
    var pages' := pages[n := Internal([es[0]], es[1].child)];
    var depth' := depth[n := h + 1];
    var levels' := levels + [top];
    assert LevelOk(pages', depth', top, h + 1);
    OneRoot(pages', n, es[0], es[1].child);
    assert es == [es[0], Entry(es[1].child, Unbounded)];
    hide LevelOk, Linked, LeavesOk, Merge;
    OtherLevels(pages, pages', depth, depth', levels, h + 1);
    forall g | 1 <= g < |levels'| ensures Linked(pages', levels'[g], levels'[g - 1]) {
      if g < |levels| {
        LinkedFrame(pages, pages', levels[g], levels[g - 1]);
      }
    }
    LeavesFrame(pages, pages', levels[0]);
  }
}
