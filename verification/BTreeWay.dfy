/**
 The way of a key from the root to its leaf, the room an insertion finds along it, and a split on
 its way back up.
 */
module BTreeWay {
  import opened ByteOrder
  import opened Cells
  import opened BTreeLevels
  import opened BTreeSteps
  import opened BTreeContents

  // ---------- The way of a key ----------

  ghost predicate LevelShapes(levels: seq<Level>) {
    |levels| > 0 && forall g :: 0 <= g < |levels| ==> |levels[g]| > 0 && levels[g][|levels[g]| - 1].fence.Unbounded?
  }

  ghost function OnWay(levels: seq<Level>, g: nat, key: Bytes): PageId
    requires LevelShapes(levels) && g < |levels|
  {
    levels[g][CoverIndex(levels[g], key)].child
  }

  /** A path lists the pages on the way of the key, root first. */
  ghost predicate IsPath(levels: seq<Level>, path: seq<PageId>, key: Bytes) {
    && LevelShapes(levels) && |path| == |levels|
    && forall d :: 0 <= d < |path| ==> path[d] == OnWay(levels, |levels| - 1 - d, key)
  }

  lemma {:induction false} Shapes(pages: Pages, root: PageId, levels: seq<Level>, depth: map<PageId, nat>)
    requires WellFormed(pages, root, levels, depth)
    ensures LevelShapes(levels) && UpperLevels(pages, levels, 0) && LeafLevel(pages, levels[0])
    ensures forall g :: 0 <= g < |levels| ==> SortedFences(levels[g]) && Distinct(levels[g])
  {
    hide LeafOk, Expand, Rank, FenceRank;
    forall g | 0 <= g < |levels|
      ensures |levels[g]| > 0 && levels[g][|levels[g]| - 1].fence.Unbounded? && SortedFences(levels[g])
              && Distinct(levels[g])
      ensures g > 0 ==> AllInternal(pages, levels[g])
    {
      assert LevelOk(pages, depth, levels[g], g);
      if g > 0 {
        assert Linked(pages, levels[g], levels[g - 1]);
      }
    }
    LeavesAreLeaves(pages, levels[0]);
  }

  lemma {:induction false} PageOnWay(pages: Pages, root: PageId, levels: seq<Level>, depth: map<PageId, nat>, g: nat,
                                     key: Bytes)
    requires WellFormed(pages, root, levels, depth) && g < |levels|
    ensures LevelShapes(levels) && OnWay(levels, g, key) in pages
    ensures g == 0 ==> pages[OnWay(levels, g, key)].Leaf?
    ensures g == |levels| - 1 ==> OnWay(levels, g, key) == root
    ensures g > 0 ==>
              var e := levels[g][CoverIndex(levels[g], key)];
              var p := pages[e.child];
              && NodeOk(p) && SortedFences(Entries(p, e.fence)) && Distinct(Entries(p, e.fence))
              && OnWay(levels, g - 1, key) == Entries(p, e.fence)[CoverIndex(Entries(p, e.fence), key)].child
  {
    hide LeafOk, Expand, Rank, FenceRank, CoverIndex;
    Shapes(pages, root, levels, depth);
    var i := CoverIndex(levels[g], key);
    if g == 0 {
      assert LeafOk(pages, levels[0], i);
    } else {
      assert Linked(pages, levels[g], levels[g - 1]);
      PageSorted(pages, levels[g], levels[g - 1], i);
      CoverPosition(pages, levels[g], levels[g - 1], key);
    }
  }

  /** The leaf on the way of a key, and what it decides. */
  lemma {:induction false} CoveringLeaf(pages: Pages, root: PageId, levels: seq<Level>, depth: map<PageId, nat>,
                                        key: Bytes, value: Bytes)
    requires WellFormed(pages, root, levels, depth)
    ensures LevelShapes(levels) && LeafLevel(pages, levels[0]) && UpperLevels(pages, levels, 0) && Distinct(levels[0])
    ensures var es := levels[0];
            var i := CoverIndex(es, key);
            var cells := pages[es[i].child].cells;
            var m := ToMap(AllCells(pages, es));
            && Covers(es, i, key) && CellsOk(cells, LowRank(es, i), FenceRank(es[i].fence))
            && (key in m <==> Holds(cells, key))
            && (Holds(cells, key) ==> m[key] == cells[LowerBound(cells, key)].value)
            && AllLeaves(pages, es[..i]) && AllLeaves(pages, es[i + 1..])
            && var a, b := AllCells(pages, es[..i]), AllCells(pages, es[i + 1..]);
            && (Holds(cells, key) ==> ToMap(a + Without(cells, key) + b) == m - {key})
            && ToMap(a + Put(cells, key, value) + b) == m[key := value]
  {
    hide LowerBound, AllCells, ToMap, Rank, Put, CoverIndex, Holds, CellsOk;
    Shapes(pages, root, levels, depth);
    var i := CoverIndex(levels[0], key);
    assert LeafOk(pages, levels[0], i);
    assert Covers(levels[0], i, key);
    LeafDecides(pages, levels[0], i, key, value);
  }

  lemma {:induction false} CellsRewritten(pages: Pages, es: Level, i: nat, cells: seq<LeafItem>)
    requires AllLeaves(pages, es) && Distinct(es) && i < |es|
    ensures var pages' := pages[es[i].child := pages[es[i].child].(cells := cells)];
            && AllLeaves(pages', es) && AllLeaves(pages, es[..i]) && AllLeaves(pages, es[i + 1..])
            && AllCells(pages', es) == AllCells(pages, es[..i]) + cells + AllCells(pages, es[i + 1..])
  {
    var pages' := pages[es[i].child := pages[es[i].child].(cells := cells)];
    AllCellsFrame(pages, pages', es[..i]);
    AllCellsFrame(pages, pages', es[i + 1..]);
    AllCellsAt(pages', es, i);
  }

  lemma {:induction false} CellsSplit(pages: Pages, pages': Pages, es: Level, i: nat, left: seq<LeafItem>,
                                      right: seq<LeafItem>, sep: Fence, r: PageId)
    requires AllLeaves(pages, es) && Distinct(es) && i < |es| && r !in pages
    requires pages' == SplitLeafPages(pages, es[i].child, left, right, r)
    ensures var es' := SplitAt(es, i, sep, r);
            && AllLeaves(pages', es') && AllLeaves(pages, es[..i]) && AllLeaves(pages, es[i + 1..])
            && AllCells(pages', es') == AllCells(pages, es[..i]) + (left + right) + AllCells(pages, es[i + 1..])
  {
    var es' := SplitAt(es, i, sep, r);
    AllCellsFrame(pages, pages', es[..i]);
    AllCellsFrame(pages, pages', es[i + 1..]);
    var two := [Entry(es[i].child, sep), Entry(r, es[i].fence)];
    assert es' == es[..i] + two + es[i + 1..];
    AllCellsConcat(pages', es[..i], two);
    AllCellsConcat(pages', es[..i] + two, es[i + 1..]);
    assert two[..1][..0] == [] && two[..1] == [two[0]];
    assert AllCells(pages', two[..1]) == left;
    assert AllCells(pages', two) == left + right;
  }

  // ---------- When an insertion finds room ----------

  ghost predicate UpperLevels(pages: Pages, levels: seq<Level>, h: nat) {
    forall g :: h < g < |levels| ==>
      |levels[g]| > 0 && levels[g][|levels[g]| - 1].fence.Unbounded? && AllInternal(pages, levels[g])
  }

  /** The entries of the page of a level on the way of `key`, once its child on that way has split. */
  ghost function ParentAfter(pages: Pages, es: Level, key: Bytes, sep: Bytes, right: PageId): (L: Level)
    requires AllInternal(pages, es) && |es| > 0 && es[|es| - 1].fence.Unbounded?
    ensures |L| >= 2
  {
    var e := es[CoverIndex(es, key)];
    var L := Entries(pages[e.child], e.fence);
    SplitAt(L, CoverIndex(L, key), Key(sep), right)
  }

  /** The split of a page of level h, on the way of `key` and with separator `sep`, finds room above. */
  ghost predicate AbsorbFits(pages: Pages, levels: seq<Level>, h: nat, key: Bytes, sep: Bytes)
    decreases |levels| - h, 1
  {
    && UpperLevels(pages, levels, h)
    && (h + 1 < |levels| ==> ParentFits(pages, levels, h, key,
                               ParentAfter(pages, levels[h + 1], key, sep, INVALID_PAGE_ID)))
  }

  /** A parent at level h + 1 takes the entries L, or splits into two halves that fit and whose
      separator finds room in turn. */
  ghost predicate ParentFits(pages: Pages, levels: seq<Level>, h: nat, key: Bytes, L: Level)
    requires |L| >= 2 && h < |levels|
    decreases |levels| - h, 0
  {
    var mid := (|L| - 1) / 2;
    || InternalFits(L[..|L| - 1])
    || (&& InternalFits(L[..mid]) && InternalFits(L[mid + 1..|L| - 1])
        && L[mid].fence.Key? && AbsorbFits(pages, levels, h + 1, key, L[mid].fence.key))
  }

  /** Insert finds room for the key: the leaf takes the cell, or both halves of the leaf fit and the
      split is absorbed above.  Halves are by number of cells, so cells of very different sizes can
      make this fail. */
  ghost predicate InsertFits(pages: Pages, levels: seq<Level>, key: Bytes, value: Bytes)
    requires LevelShapes(levels) && AllLeaves(pages, levels[0])
  {
    var cells := Put(pages[levels[0][CoverIndex(levels[0], key)].child].cells, key, value);
    var mid := |cells| / 2;
    || LeafFits(cells)
    || (LeafFits(cells[..mid]) && LeafFits(cells[mid..]) && mid < |cells|
        && AbsorbFits(pages, levels, 0, key, cells[mid].key))
  }

  lemma {:induction false} SameFences(a: Level, b: Level, from: nat, to: nat)
    requires |a| == |b| && from <= to <= |a| && forall i :: 0 <= i < |a| ==> a[i].fence == b[i].fence
    ensures InternalFits(a[from..to]) == InternalFits(b[from..to])
  {
    InternalSizeByFences(a[from..to], b[from..to]);
  }

  /** AbsorbFits does not depend on the id of the new page. */
  lemma {:induction false} AbsorbStep(pages: Pages, levels: seq<Level>, h: nat, key: Bytes, sep: Bytes, right: PageId)
    requires UpperLevels(pages, levels, h) && h + 1 < |levels|
    ensures AbsorbFits(pages, levels, h, key, sep) <==>
            ParentFits(pages, levels, h, key, ParentAfter(pages, levels[h + 1], key, sep, right))
  {
    var L := ParentAfter(pages, levels[h + 1], key, sep, right);
    var L0 := ParentAfter(pages, levels[h + 1], key, sep, INVALID_PAGE_ID);
    ParentFences(pages, levels[h + 1], key, sep, right, INVALID_PAGE_ID);
    hide ParentAfter, UpperLevels;
    FitsByFences(pages, levels, h, key, L, L0);
  }

  lemma {:induction false} FitsByFences(pages: Pages, levels: seq<Level>, h: nat, key: Bytes, L: Level, L0: Level)
    requires |L| == |L0| >= 2 && h < |levels| && forall i :: 0 <= i < |L| ==> L[i].fence == L0[i].fence
    ensures ParentFits(pages, levels, h, key, L) == ParentFits(pages, levels, h, key, L0)
  {
    hide AbsorbFits, InternalFits;
    var mid := (|L| - 1) / 2;
    SameFences(L, L0, 0, |L| - 1);
    SameFences(L, L0, 0, mid);
    SameFences(L, L0, mid + 1, |L| - 1);
    assert L[0..|L| - 1] == L[..|L| - 1] && L0[0..|L| - 1] == L0[..|L| - 1] && L[0..mid] == L[..mid]
           && L0[0..mid] == L0[..mid];
  }

  lemma {:induction false} ParentFences(pages: Pages, es: Level, key: Bytes, sep: Bytes, r1: PageId, r2: PageId)
    requires AllInternal(pages, es) && |es| > 0 && es[|es| - 1].fence.Unbounded?
    ensures var L1, L2 := ParentAfter(pages, es, key, sep, r1), ParentAfter(pages, es, key, sep, r2);
            |L1| == |L2| && forall i :: 0 <= i < |L1| ==> L1[i].fence == L2[i].fence
  {
    hide CoverIndex, Rank;
  }

  // ---------- A split on its way up ----------

  /** A split at level h on the way of `key`; the levels above are still those of the tree
      (pages0, levels0) before the insertion. */
  ghost predicate InFlight(pages0: Pages, levels0: seq<Level>, pages: Pages, root: PageId, levels: seq<Level>,
                           depth: map<PageId, nat>, h: nat, key: Bytes, sep: Bytes, right: PageId)
  {
    && LevelShapes(levels0) && |levels| == |levels0| && h < |levels|
    && var i := CoverIndex(levels0[h], key);
    && SplitPending(pages, root, levels, depth, h, i)
    && Merge(levels[h], i) == levels0[h]
    && levels[h][i].fence == Key(sep) && levels[h][i + 1].child == right
    && forall g :: h < g < |levels| ==> levels[g] == levels0[g] && Agree(pages0, pages, levels0[g])
  }

  /** The parent on the way, before and after it learns of the split. */
  lemma {:induction false} ParentOnWay(pages0: Pages, levels0: seq<Level>, depth0: map<PageId, nat>, pages: Pages,
                                       root: PageId, levels: seq<Level>,
                    depth: map<PageId, nat>, h: nat, key: Bytes, sep: Bytes, right: PageId)
    requires WellFormed(pages0, root, levels0, depth0)
    requires InFlight(pages0, levels0, pages, root, levels, depth, h, key, sep, right) && h + 1 < |levels|
    ensures UpperLevels(pages0, levels0, h)
    ensures var j := CoverIndex(levels0[h + 1], key);
            var e := levels0[h + 1][j];
            && e.child in pages && pages[e.child] == pages0[e.child] && AllInternal(pages0, levels0[h + 1])
            && levels[h][CoverIndex(levels0[h], key)].child == OnWay(levels0, h, key)
            && ParentView(pages, levels[h + 1], levels[h], j, ParentAfter(pages0, levels0[h + 1], key, sep, right))
  {
    hide Rank, FenceRank, CoverIndex, SortedFences, Distinct, NodeOk, LeavesOk, ParentView;
    Shapes(pages0, root, levels0, depth0);
    var upper := levels0[h + 1];
    var j := CoverIndex(upper, key);
    assert Linked(pages0, upper, levels0[h]);
    CoverPosition(pages0, upper, levels0[h], key);
    ExpandFrame(pages0, pages, upper[..j]);
    var L := Entries(pages0[upper[j].child], upper[j].fence);
    var k := CoverIndex(L, key);
    assert ChildPosition(pages, levels[h + 1], j, k, CoverIndex(levels0[h], key));
    ParentEntries(pages, root, levels, depth, h, CoverIndex(levels0[h], key), j, k);
  }

  lemma {:induction false} SplitMovesUp(pages0: Pages, levels0: seq<Level>, pages: Pages, root: PageId,
                                        levels: seq<Level>,
                     depth: map<PageId, nat>, h: nat, key: Bytes, sep: Bytes, right: PageId, L: Level, r: PageId)
    requires InFlight(pages0, levels0, pages, root, levels, depth, h, key, sep, right) && h + 1 < |levels|
    requires ParentView(pages, levels[h + 1], levels[h], CoverIndex(levels0[h + 1], key), L)
    requires !InternalFits(L[..|L| - 1])
    requires var mid := (|L| - 1) / 2; InternalFits(L[..mid]) && InternalFits(L[mid + 1..|L| - 1])
    requires r !in pages && r != INVALID_PAGE_ID
    ensures var j := CoverIndex(levels0[h + 1], key);
            var mid := (|L| - 1) / 2;
            var pages' := SplitParentPages(pages, levels[h + 1][j].child, L, r);
            var levels' := levels[h + 1 := SplitAt(levels[h + 1], j, L[mid].fence, r)];
            && L[mid].fence.Key?
            && InFlight(pages0, levels0, pages', root, levels', depth[r := h + 1], h + 1, key, L[mid].fence.key, r)
            && Agree(pages, pages', levels[0])
  {
    hide Rank, FenceRank, CoverIndex, ParentView, Expand, SplitParentPages, InternalSize, Linked, LeavesOk, Rewritten;
    var j := CoverIndex(levels0[h + 1], key);
    var mid := (|L| - 1) / 2;
    var upper := levels[h + 1];
    var pages' := SplitParentPages(pages, upper[j].child, L, r);
    ParentSplits(pages, root, levels, depth, h, CoverIndex(levels0[h], key), j, L, r);
    MergeSplit(upper, j, L[mid].fence, r);
    assert SplitAt(upper, j, L[mid].fence, r)[j + 1].child == r;
    ParentOnly(pages, levels, depth, h, j, L, r);
    hide LevelOk, SplitAt, Merge;
    forall g | h + 1 < g < |levels| ensures Agree(pages0, pages', levels0[g]) {
      assert Agree(pages0, pages, levels0[g]) && Agree(pages, pages', levels[g]);
    }
  }

  lemma {:induction false} ParentOnly(pages: Pages, levels: seq<Level>, depth: map<PageId, nat>, h: nat, j: nat,
                                      L: Level, r: PageId)
    requires forall g :: 0 <= g < |levels| ==> LevelOk(pages, depth, levels[g], g)
    requires h + 1 < |levels| && j < |levels[h + 1]| && |L| >= 2 && r !in pages
    ensures forall g :: 0 <= g < |levels| && g != h + 1 ==>
              Agree(pages, SplitParentPages(pages, levels[h + 1][j].child, L, r), levels[g])
  {
    var pages' := SplitParentPages(pages, levels[h + 1][j].child, L, r);
    assert LevelOk(pages, depth, levels[h + 1], h + 1);
    OtherLevels(pages, pages', depth, depth, levels, h + 1);
  }

  /** Splitting the covering leaf starts a split on its way up, and keeps the cells. */
  lemma {:induction false} LeafSplitInFlight(pages: Pages, root: PageId, levels: seq<Level>, depth: map<PageId, nat>,
                                             key: Bytes, value: Bytes, r: PageId)
    requires WellFormed(pages, root, levels, depth) && LevelShapes(levels) && AllLeaves(pages, levels[0])
    requires LeafItemOk(LeafItem(key, value)) && r !in pages && r != INVALID_PAGE_ID
    requires var cells := Put(pages[OnWay(levels, 0, key)].cells, key, value);
             var mid := |cells| / 2;
             !LeafFits(cells) && LeafFits(cells[..mid]) && LeafFits(cells[mid..])
    ensures var c := OnWay(levels, 0, key);
            var cells := Put(pages[c].cells, key, value);
            var mid := |cells| / 2;
            && mid < |cells|
            && var pages' := SplitLeafPages(pages, c, cells[..mid], cells[mid..], r);
            var es' := SplitAt(levels[0], CoverIndex(levels[0], key), Key(cells[mid].key), r);
            && InFlight(pages, levels, pages', root, levels[0 := es'], depth[r := 0], 0, key, cells[mid].key, r)
            && AllLeaves(pages', es')
            && ToMap(AllCells(pages', es')) == ToMap(AllCells(pages, levels[0]))[key := value]
  {
    hide Rank, CoverIndex, LeavesOk, SortedFences, AllCells, ToMap, LowerBound, Put, LeafSize, Linked, LevelOk,
        SplitPending, Expand;
    CoveringLeaf(pages, root, levels, depth, key, value);
    var es := levels[0];
    var i := CoverIndex(es, key);
    var c := es[i].child;
    var cells := Put(pages[c].cells, key, value);
    var mid := |cells| / 2;
    PutOk(pages[c].cells, key, value, LowRank(es, i), FenceRank(es[i].fence));
    OverflowCounts(cells, []);
    LeafSplit(pages, root, levels, depth, i, cells, mid, r);
    var pages' := SplitLeafPages(pages, c, cells[..mid], cells[mid..], r);
    var sep := Key(cells[mid].key);
    CellsSplit(pages, pages', es, i, cells[..mid], cells[mid..], sep, r);
    assert cells[..mid] + cells[mid..] == cells;
    MergeSplit(es, i, sep, r);
    assert SplitAt(es, i, sep, r)[i + 1].child == r;
    hide SplitAt, Merge, SortedCells, Within;
    forall g | 0 < g < |levels| ensures Agree(pages, pages', levels[g]) {
      SplitLeafAgree(pages, root, levels, depth, i, cells[..mid], cells[mid..], r, g);
    }
  }

  lemma {:induction false} SplitLeafAgree(pages: Pages, root: PageId, levels: seq<Level>, depth: map<PageId, nat>,
                                          i: nat, left: seq<LeafItem>, right: seq<LeafItem>, r: PageId, g: nat)
    requires WellFormed(pages, root, levels, depth) && i < |levels[0]| && 0 < g < |levels| && r !in pages
    requires levels[0][i].child in pages && pages[levels[0][i].child].Leaf?
    ensures Agree(pages, SplitLeafPages(pages, levels[0][i].child, left, right, r), levels[g])
  {
    hide Rank, SortedFences, CellsOk, Expand;
    assert LevelOk(pages, depth, levels[g], g) && LevelOk(pages, depth, levels[0], 0);
    assert LeafOk(pages, levels[0], i);
    if i + 1 < |levels[0]| { assert LeafOk(pages, levels[0], i + 1); }
  }

  lemma {:induction false} NextLeaf(pages: Pages, root: PageId, levels: seq<Level>, depth: map<PageId, nat>, i: nat)
    requires WellFormed(pages, root, levels, depth) && i < |levels[0]|
    ensures var c := levels[0][i].child;
            && c in pages && pages[c].Leaf? && pages[c].next != c
            && (pages[c].next == INVALID_PAGE_ID || (pages[c].next in pages && pages[pages[c].next].Leaf?))
  {
    hide Rank, SortedFences, CellsOk, Expand, Linked;
    assert LevelOk(pages, depth, levels[0], 0);
    assert LeafOk(pages, levels[0], i);
    if i + 1 < |levels[0]| { assert LeafOk(pages, levels[0], i + 1); }
  }

  lemma {:induction false} PutIs(cells: seq<LeafItem>, key: Bytes, value: Bytes, idx: nat, found: bool)
    requires idx == LowerBound(cells, key) && found == Holds(cells, key)
    ensures Put(cells, key, value) ==
            if found then cells[idx := LeafItem(key, value)] else cells[..idx] + [LeafItem(key, value)] + cells[idx..]
  {
  }

  /** A tree of one leaf. */
  lemma {:induction false} SingleLeaf(pages: Pages, id: PageId, cells: seq<LeafItem>)
    requires id != INVALID_PAGE_ID && CellsOk(cells, -1.0, 1.0)
    requires id in pages && pages[id] == Leaf(cells, INVALID_PAGE_ID, INVALID_PAGE_ID)
    ensures var levels := [[Entry(id, Unbounded)]];
            && WellFormed(pages, id, levels, map[id := 0])
            && AllLeaves(pages, levels[0]) && AllCells(pages, levels[0]) == cells
  {
    var es := [Entry(id, Unbounded)];
    assert es[..0] == [];
    hide CellsOk, Expand;
    assert LeafOk(pages, es, 0);
    assert AllCells(pages, es[..0]) == [];
  }

  lemma {:induction false} EntriesOf(L: Level, items: seq<Entry>, rightmost: PageId, fence: Fence)
    requires L == items + [Entry(rightmost, fence)]
    ensures items == L[..|L| - 1] && Rewritten(L) == Internal(items, rightmost)
    ensures var mid := |items| / 2;
            |items| > 0 ==>
              && L[..mid] == items[..mid] && L[mid + 1..|L| - 1] == items[mid + 1..] && L[mid] == items[mid]
              && Rewritten(L[..mid + 1]) == Internal(items[..mid], items[mid].child)
              && Rewritten(L[mid + 1..]) == Internal(items[mid + 1..], rightmost)
  {
    if |items| > 0 {
      var mid := |items| / 2;
      assert L[..mid + 1][..mid] == items[..mid];
      assert L[mid + 1..][..|L| - mid - 2] == items[mid + 1..];
    }
  }

  /** ParentAbsorbs, with what it leaves alone. */
  lemma {:induction false} AbsorbedOnWay(pages0: Pages, levels0: seq<Level>, pages: Pages, root: PageId,
                                         levels: seq<Level>,
                      depth: map<PageId, nat>, h: nat, key: Bytes, sep: Bytes, right: PageId, L: Level)
    requires InFlight(pages0, levels0, pages, root, levels, depth, h, key, sep, right) && h + 1 < |levels|
    requires ParentView(pages, levels[h + 1], levels[h], CoverIndex(levels0[h + 1], key), L)
             && InternalFits(L[..|L| - 1])
    ensures var pages' := pages[OnWay(levels0, h + 1, key) := Rewritten(L)];
            WellFormed(pages', root, levels, depth) && Agree(pages, pages', levels[0])
  {
    hide Expand, InternalSize, Rewritten, WellFormed, Linked, FenceRank, SortedFences, Merge, CoverIndex, Rank;
    var i, j := CoverIndex(levels0[h], key), CoverIndex(levels0[h + 1], key);
    ParentAbsorbs(pages, root, levels, depth, h, i, j, L);
    assert LevelOk(pages, depth, levels[h + 1], h + 1);
    OtherLevels(pages, pages[levels[h + 1][j].child := Rewritten(L)], depth, depth, levels, h + 1);
  }

  /** What a step up the path starts from: the parent's page, its new entries, and when they find room. */
  lemma {:induction false} StepFacts(pages0: Pages, levels0: seq<Level>, depth0: map<PageId, nat>, pages: Pages,
                                     root: PageId, levels: seq<Level>,
                  depth: map<PageId, nat>, h: nat, key: Bytes, sep: Bytes, right: PageId)
                    returns (fence: Fence, k: nat, L: Level)
    requires WellFormed(pages0, root, levels0, depth0) && UpperLevels(pages0, levels0, h)
    requires InFlight(pages0, levels0, pages, root, levels, depth, h, key, sep, right) && h + 1 < |levels|
    ensures |levels| == |levels0| && OnWay(levels0, h + 1, key) in pages
    ensures var p := pages[OnWay(levels0, h + 1, key)];
            && p.Internal? && Distinct(Entries(p, fence)) && k < |Entries(p, fence)|
            && Entries(p, fence)[k].child == OnWay(levels0, h, key)
            && L == SplitAt(Entries(p, fence), k, Key(sep), right)
    ensures ParentView(pages, levels[h + 1], levels[h], CoverIndex(levels0[h + 1], key), L)
    ensures levels[h + 1] == levels0[h + 1]
    ensures |L| >= 2 && L[(|L| - 1) / 2].fence.Key? && LevelShapes(levels0)
            && L == ParentAfter(pages0, levels0[h + 1], key, sep, right)
    ensures AbsorbFits(pages0, levels0, h, key, sep) <==> ParentFits(pages0, levels0, h, key, L)
  {
    hide WellFormed, SplitPending, Rank, FenceRank, CoverIndex, Expand, Merge, InternalSize, AbsorbFits, ParentFits,
        Linked, LevelOk;
    PageOnWay(pages0, root, levels0, depth0, h + 1, key);
    ParentOnWay(pages0, levels0, depth0, pages, root, levels, depth, h, key, sep, right);
    AbsorbStep(pages0, levels0, h, key, sep, right);
    var e := levels0[h + 1][CoverIndex(levels0[h + 1], key)];
    fence := e.fence;
    k := CoverIndex(Entries(pages[e.child], fence), key);
    L := ParentAfter(pages0, levels0[h + 1], key, sep, right);
    assert L[..|L| - 1][(|L| - 1) / 2].fence.Key?;
  }
}
