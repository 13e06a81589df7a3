/**
 A refused insertion loses stored keys, at whatever level it is refused.

 Where no leaf has been emptied, every page of the tree leads to a stored key.  A refused split leaves the upper
 part of a page unreachable, so at least one key is lost.
 */
module BTreeLosses {
  import opened ByteOrder
  import opened Cells
  import opened BTreeLevels
  import opened BTreeContents
  import opened BTreeWay
  import opened BTreeLookup

  ghost predicate NoLeafEmpty(pages: Pages, es: Level)
    requires AllLeaves(pages, es)
  {
    forall i :: 0 <= i < |es| ==> pages[es[i].child].cells != []
  }

  lemma {:induction false} KeyInLeaf(pages: Pages, root: PageId, levels: seq<Level>, depth: map<PageId, nat>, i: nat)
    returns (k: Bytes)
    requires WellFormed(pages, root, levels, depth) && i < |levels[0]| && AllLeaves(pages, levels[0])
    requires pages[levels[0][i].child].cells != []
    ensures Covers(levels[0], i, k) && k in ToMap(AllCells(pages, levels[0]))
  {
    hide Rank, FenceRank, CoverIndex, LowerBound, ToMap, AllCells, SortedFences;
    var es := levels[0];
    assert LeafOk(pages, es, i);
    var cells := pages[es[i].child].cells;
    k := cells[0].key;
    assert Covers(es, i, k);
    hide LeafOk;
    CoveringLeaf(pages, root, levels, depth, k, []);
    LastIsTop(es, k);
    CoverUnique(es, k, i);
    LowerBoundUnique(cells, k, 0);
  }

  lemma {:induction false} LastIsTop(es: Level, k: Bytes)
    requires |es| > 0 && es[|es| - 1].fence.Unbounded?
    ensures Rank(k) < FenceRank(es[|es| - 1].fence)
  {
  }

  /** Every page of a level leads to a stored key. */
  lemma {:induction false} KeyUnder(pages: Pages, root: PageId, levels: seq<Level>, depth: map<PageId, nat>, h: nat,
                                    i: nat) returns (k: Bytes)
    requires WellFormed(pages, root, levels, depth) && h < |levels| && i < |levels[h]|
    requires AllLeaves(pages, levels[0]) && NoLeafEmpty(pages, levels[0])
    ensures Covers(levels[h], i, k) && k in ToMap(AllCells(pages, levels[0]))
    decreases h
  {
    hide Rank, FenceRank, ToMap, AllCells, WellFormed, Expand, SortedFences, ItemsOk;
    if h == 0 {
      k := KeyInLeaf(pages, root, levels, depth, i);
    } else {
      TreeStack(pages, root, levels, depth);
      Children(pages, levels[h], levels[h - 1], i);
      var off := |Expand(pages, levels[h][..i])|;
      k := KeyUnder(pages, root, levels, depth, h - 1, off);
      FirstBelowLast(Entries(pages[levels[h][i].child], levels[h][i].fence), levels[h][i].fence);
    }
  }

  lemma {:induction false} FirstBelowLast(L: Level, fence: Fence)
    requires |L| > 0 && SortedFences(L) && L[|L| - 1].fence == fence
    ensures FenceRank(L[0].fence) <= FenceRank(fence)
  {
  }

  /** Splitting a child moves fences only to the right. */
  lemma {:induction false} FenceAtMost(E: Level, k: nat, sep: Bytes, right: PageId, y: nat)
    requires SortedFences(E) && k < |E| && y < |E| && Rank(sep) < FenceRank(E[k].fence)
    ensures var L := SplitAt(E, k, Key(sep), right);
            |L| == |E| + 1 && FenceRank(L[y].fence) <= FenceRank(E[y].fence)
  {
    hide Rank;
    var L := SplitAt(E, k, Key(sep), right);
    if y < k {
      assert L[y] == E[y];
    } else if y > k + 1 {
      assert L[y] == E[y - 1];
    }
  }

  lemma {:induction false} FencesAscend(E: Level, a: nat, b: nat)
    requires SortedFences(E) && a <= b < |E|
    ensures FenceRank(E[a].fence) <= FenceRank(E[b].fence)
  {
  }

  /** A key below the last child of a page is not kept when the page is cut in the middle. */
  lemma {:induction false} CutOff(upper: Level, j: nat, E: Level, k: nat, sep: Bytes, right: PageId, n: nat,
                                  lost: Bytes)
    requires SortedFences(E) && k < |E| && Rank(sep) < FenceRank(E[k].fence) && |E| >= 8 && n <= |E| / 2
    requires Covers(upper, j, lost) && FenceRank(E[|E| - 2].fence) <= Rank(lost)
    ensures var L := SplitAt(E, k, Key(sep), right); |L| == |E| + 1 && !KeptUnder(upper, j, L, n, |E| / 2, lost)
  {
    hide Rank, FenceRank, SplitAt, SortedFences;
    FenceAtMost(E, k, sep, right, |E| / 2);
    FencesAscend(E, |E| / 2, |E| - 2);
    if n > 0 {
      FenceAtMost(E, k, sep, right, n - 1);
      FencesAscend(E, n - 1, |E| - 2);
    }
    BelowAll(lost);
  }

  lemma {:induction false} BelowAll(k: Bytes)
    ensures -1.0 <= Rank(k)
  {
  }

  /** What the page on the way of the key has below its last child. */
  lemma {:induction false} LastChild(pages: Pages, root: PageId, levels: seq<Level>, depth: map<PageId, nat>, h: nat,
                                     key: Bytes) returns (lost: Bytes)
    requires WellFormed(pages, root, levels, depth) && h + 1 < |levels| && AllLeaves(pages, levels[0])
             && NoLeafEmpty(pages, levels[0])
    requires LevelShapes(levels) && AllInternal(pages, levels[h + 1])
    requires |pages[OnWay(levels, h + 1, key)].items| > 0
    ensures lost in ToMap(AllCells(pages, levels[0]))
    ensures var j := CoverIndex(levels[h + 1], key);
            var E := Entries(pages[levels[h + 1][j].child], levels[h + 1][j].fence);
            && Covers(levels[h + 1], j, lost) && SortedFences(E) && FenceRank(E[|E| - 2].fence) <= Rank(lost)
            && E[CoverIndex(E, key)] == levels[h][CoverIndex(levels[h], key)] && ItemsOk(E[..|E| - 1])
  {
    hide Rank, FenceRank, ToMap, AllCells, WellFormed, Expand, CoverIndex, ItemsOk;
    TreeStack(pages, root, levels, depth);
    var upper, lower := levels[h + 1], levels[h];
    var j := CoverIndex(upper, key);
    Children(pages, upper, lower, j);
    CoverPosition(pages, upper, lower, key);
    var E := Entries(pages[upper[j].child], upper[j].fence);
    var off := |Expand(pages, upper[..j])|;
    lost := KeyUnder(pages, root, levels, depth, h, off + |E| - 1);
    assert lower[off + |E| - 2] == E[|E| - 2] && lower[off + |E| - 1] == E[|E| - 1];
    LowBelow(lower, off, off + |E| - 2);
    assert E[..|E| - 1] == pages[upper[j].child].items;
  }

  lemma {:induction false} LowBelow(es: Level, a: nat, b: nat)
    requires SortedFences(es) && a <= b < |es|
    ensures LowRank(es, a) <= FenceRank(es[b].fence)
  {
  }

  /** An overfull page has at least eight items. */
  lemma {:induction false} BigParent(E: Level, k: nat, sep: Bytes)
    requires k < |E| && ItemsOk(E[..|E| - 1]) && |sep| <= MAX_KEY_SIZE && (k < |E| - 1 ==> E[k].fence.Key?)
    requires var L := SplitAt(E, k, Key(sep), INVALID_PAGE_ID); !InternalFits(L[..|L| - 1])
    requires E[k].child != INVALID_PAGE_ID
    ensures |E| >= 8
    ensures var L := SplitAt(E, k, Key(sep), INVALID_PAGE_ID);
              forall x :: 0 <= x < |L| - 1 ==> L[x].fence.Key? && |L[x].fence.key| <= MAX_KEY_SIZE
  {
    var L, M := SplitAt(E, k, Key(sep), INVALID_PAGE_ID), SplitAt(E, k, Key(sep), 0);
    forall x | 0 <= x < |E| - 1 ensures ItemOk(E[x]) { assert E[x] == E[..|E| - 1][x]; }
    forall x | 0 <= x < |M| - 1 ensures ItemOk(M[x]) && L[x].fence == M[x].fence {
      if x < k { assert M[x] == E[x]; }
      if x > k + 1 { assert M[x] == E[x - 1]; }
    }
    hide SplitAt, InternalFits;
    SameFences(L, M, 0, |L| - 1);
    assert L[0..|L| - 1] == L[..|L| - 1] && M[0..|L| - 1] == M[..|L| - 1];
    OverflowCounts([], M[..|M| - 1]);
  }

  /** A parent that overflows loses a stored key wherever it is cut. */
  lemma {:induction false} ParentLoses(pages: Pages, root: PageId, levels: seq<Level>, depth: map<PageId, nat>, h: nat,
                                       key: Bytes, sep: Bytes, n: nat)
    returns (lost: Bytes)
    requires WellFormed(pages, root, levels, depth) && h + 1 < |levels| && AllLeaves(pages, levels[0])
             && NoLeafEmpty(pages, levels[0])
    requires LevelShapes(levels) && AllInternal(pages, levels[h + 1]) && |sep| <= MAX_KEY_SIZE
    requires Rank(sep) < FenceRank(levels[h][CoverIndex(levels[h], key)].fence)
    requires TooBig(ParentAfter(pages, levels[h + 1], key, sep, INVALID_PAGE_ID), n)
    ensures lost in ToMap(AllCells(pages, levels[0]))
    ensures LosesBehind(levels[h + 1], CoverIndex(levels[h + 1], key),
                ParentAfter(pages, levels[h + 1], key, sep, INVALID_PAGE_ID), n, lost)
  {
    hide Rank, FenceRank, ToMap, AllCells, WellFormed, CoverIndex, ItemsOk, InternalFits, SortedFences, SplitAt,
        KeptUnder;
    var upper := levels[h + 1];
    LastIsTop(upper, key);
    LastIsTop(levels[h], key);
    var j := CoverIndex(upper, key);
    HasItems(pages, root, levels, depth, h + 1, j);
    lost := LastChild(pages, root, levels, depth, h, key);
    var E := Entries(pages[upper[j].child], upper[j].fence);
    var k := CoverIndex(E, key);
    ChildIsPage(pages, root, levels, depth, h, CoverIndex(levels[h], key));
    ItemAt(E, k);
    BigParent(E, k, sep);
    FenceAtMost(E, k, sep, INVALID_PAGE_ID, |E| / 2);
    CutOff(upper, j, E, k, sep, INVALID_PAGE_ID, n, lost);
    FencesAscend(E, |E| / 2, |E| - 2);
    KeyFenceRank(SplitAt(E, k, Key(sep), INVALID_PAGE_ID)[|E| / 2].fence);
  }

  ghost predicate TooBig(L: Level, n: nat) {
    |L| >= 2 && !InternalFits(L[..|L| - 1]) && n <= (|L| - 1) / 2
  }

  /** Page j with the entries L, cut in the middle behind n of them, does not lead to the key any more; its middle
      separator is a key of its range. */
  ghost predicate LosesBehind(upper: Level, j: nat, L: Level, n: nat, lost: Bytes) {
    && j < |upper| && |L| >= 2 && n <= (|L| - 1) / 2
    && var mid := (|L| - 1) / 2;
    && !KeptUnder(upper, j, L, n, mid, lost) && L[mid].fence.Key? && |L[mid].fence.key| <= MAX_KEY_SIZE
    && Rank(L[mid].fence.key) < FenceRank(upper[j].fence)
  }

  lemma {:induction false} KeyFenceRank(f: Fence)
    ensures f.Key? ==> FenceRank(f) == Rank(f.key)
  {
  }

  lemma {:induction false} ItemAt(E: Level, k: nat)
    requires |E| > 0 && ItemsOk(E[..|E| - 1])
    ensures k < |E| - 1 ==> E[k].fence.Key?
  {
    if k < |E| - 1 { assert E[k] == E[..|E| - 1][k]; }
  }

  lemma {:induction false} HasItems(pages: Pages, root: PageId, levels: seq<Level>, depth: map<PageId, nat>, h: nat,
                                    j: nat)
    requires WellFormed(pages, root, levels, depth) && 0 < h < |levels| && j < |levels[h]|
    ensures levels[h][j].child in pages && pages[levels[h][j].child].Internal? && |pages[levels[h][j].child].items| > 0
  {
    assert Linked(pages, levels[h], levels[h - 1]);
    assert NodeOk(pages[levels[h][j].child]);
  }

  lemma {:induction false} ChildIsPage(pages: Pages, root: PageId, levels: seq<Level>, depth: map<PageId, nat>, h: nat,
                                       i: nat)
    requires WellFormed(pages, root, levels, depth) && h < |levels| && i < |levels[h]|
    ensures levels[h][i].child != INVALID_PAGE_ID
  {
    assert LevelOk(pages, depth, levels[h], h);
  }

  /** A split that finds no room above loses a stored key. */
  lemma {:induction false} AboveLoses(pages: Pages, root: PageId, levels: seq<Level>, depth: map<PageId, nat>, h: nat,
                                      key: Bytes, sep: Bytes) returns (lost: Bytes)
    requires WellFormed(pages, root, levels, depth) && h < |levels| && AllLeaves(pages, levels[0])
             && NoLeafEmpty(pages, levels[0])
    requires LevelShapes(levels) && UpperLevels(pages, levels, h) && |sep| <= MAX_KEY_SIZE
             && !AbsorbFits(pages, levels, h, key, sep)
    requires Rank(sep) < FenceRank(levels[h][CoverIndex(levels[h], key)].fence)
    ensures lost in ToMap(AllCells(pages, levels[0])) && !KeptAbove(pages, levels, h, key, sep, lost)
    decreases |levels| - h
  {
    hide Rank, FenceRank, ToMap, AllCells, WellFormed, CoverIndex, InternalFits, ParentAfter, KeptUnder, InternalPrefix;
    var L := ParentAfter(pages, levels[h + 1], key, sep, INVALID_PAGE_ID);
    var mid := (|L| - 1) / 2;
    var n := if !InternalFits(L[..mid]) then |InternalPrefix(L[..mid])| else mid;
    lost := ParentLoses(pages, root, levels, depth, h, key, sep, n);
    if InternalFits(L[..mid]) && InternalFits(L[mid + 1..|L| - 1]) {
      lost := AboveLoses(pages, root, levels, depth, h + 1, key, L[mid].fence.key);
    }
  }

  /** Where no leaf is empty, every insertion that is refused for want of room loses a stored key. */
  lemma {:induction false} RefusalLoses(pages: Pages, root: PageId, levels: seq<Level>, depth: map<PageId, nat>,
                                        key: Bytes, value: Bytes) returns (lost: Bytes)
    requires WellFormed(pages, root, levels, depth) && LevelShapes(levels) && AllLeaves(pages, levels[0])
             && NoLeafEmpty(pages, levels[0])
    requires LeafItemOk(LeafItem(key, value)) && !InsertFits(pages, levels, key, value)
    ensures lost in ToMap(AllCells(pages, levels[0])) && !Kept(pages, levels, key, value, lost)
  {
    hide Rank, FenceRank, ToMap, AllCells, WellFormed, CoverIndex, LeafSize, Put, AbsorbFits, KeptAbove;
    var i := CoverIndex(levels[0], key);
    var cells := Put(pages[levels[0][i].child].cells, key, value);
    var mid := |cells| / 2;
    if !LeafFits(cells[..mid]) || !LeafFits(cells[mid..]) {
      lost := UpperHalfLost(pages, root, levels, depth, key, value);
    } else {
      CoveringLeaf(pages, root, levels, depth, key, value);
      PutOk(pages[levels[0][i].child].cells, key, value, LowRank(levels[0], i), FenceRank(levels[0][i].fence));
      OverflowCounts(cells, []);
      assert LeafItemOk(cells[mid]);
      lost := AboveLoses(pages, root, levels, depth, 0, key, cells[mid].key);
    }
  }
}
