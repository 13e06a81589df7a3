/**
 Trees whose keys have one size and whose values have one size, such as the record directory with
 its 9-byte keys and 10-byte values: for them halving by count halves by bytes.
 */
module BTreeUniform {
  import opened ByteOrder
  import opened Cells
  import opened BTreeLevels
  import opened BTreeSteps
  import opened BTreeContents
  import opened BTreeWay

  // ---------- Cells of one size ----------

  /** All keys have a bytes and all values b bytes, separators included.  The separators of the upper
      levels are among the fences of the leaf level. */
  ghost predicate UniformTree(pages: Pages, levels: seq<Level>, a: nat, b: nat) {
    |levels| > 0 && UniformFences(levels[0], a) && UniformLeaves(pages, levels[0], a, b)
  }

  ghost predicate UniformFences(es: Level, a: nat) {
    forall i :: 0 <= i < |es| && es[i].fence.Key? ==> |es[i].fence.key| == a
  }

  ghost predicate UniformLeaves(pages: Pages, es: Level, a: nat, b: nat) {
    forall i :: 0 <= i < |es| ==>
      es[i].child in pages && pages[es[i].child].Leaf? && UniformLeaf(pages[es[i].child].cells, a, b)
  }

  lemma {:induction false} UniformUpper(pages: Pages, upper: Level, lower: Level, a: nat)
    requires Linked(pages, upper, lower) && UniformFences(lower, a)
    ensures UniformFences(upper, a)
    ensures forall j :: 0 <= j < |upper| ==> UniformItems(pages[upper[j].child].items, a)
  {
    forall j | 0 <= j < |upper|
      ensures upper[j].fence.Key? ==> |upper[j].fence.key| == a
      ensures UniformItems(pages[upper[j].child].items, a)
    {
      ExpandAt(pages, upper, j);
      var L := Entries(pages[upper[j].child], upper[j].fence);
      var off := |Expand(pages, upper[..j])|;
      assert NodeOk(pages[upper[j].child]);
      assert lower[off + |L| - 1] == L[|L| - 1];
      var items := pages[upper[j].child].items;
      forall x | 0 <= x < |items| ensures items[x].fence.Key? && |items[x].fence.key| == a {
        assert lower[off + x] == L[x] == items[x];
        assert ItemOk(items[x]);
      }
    }
  }

  lemma {:induction false} UniformLevels(pages: Pages, levels: seq<Level>, g: nat, a: nat)
    requires g < |levels| && UniformFences(levels[0], a)
    requires forall h :: 1 <= h < |levels| ==> Linked(pages, levels[h], levels[h - 1])
    ensures UniformFences(levels[g], a)
  {
    if g > 0 {
      UniformLevels(pages, levels, g - 1, a);
      UniformUpper(pages, levels[g], levels[g - 1], a);
    }
  }

  lemma {:induction false} UniformParts(n: nat, m: nat, c: nat)
    requires m <= n && n * c <= CAPACITY
    ensures m * c <= CAPACITY
  {
    assert (n - m) * c >= 0;
  }

  /** A page with one item more than before, all of one size, halves into pages that fit. */
  lemma {:induction false} UniformHalves(items: seq<Entry>, L: Level, a: nat)
    requires UniformItems(items, a) && InternalFits(items) && |items| > 0
    requires |L| == |items| + 2 && UniformItems(L[..|L| - 1], a)
    ensures var mid := (|L| - 1) / 2; InternalFits(L[..mid]) && InternalFits(L[mid + 1..|L| - 1])
  {
    var mid := (|L| - 1) / 2;
    forall x | 0 <= x < |L| - 1 ensures L[x].fence.Key? && |L[x].fence.key| == a {
      assert L[x] == L[..|L| - 1][x];
    }
    UniformItemsSize(items, a);
    UniformItemsSize(L[..mid], a);
    UniformItemsSize(L[mid + 1..|L| - 1], a);
    UniformParts(|items|, mid, 14 + a);
    UniformParts(|items|, |L| - mid - 2, 14 + a);
  }

  lemma {:induction false} UniformParentAfter(pages: Pages, es: Level, key: Bytes, sep: Bytes, right: PageId, a: nat)
    requires AllInternal(pages, es) && |es| > 0 && es[|es| - 1].fence.Unbounded? && |sep| == a
    requires UniformItems(pages[es[CoverIndex(es, key)].child].items, a)
    ensures var L := ParentAfter(pages, es, key, sep, right);
            |L| == |pages[es[CoverIndex(es, key)].child].items| + 2 && UniformItems(L[..|L| - 1], a)
  {
    hide CoverIndex, Rank;
    var e := es[CoverIndex(es, key)];
    var items := pages[e.child].items;
    var L := ParentAfter(pages, es, key, sep, right);
    var k := CoverIndex(Entries(pages[e.child], e.fence), key);
    forall x | 0 <= x < |L| - 1 ensures L[x].fence.Key? && |L[x].fence.key| == a {
      assert x < k ==> L[x] == items[x];
      assert x > k ==> L[x].fence == items[x - 1].fence;
    }
  }

  lemma {:induction false} UniformAbsorbs(pages: Pages, root: PageId, levels: seq<Level>, depth: map<PageId, nat>,
                                          h: nat, key: Bytes, sep: Bytes, a: nat)
    requires WellFormed(pages, root, levels, depth) && UniformFences(levels[0], a) && |sep| == a && h < |levels|
    ensures AbsorbFits(pages, levels, h, key, sep)
    decreases |levels| - h
  {
    hide Rank, CoverIndex, Linked, LevelOk, SortedFences, Distinct, Expand, UniformFences, LeavesOk, ParentAfter,
        InternalSize;
    Shapes(pages, root, levels, depth);
    if h + 1 < |levels| {
      PageOnWay(pages, root, levels, depth, h + 1, key);
      UniformLevels(pages, levels, h, a);
      UniformUpper(pages, levels[h + 1], levels[h], a);
      hide WellFormed;
      var L := ParentAfter(pages, levels[h + 1], key, sep, INVALID_PAGE_ID);
      UniformParentAfter(pages, levels[h + 1], key, sep, INVALID_PAGE_ID, a);
      UniformHalves(pages[OnWay(levels, h + 1, key)].items, L, a);
      assert L[..|L| - 1][(|L| - 1) / 2].fence.Key?;
      UniformAbsorbs(pages, root, levels, depth, h + 1, key, L[(|L| - 1) / 2].fence.key, a);
    }
  }

  lemma {:induction false} UniformLeafHalves(cells: seq<LeafItem>, cells': seq<LeafItem>, a: nat, b: nat)
    requires UniformLeaf(cells, a, b) && UniformLeaf(cells', a, b) && LeafFits(cells) && |cells'| <= |cells| + 1
    ensures |cells'| <= |cells| ==> LeafFits(cells')
    ensures |cells'| >= 2 ==> LeafFits(cells'[..|cells'| / 2]) && LeafFits(cells'[|cells'| / 2..])
  {
    var mid := |cells'| / 2;
    UniformLeafSize(cells, a, b);
    UniformLeafSize(cells', a, b);
    UniformLeafSize(cells'[..mid], a, b);
    UniformLeafSize(cells'[mid..], a, b);
    hide LeafSize;
    if |cells'| <= |cells| { UniformParts(|cells|, |cells'|, 8 + a + b); }
    if |cells'| >= 2 {
      UniformParts(|cells|, mid, 8 + a + b);
      UniformParts(|cells|, |cells'| - mid, 8 + a + b);
    }
  }

  /** With cells of one size Insert always finds room. */
  lemma {:induction false} UniformFits(pages: Pages, root: PageId, levels: seq<Level>, depth: map<PageId, nat>,
                                       key: Bytes, value: Bytes)
    requires WellFormed(pages, root, levels, depth) && UniformTree(pages, levels, |key|, |value|)
    requires LeafItemOk(LeafItem(key, value))
    ensures LevelShapes(levels) && AllLeaves(pages, levels[0]) && InsertFits(pages, levels, key, value)
    ensures UniformLeaf(Put(pages[OnWay(levels, 0, key)].cells, key, value), |key|, |value|)
  {
    hide Rank, CoverIndex, LeavesOk, SortedFences, AllCells, ToMap, LowerBound, Put, Between, LeafSize, Linked, LevelOk;
    CoveringLeaf(pages, root, levels, depth, key, value);
    var i := CoverIndex(levels[0], key);
    var cells := pages[levels[0][i].child].cells;
    var cells' := Put(cells, key, value);
    PutShape(cells, key, value);
    PutOk(cells, key, value, LowRank(levels[0], i), FenceRank(levels[0][i].fence));
    hide WellFormed, SortedCells, Within;
    UniformLeafHalves(cells, cells', |key|, |value|);
    OverflowCounts(cells', []);
    if |cells'| >= 2 {
      UniformAbsorbs(pages, root, levels, depth, 0, key, cells'[|cells'| / 2].key, |key|);
    }
  }

  lemma {:induction false} UniformSplit(pages: Pages, pages': Pages, es: Level, i: nat, left: seq<LeafItem>,
                                        right: seq<LeafItem>, r: PageId, a: nat, b: nat)
    requires UniformFences(es, a) && UniformLeaves(pages, es, a, b) && i < |es| && r !in pages && |right| > 0
    requires UniformLeaf(left, a, b) && UniformLeaf(right, a, b)
    requires pages' == SplitLeafPages(pages, es[i].child, left, right, r)
    ensures UniformFences(SplitAt(es, i, Key(right[0].key), r), a)
    ensures UniformLeaves(pages', SplitAt(es, i, Key(right[0].key), r), a, b)
  {
    var es' := SplitAt(es, i, Key(right[0].key), r);
    forall x | 0 <= x < |es'|
      ensures es'[x].fence.Key? ==> |es'[x].fence.key| == a
      ensures es'[x].child in pages' && pages'[es'[x].child].Leaf? && UniformLeaf(pages'[es'[x].child].cells, a, b)
    {
      if x < i { assert es'[x] == es[x]; }
      if x > i + 1 { assert es'[x] == es[x - 1]; }
    }
  }

  lemma {:induction false} UniformFrame(pages: Pages, pages': Pages, es: Level, a: nat, b: nat)
    requires UniformLeaves(pages, es, a, b) && Agree(pages, pages', es)
    ensures UniformLeaves(pages', es, a, b)
  {
  }
}
