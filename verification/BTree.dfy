/**
 BTree: Search, Insert and Delete on a page store, with leaf, internal and root splits.

 Pages are decoded cell lists; module NodePages shows that the bytes of a page hold exactly such
 a list whenever it fits.  The pager is a map from page id to page, and Allocate hands out some
 unused id.
 */
module BTree {
  import opened ByteOrder
  import opened Cells
  import opened BTreeLevels
  import opened BTreeSteps
  import opened BTreeContents
  import opened BTreeWay
  import opened BTreeUniform
  import opened BTreeLookup
  import opened Options

  // ---------- Searching inside one page ----------

  method BinarySearch(cells: seq<LeafItem>, key: Bytes) returns (idx: nat, found: bool)
    requires SortedCells(cells)
    ensures idx == LowerBound(cells, key) && found == Holds(cells, key)
  {
    hide Rank, LowerBound;
    var low: int, high: int := 0, |cells| - 1;
    while low <= high
      invariant 0 <= low <= high + 1 <= |cells|
      invariant forall i :: 0 <= i < low ==> Rank(cells[i].key) < Rank(key)
      invariant forall i :: high < i < |cells| ==> Rank(key) < Rank(cells[i].key)
    {
      var mid := (low + high) / 2;
      RankIsOrderEmbedding(key, cells[mid].key);
      if key == cells[mid].key {
        LowerBoundUnique(cells, key, mid);
        return mid, true;
      } else if Less(key, cells[mid].key) {
        high := mid - 1;
      } else {
        low := mid + 1;
      }
    }
    LowerBoundUnique(cells, key, low);
    return low, false;
  }

  method RouteChild(p: Page, ghost fence: Fence, key: Bytes) returns (child: PageId)
    requires p.Internal? && ItemsOk(p.items) && Rank(key) < FenceRank(fence)
    requires SortedFences(Entries(p, fence))
    ensures child == Entries(p, fence)[CoverIndex(Entries(p, fence), key)].child
  {
    hide Rank, CoverIndex;
    ghost var L := Entries(p, fence);
    var low, high := 0, |p.items|;
    while low < high
      invariant 0 <= low <= high <= |p.items|
      invariant forall i :: 0 <= i < low ==> FenceRank(L[i].fence) <= Rank(key)
      invariant Rank(key) < FenceRank(L[high].fence)
    {
      var mid := (low + high) / 2;
      assert ItemOk(p.items[mid]) && L[mid] == p.items[mid];
      RankIsOrderEmbedding(key, p.items[mid].fence.key);
      if Less(key, p.items[mid].fence.key) {
        high := mid;
      } else {
        assert forall i :: 0 <= i < mid ==> FenceRank(L[i].fence) < FenceRank(L[mid].fence);
        low := mid + 1;
      }
    }
    CoverUnique(L, key, low);
    child := if low < |p.items| then p.items[low].child else p.rightmost;
  }

  // ---------- Fresh pages ----------

  lemma {:induction false} SomeAbove(s: set<PageId>) returns (n: PageId)
    ensures forall x :: x in s ==> x < n
    decreases |s|
  {
    if s == {} {
      n := 0;
    } else {
      var x :| x in s;
      var m := SomeAbove(s - {x});
      n := if m <= x then x + 1 else m;
      forall y | y in s ensures y < n {
        assert y == x || y in s - {x};
      }
    }
  }

  /** Allocate: some page id that is not in use. */
  method Allocate(pages: Pages) returns (id: PageId)
    ensures id !in pages && id != INVALID_PAGE_ID
  {
    ghost var n := SomeAbove(pages.Keys + {INVALID_PAGE_ID});
    assert n !in pages && n != INVALID_PAGE_ID;
    id :| id !in pages && id != INVALID_PAGE_ID;
  }

  datatype Step = Absorbed | Overflow | Split(sep: Bytes, right: PageId)

  datatype InsertResult = Done | KeyTooLong | ValueTooLong | NoSpace

  /** The parent's new item list, as Insert builds it. */
  method AddSplit(p: Page, child: PageId, sep: Bytes, right: PageId, ghost fence: Fence, ghost k: nat)
    returns (items: seq<Entry>, rightmost: PageId)
    requires p.Internal? && Distinct(Entries(p, fence)) && k < |Entries(p, fence)|
             && Entries(p, fence)[k].child == child
    ensures items + [Entry(rightmost, fence)] == SplitAt(Entries(p, fence), k, Key(sep), right)
  {
    ghost var L := Entries(p, fence);
    if child == p.rightmost {
      assert L[|p.items|].child == child;
      return p.items + [Entry(child, Key(sep))], right;
    }
    assert k < |p.items| && L[k] == p.items[k];
    var i := 0;
    while i < |p.items| && p.items[i].child != child
      invariant 0 <= i <= k
    {
      assert L[i] == p.items[i];
      i := i + 1;
    }
    assert L[i] == p.items[i] && i == k;
    assert L[k + 1..] == p.items[k + 1..] + [Entry(p.rightmost, fence)];
    items := p.items[..i] + [Entry(child, Key(sep)), Entry(right, p.items[i].fence)] + p.items[i + 1..];
    rightmost := p.rightmost;
  }

  /** A tree of one leaf with one cell. */
  lemma {:induction false} FirstLeaf(pages: Pages, id: PageId, key: Bytes, value: Bytes)
    requires id != INVALID_PAGE_ID && LeafItemOk(LeafItem(key, value))
    requires id in pages && pages[id] == Leaf([LeafItem(key, value)], INVALID_PAGE_ID, INVALID_PAGE_ID)
    ensures var levels := [[Entry(id, Unbounded)]];
            && WellFormed(pages, id, levels, map[id := 0]) && AllLeaves(pages, levels[0])
            && ToMap(AllCells(pages, levels[0])) == map[key := value] && UniformTree(pages, levels, |key|, |value|)
  {
    var cells := [LeafItem(key, value)];
    hide WellFormed, AllCells, Rank;
    OneCell(LeafItem(key, value));
    hide ToMap, CellsOk;
    SingleLeaf(pages, id, cells);
    assert UniformTree(pages, [[Entry(id, Unbounded)]], |key|, |value|);
  }

  lemma {:induction false} OneCell(c: LeafItem)
    requires LeafItemOk(c)
    ensures ToMap([c]) == map[c.key := c.value] && CellsOk([c], -1.0, 1.0)
  {
    hide Rank;
    assert [c][..0] == [] && ToMap([]) == map[];
    assert LeafSize([c]) == LeafCost(c);
  }

  class Tree {
    var root: PageId
    var pages: Pages
    ghost var levels: seq<Level>
    ghost var depth: map<PageId, nat>

    ghost predicate Valid()
      reads this
    {
      if root == INVALID_PAGE_ID then levels == [] else WellFormed(pages, root, levels, depth)
    }

    /** The tree as a plain map. */
    ghost function Contents(): map<Bytes, Bytes>
      requires Valid()
      reads this
    {
      if root == INVALID_PAGE_ID then map[]
      else
        LeavesAreLeaves(pages, levels[0]);
        ToMap(AllCells(pages, levels[0]))
    }

    /** Insert finds room for the key and value. */
    ghost predicate HasRoom(key: Bytes, value: Bytes)
      requires Valid()
      reads this
    {
      root == INVALID_PAGE_ID || (Shapes(pages, root, levels, depth); InsertFits(pages, levels, key, value))
    }

    ghost predicate Uniform(a: nat, b: nat)
      reads this
    {
      root == INVALID_PAGE_ID || UniformTree(pages, levels, a, b)
    }

    constructor ()
      ensures Valid() && Contents() == map[]
    {
      root, pages, levels, depth := INVALID_PAGE_ID, map[], [], map[];
    }

    method Descend(key: Bytes) returns (path: seq<PageId>)
      requires Valid() && root != INVALID_PAGE_ID
      ensures IsPath(levels, path, key)
    {
      hide LeafOk, Expand, Rank, CoverIndex, WellFormed, SortedFences, Distinct, LeavesOk, UpperLevels;
      Shapes(pages, root, levels, depth);
      var curr := root;
      path := [];
      PageOnWay(pages, root, levels, depth, |levels| - 1, key);
      while true
        invariant LevelShapes(levels) && |path| < |levels|
        invariant curr == OnWay(levels, |levels| - 1 - |path|, key)
        invariant forall d :: 0 <= d < |path| ==> path[d] == OnWay(levels, |levels| - 1 - d, key)
        decreases |levels| - |path|
      {
        ghost var g := |levels| - 1 - |path|;
        PageOnWay(pages, root, levels, depth, g, key);
        path := path + [curr];
        if pages[curr].Leaf? {
          break;
        }
        curr := RouteChild(pages[curr], levels[g][CoverIndex(levels[g], key)].fence, key);
      }
    }

    /** Every descent from the root meets sorted pages and ends in a leaf: true of a valid tree, and still
        true after a refused insertion. */
    ghost predicate CanSearch()
      reads this
    {
      root != INVALID_PAGE_ID ==> |levels| > 0 && Searchable(pages, root, |levels| - 1)
    }

    /** What a search for the key finds. */
    ghost function Find(key: Bytes): Option<Bytes>
      reads this
    {
      if root == INVALID_PAGE_ID || levels == [] then None else Lookup(pages, root, |levels| - 1, key)
    }

    lemma {:induction false} ValidSearch(key: Bytes)
      requires Valid()
      ensures CanSearch() && Find(key) == Get(Contents(), key)
    {
      hide Searchable, Lookup, ToMap, AllCells;
      if root != INVALID_PAGE_ID {
        TreeAnswers(pages, root, levels, depth, key);
      }
    }

    /** The pages left by a refused insertion into the tree (pages0, levels0) that held m. */
    ghost predicate AfterRefusal(pages0: Pages, levels0: seq<Level>, m: map<Bytes, Bytes>, key: Bytes, value: Bytes)
      reads this
    {
      && root != INVALID_PAGE_ID && |levels| > 0 && LevelShapes(levels0) && AllLeaves(pages0, levels0[0])
      && FindsKept(pages, root, |levels| - 1, m[key := value], pages0, levels0, key, value)
    }

    /** Search finds what the descent leads to; in a valid tree that is the map. */
    method Search(key: Bytes) returns (value: Bytes, found: bool)
      requires CanSearch()
      ensures found <==> Find(key).Some?
      ensures found ==> Find(key) == Some(value)
      ensures Valid() ==> (found <==> key in Contents()) && (found ==> value == Contents()[key])
    {
      hide Rank, CoverIndex, LowerBound, WellFormed, ToMap, AllCells;
      if Valid() { ValidSearch(key); }
      if root == INVALID_PAGE_ID {
        return [], false;
      }
      var curr := root;
      ghost var h: nat := |levels| - 1;
      while pages[curr].Internal?
        invariant Searchable(pages, curr, h) && Find(key) == Lookup(pages, curr, h, key)
        decreases h
      {
        assert h > 0;
        ghost var L := Entries(pages[curr], Unbounded);
        assert Searchable(pages, L[CoverIndex(L, key)].child, h - 1);
        curr := RouteChild(pages[curr], Unbounded, key);
        h := h - 1;
      }
      var cells := pages[curr].cells;
      var idx;
      idx, found := BinarySearch(cells, key);
      value := if found then cells[idx].value else [];
    }

    method Delete(key: Bytes)
      requires Valid()
      modifies this
      ensures Valid() && Contents() == old(Contents()) - {key}
      ensures root == old(root) && levels == old(levels) && pages.Keys == old(pages).Keys
      ensures forall a, b :: old(Uniform(a, b)) ==> Uniform(a, b)
    {
      hide Expand, Rank, CoverIndex, LowerBound, AllCells, ToMap, Put, Linked, LevelOk, LeavesOk, LeafSize;
      if root == INVALID_PAGE_ID {
        return;
      }
      var path := Descend(key);
      CoveringLeaf(pages, root, levels, depth, key, []);
      var leafId := path[|path| - 1];
      var cells := pages[leafId].cells;
      var idx, found := BinarySearch(cells, key);
      if found {
        ghost var i := CoverIndex(levels[0], key);
        var cells' := cells[..idx] + cells[idx + 1..];
        WithoutOk(cells, key, LowRank(levels[0], i), FenceRank(levels[0][i].fence));
        LeafRewritten(pages, root, levels, depth, i, cells');
        CellsRewritten(pages, levels[0], i, cells');
        pages := pages[leafId := pages[leafId].(cells := cells')];
      }
    }

    /** One parent on the path: write the new items, or split the page around its middle item. */
    method StepUp(parentId: PageId, child: PageId, sep: Bytes, right: PageId, ghost h: nat, ghost key: Bytes,
                  ghost pages0: Pages, ghost levels0: seq<Level>, ghost depth0: map<PageId, nat>) returns (step: Step)
      requires WellFormed(pages0, root, levels0, depth0) && UpperLevels(pages0, levels0, h)
      requires InFlight(pages0, levels0, pages, root, levels, depth, h, key, sep, right) && h + 1 < |levels|
      requires parentId == OnWay(levels0, h + 1, key) && child == OnWay(levels0, h, key) && AllLeaves(pages, levels[0])
      modifies this
      ensures root == old(root) && |levels| == |levels0| && levels[0] == old(levels[0])
      ensures !step.Overflow? ==> Agree(old(pages), pages, levels[0])
      ensures step.Absorbed? ==> WellFormed(pages, root, levels, depth) && AbsorbFits(pages0, levels0, h, key, sep)
      ensures step.Overflow? ==> !AbsorbFits(pages0, levels0, h, key, sep)
      ensures step.Overflow? ==> FindsAbove(pages, root, |levels| - 1, old(ToMap(AllCells(pages, levels[0]))), pages0,
                                   levels0, h, key, sep)
      ensures step.Split? ==> forall k :: KeptAbove(pages0, levels0, h, key, sep, k)
                                == KeptAbove(pages0, levels0, h + 1, key, step.sep, k)
      ensures step.Split? ==>
                && InFlight(pages0, levels0, pages, root, levels, depth, h + 1, key, step.sep, step.right)
                && (AbsorbFits(pages0, levels0, h, key, sep) <==> AbsorbFits(pages0, levels0, h + 1, key, step.sep))
    {
      hide WellFormed, InFlight, Rank, CoverIndex, InternalSize, ParentView, AbsorbFits, UpperLevels, Distinct,
          Rewritten, FindsAbove, AllCells, ToMap, ParentAfter, KeptAbove;
      ghost var fence, k, L := StepFacts(pages0, levels0, depth0, pages, root, levels, depth, h, key, sep, right);
      var p := pages[parentId];
      var items, rightmost := AddSplit(p, child, sep, right, fence, k);
      EntriesOf(L, items, rightmost, fence);
      hide Entries, SplitAt;
      if InternalFits(items) {
        AbsorbedOnWay(pages0, levels0, pages, root, levels, depth, h, key, sep, right, L);
        pages := pages[parentId := Internal(items, rightmost)];
        return Absorbed;
      }
      step := DivideParent(parentId, items, rightmost, h, key, sep, right, L, CoverIndex(levels0[h + 1], key), pages0,
          levels0);
    }

    /** The parent overflows: divide its items around the middle one. */
    method DivideParent(parentId: PageId, items: seq<Entry>, rightmost: PageId, ghost h: nat, ghost key: Bytes,
                        ghost sep: Bytes, ghost right: PageId,
                        ghost L: Level, ghost j: nat, ghost pages0: Pages, ghost levels0: seq<Level>)
                          returns (step: Step)
      requires InFlight(pages0, levels0, pages, root, levels, depth, h, key, sep, right) && h + 1 < |levels|
               && UpperLevels(pages0, levels0, h)
      requires |levels| == |levels0| && levels[h + 1] == levels0[h + 1]
               && L == ParentAfter(pages0, levels0[h + 1], key, sep, right) && AllLeaves(pages, levels[0])
      requires j == CoverIndex(levels0[h + 1], key) && ParentView(pages, levels[h + 1], levels[h], j, L)
      requires parentId == levels[h + 1][j].child && parentId in pages
      requires |L| == |items| + 1 && items == L[..|L| - 1] && L[|L| - 1].child == rightmost && |items| > 0
               && !InternalFits(items) && L[|items| / 2].fence.Key?
      requires AbsorbFits(pages0, levels0, h, key, sep) <==> ParentFits(pages0, levels0, h, key, L)
      modifies this
      ensures root == old(root) && |levels| == old(|levels|) && levels[0] == old(levels[0]) && !step.Absorbed?
      ensures step.Split? ==> Agree(old(pages), pages, levels[0])
      ensures step.Overflow? ==> !AbsorbFits(pages0, levels0, h, key, sep)
      ensures step.Overflow? ==> FindsAbove(pages, root, |levels| - 1, old(ToMap(AllCells(pages, levels[0]))), pages0,
                                   levels0, h, key, sep)
      ensures step.Split? ==> forall k :: KeptAbove(pages0, levels0, h, key, sep, k)
                                == KeptAbove(pages0, levels0, h + 1, key, step.sep, k)
      ensures step.Split? ==>
                && InFlight(pages0, levels0, pages, root, levels, depth, h + 1, key, step.sep, step.right)
                && (AbsorbFits(pages0, levels0, h, key, sep) <==> AbsorbFits(pages0, levels0, h + 1, key, step.sep))
    {
      hide InFlight, Rank, CoverIndex, InternalSize, ParentView, AbsorbFits, UpperLevels, Rewritten, FindsAbove,
          AllCells, ToMap, ParentAfter, KeptAbove, InternalFits, InternalPrefix, SplitAt, SplitPending;
      Halves(L, items, rightmost);
      var r := Allocate(pages);
      var midIn := |items| / 2;
      pages := pages[r := Internal([], 0)];
      pages := pages[parentId := Internal(InternalPrefix(items[..midIn]), items[midIn].child)];
      if !InternalFits(items[..midIn]) {
        RefusedAbove(pages0, levels0, old(pages), root, levels, depth, h, key, sep, right, L, r, pages);
        return Overflow;
      }
      pages := pages[r := Internal(InternalPrefix(items[midIn + 1..]), rightmost)];
      if !InternalFits(items[midIn + 1..]) {
        RefusedAbove(pages0, levels0, old(pages), root, levels, depth, h, key, sep, right, L, r, pages);
        return Overflow;
      }
      KeptMovesUp(pages0, levels0, h, key, sep, right, L);
      SplitMovesUp(pages0, levels0, old(pages), root, levels, depth, h, key, sep, right, L, r);
      assert pages == SplitParentPages(old(pages), parentId, L, r);
      levels := levels[h + 1 := SplitAt(levels[h + 1], j, L[midIn].fence, r)];
      depth := depth[r := h + 1];
      return Split(items[midIn].fence.key, r);
    }

    /** Carry a split up the path: each parent takes it or splits in turn, and a split root gets a
        new root above it. */
    method Propagate(path: seq<PageId>, separator: Bytes, rightPage: PageId, ghost key: Bytes,
                     ghost pages0: Pages, ghost levels0: seq<Level>, ghost depth0: map<PageId, nat>) returns (ok: bool)
      requires root != INVALID_PAGE_ID && WellFormed(pages0, root, levels0, depth0) && IsPath(levels0, path, key)
      requires InFlight(pages0, levels0, pages, root, levels, depth, 0, key, separator, rightPage)
      requires AllLeaves(pages, levels[0]) && UpperLevels(pages0, levels0, 0)
      modifies this
      ensures ok <==> AbsorbFits(pages0, levels0, 0, key, separator)
      ensures ok ==> root != INVALID_PAGE_ID && Valid() && levels[0] == old(levels[0]) && AllLeaves(pages, levels[0])
      ensures ok ==> AllCells(pages, levels[0]) == old(AllCells(pages, levels[0]))
                       && Agree(old(pages), pages, levels[0])
      ensures !ok ==> root == old(root) && |levels| == |levels0|
      ensures !ok ==> FindsAbove(pages, root, |levels| - 1, old(ToMap(AllCells(pages, levels[0]))), pages0, levels0, 0,
                        key, separator)
    {
      hide FindsAbove, KeptAbove, ToMap;
      hide WellFormed, SplitPending, Rank, FenceRank, CoverIndex, Expand, Merge, InternalSize, Linked, LevelOk,
          AllCells, ParentAfter;
      var sep, right := separator, rightPage;
      var d := |path| - 1;
      ghost var h := 0;
      while d > 0
        invariant 0 <= d < |path| && h == |path| - 1 - d
        invariant |levels| == |levels0| && root == old(root) && levels[0] == old(levels[0])
        invariant InFlight(pages0, levels0, pages, root, levels, depth, h, key, sep, right)
        invariant AllLeaves(pages, levels[0]) && AllCells(pages, levels[0]) == old(AllCells(pages, levels[0]))
        invariant Agree(old(pages), pages, levels[0])
        invariant UpperLevels(pages0, levels0, h)
        invariant AbsorbFits(pages0, levels0, h, key, sep) == AbsorbFits(pages0, levels0, 0, key, separator)
        invariant forall k :: KeptAbove(pages0, levels0, h, key, sep, k)
                    == KeptAbove(pages0, levels0, 0, key, separator, k)
      {
        ghost var before := pages;
        hide AbsorbFits, InFlight;
        var step := StepUp(path[d - 1], path[d], sep, right, h, key, pages0, levels0, depth0);
        if step.Overflow? {
          SameFinds(pages, root, |levels| - 1, ToMap(AllCells(before, levels[0])), pages0, levels0, key, h, sep, 0,
              separator);
          return false;
        }
        AllCellsFrame(before, pages, levels[0]);
        if step.Absorbed? { return true; }
        sep, right, d, h := step.sep, step.right, d - 1, h + 1;
      }
      GrowRoot(sep, right, key, pages0, levels0, depth0, path);
      return true;
    }

    method GrowRoot(sep: Bytes, right: PageId, ghost key: Bytes,
                    ghost pages0: Pages, ghost levels0: seq<Level>, ghost depth0: map<PageId, nat>,
                        ghost path: seq<PageId>)
      requires |levels| == |levels0| > 0 && AllLeaves(pages, levels[0])
      requires InFlight(pages0, levels0, pages, root, levels, depth, |levels| - 1, key, sep, right)
      modifies this
      ensures root != INVALID_PAGE_ID && Valid() && levels[0] == old(levels[0]) && AllLeaves(pages, levels[0])
      ensures AllCells(pages, levels[0]) == old(AllCells(pages, levels[0])) && Agree(old(pages), pages, levels[0])
    {
      hide WellFormed, Rank, FenceRank, CoverIndex, Expand, Merge, Linked, AllCells, Distinct, SortedFences;
      var n := Allocate(pages);
      ghost var h := |levels| - 1;
      RootGrows(pages, root, levels, depth, h, CoverIndex(levels0[h], key), n);
      AllCellsFrame(pages, pages[n := Internal([Entry(root, Key(sep))], right)], levels[0]);
      pages := pages[n := Internal([Entry(root, Key(sep))], right)];
      levels := levels + [[Entry(n, Unbounded)]];
      depth := depth[n := h + 1];
      root := n;
    }

    method NewRootLeaf(key: Bytes, value: Bytes)
      requires root == INVALID_PAGE_ID && LeafItemOk(LeafItem(key, value))
      modifies this
      ensures root != INVALID_PAGE_ID && Valid() && Contents() == map[key := value] && Uniform(|key|, |value|)
    {
      var id := Allocate(pages);
      var cells := [LeafItem(key, value)];
      pages := pages[id := Leaf(cells, INVALID_PAGE_ID, INVALID_PAGE_ID)];
      hide WellFormed, ToMap, AllCells, UniformTree;
      FirstLeaf(pages, id, key, value);
      root, levels, depth := id, [[Entry(id, Unbounded)]], map[id := 0];
    }

    /** The leaf on the path takes the cell. */
    method RewriteLeaf(leafId: PageId, cells: seq<LeafItem>, key: Bytes, value: Bytes)
      requires root != INVALID_PAGE_ID && Valid() && LevelShapes(levels) && leafId == OnWay(levels, 0, key)
      requires AllLeaves(pages, levels[0]) && cells == Put(pages[leafId].cells, key, value) && LeafFits(cells)
      requires LeafItemOk(LeafItem(key, value))
      modifies this
      ensures root == old(root) && levels == old(levels) && Valid() && Contents() == old(Contents())[key := value]
      ensures pages == old(pages)[leafId := old(pages)[leafId].(cells := cells)]
    {
      hide Expand, Rank, CoverIndex, LowerBound, AllCells, ToMap, Put, Linked, LevelOk, LeavesOk, LeafSize;
      CoveringLeaf(pages, root, levels, depth, key, value);
      ghost var i := CoverIndex(levels[0], key);
      PutOk(pages[leafId].cells, key, value, LowRank(levels[0], i), FenceRank(levels[0][i].fence));
      LeafRewritten(pages, root, levels, depth, i, cells);
      CellsRewritten(pages, levels[0], i, cells);
      pages := pages[leafId := pages[leafId].(cells := cells)];
    }

    /** The leaf overflows: divide its cells and relink the chain. */
    method DivideLeaf(leafId: PageId, cells: seq<LeafItem>) returns (right: PageId, ok: bool)
      requires leafId in pages && pages[leafId].Leaf? && pages[leafId].next != leafId
      requires pages[leafId].next == INVALID_PAGE_ID || (pages[leafId].next in pages && pages[pages[leafId].next].Leaf?)
      modifies this`pages
      ensures right !in old(pages) && right != INVALID_PAGE_ID
      ensures ok <==> LeafFits(cells[..|cells| / 2]) && LeafFits(cells[|cells| / 2..])
      ensures ok ==> pages == SplitLeafPages(old(pages), leafId, cells[..|cells| / 2], cells[|cells| / 2..], right)
      ensures !ok ==> pages.Keys == old(pages).Keys + {right} && pages[leafId].Leaf?
                        && pages[leafId].cells == LeafPrefix(cells[..|cells| / 2])
      ensures !ok ==> SameButLinks(old(pages), pages, leafId)
    {
      hide LeafSize, LeafFits, SplitLeafPages, LeafPrefix;
      var mid := |cells| / 2;
      var leftItems, rightItems := cells[..mid], cells[mid..];
      right := LinkRight(leafId, cells);
      LeafParts(old(pages), leafId, LeafPrefix(cells), [], right);
      pages := pages[leafId := pages[leafId].(cells := LeafPrefix(leftItems))];
      LeafParts(old(pages), leafId, LeafPrefix(leftItems), [], right);
      if !LeafFits(leftItems) { return right, false; }
      pages := pages[right := pages[right].(cells := LeafPrefix(rightItems))];
      LeafParts(old(pages), leafId, LeafPrefix(leftItems), LeafPrefix(rightItems), right);
      ok := LeafFits(rightItems);
    }

    /** A new right sibling in the chain.  The leaf has lost what did not fit it. */
    method LinkRight(leafId: PageId, cells: seq<LeafItem>) returns (right: PageId)
      requires leafId in pages && pages[leafId].Leaf? && pages[leafId].next != leafId
      requires pages[leafId].next == INVALID_PAGE_ID || (pages[leafId].next in pages && pages[pages[leafId].next].Leaf?)
      modifies this`pages
      ensures right !in old(pages) && right != INVALID_PAGE_ID
              && pages == SplitLeafPages(old(pages), leafId, LeafPrefix(cells), [], right)
    {
      hide LeafPrefix;
      right := Allocate(pages);
      var next := pages[leafId].next;
      pages := pages[right := Leaf([], leafId, next)];
      pages := pages[leafId := pages[leafId].(cells := LeafPrefix(cells), next := right)];
      if next != INVALID_PAGE_ID {
        pages := pages[next := pages[next].(prev := right)];
      }
    }

    /** The leaf on the path is divided, and the parents told. */
    method SplitLeaf(path: seq<PageId>, cells: seq<LeafItem>, key: Bytes, value: Bytes) returns (ok: bool)
      requires root != INVALID_PAGE_ID && Valid() && IsPath(levels, path, key) && LeafItemOk(LeafItem(key, value))
      requires AllLeaves(pages, levels[0]) && cells == Put(pages[path[|path| - 1]].cells, key, value)
               && !LeafFits(cells)
      modifies this
      ensures ok <==> old(InsertFits(pages, levels, key, value))
      ensures ok ==> root != INVALID_PAGE_ID && Valid() && Contents() == old(Contents())[key := value]
      ensures ok && old(UniformTree(pages, levels, |key|, |value|)) && UniformLeaf(cells, |key|, |value|)
              ==> Uniform(|key|, |value|)
      ensures !ok ==> AfterRefusal(old(pages), old(levels), old(Contents()), key, value)
    {
      hide FindsAbove, FindsKept, Kept, KeptAbove;
      hide Expand, Rank, CoverIndex, AllCells, ToMap, Put, Linked, LevelOk, LeavesOk, LeafSize, WellFormed, AbsorbFits,
          InFlight, SplitAt, SplitLeafPages, UniformFences;
      var mid := |cells| / 2;
      ghost var i := CoverIndex(levels[0], key);
      Shapes(pages, root, levels, depth);
      NextLeaf(pages, root, levels, depth, i);
      var right;
      right, ok := DivideLeaf(path[|path| - 1], cells);
      if !ok {
        LeafRefuses(old(pages), root, levels, depth, key, value, right, pages);
        return;
      }
      LeafSplitInFlight(old(pages), root, levels, depth, key, value, right);
      ghost var uniform := UniformTree(old(pages), levels, |key|, |value|) && UniformLeaf(cells, |key|, |value|);
      if uniform {
        UniformSplit(old(pages), pages, levels[0], i, cells[..mid], cells[mid..], right, |key|, |value|);
      }
      levels := levels[0 := SplitAt(levels[0], i, Key(cells[mid].key), right)];
      depth := depth[right := 0];
      ghost var pages1 := pages;
      ok := Propagate(path, cells[mid].key, right, key, old(pages), old(levels), old(depth));
      if ok && uniform {
        Shapes(pages, root, levels, depth);
        UniformFrame(pages1, pages, levels[0], |key|, |value|);
      }
      if !ok {
        KeptIsAbove(pages, root, |levels| - 1, old(Contents())[key := value], old(pages), old(levels), key, value);
      }
    }

    /** Insert or update a key. */
    method Insert(key: Bytes, value: Bytes) returns (res: InsertResult)
      requires Valid()
      modifies this
      ensures res == KeyTooLong <==> |key| > MAX_KEY_SIZE
      ensures res == ValueTooLong <==> |key| <= MAX_KEY_SIZE && |value| > MAX_VALUE_SIZE
      ensures res == KeyTooLong || res == ValueTooLong ==> unchanged(this)
      ensures res == Done <==> LeafItemOk(LeafItem(key, value)) && old(HasRoom(key, value))
      ensures res == Done ==> Valid() && Contents() == old(Contents())[key := value]
      ensures res == NoSpace ==> AfterRefusal(old(pages), old(levels), old(Contents()), key, value)
      ensures LeafItemOk(LeafItem(key, value)) && old(Uniform(|key|, |value|))
              ==> res == Done && Uniform(|key|, |value|)
    {
      hide Expand, Rank, CoverIndex, AllCells, ToMap, Put, Linked, LevelOk, LeavesOk, LeafSize, LowerBound, WellFormed,
          AbsorbFits;
      if |key| > MAX_KEY_SIZE { return KeyTooLong; }
      if |value| > MAX_VALUE_SIZE { return ValueTooLong; }
      if root == INVALID_PAGE_ID {
        NewRootLeaf(key, value);
        return Done;
      }
      var path := Descend(key);
      CoveringLeaf(pages, root, levels, depth, key, value);
      var leafId := path[|path| - 1];
      var items := pages[leafId].cells;
      var idx, found := BinarySearch(items, key);
      var cells := if found then items[idx := LeafItem(key, value)]
                   else items[..idx] + [LeafItem(key, value)] + items[idx..];
      assert cells == Put(items, key, value) by { PutIs(items, key, value, idx, found); }
      if UniformTree(pages, levels, |key|, |value|) {
        UniformFits(pages, root, levels, depth, key, value);
      }
      if LeafFits(cells) {
        RewriteLeaf(leafId, cells, key, value);
        return Done;
      }
      var ok := SplitLeaf(path, cells, key, value);
      return if ok then Done else NoSpace;
    }
  }

  // ---------- Whole runs ----------

  datatype Op = PutOp(key: Bytes, value: Bytes) | DeleteOp(key: Bytes)

  /** What a run of operations does to a plain map. */
  ghost function Replay(m: map<Bytes, Bytes>, ops: seq<Op>): map<Bytes, Bytes> {
    if ops == [] then m
    else
      var before := Replay(m, ops[..|ops| - 1]);
      var op := ops[|ops| - 1];
      if op.PutOp? then before[op.key := op.value] else before - {op.key}
  }

  predicate UniformOp(op: Op, a: nat, b: nat) {
    op.PutOp? ==> |op.key| == a && |op.value| == b
  }

  /** Any run of insertions and deletions that meets no error leaves a well-formed tree holding what a
      plain map holds after the same run; and with keys and values of one size there is no error. */
  method Run(t: Tree, ops: seq<Op>, ghost a: nat, ghost b: nat) returns (ok: bool)
    requires t.Valid()
    modifies t
    ensures ok ==> t.Valid() && t.Contents() == Replay(old(t.Contents()), ops)
    ensures t.CanSearch()
    ensures (&& a <= MAX_KEY_SIZE && b <= MAX_VALUE_SIZE && old(t.Uniform(a, b))
             && (forall i :: 0 <= i < |ops| ==> UniformOp(ops[i], a, b)))
            ==> ok
  {
    hide WellFormed, UniformTree, AllCells, ToMap, Searchable;
    ghost var uniform := && a <= MAX_KEY_SIZE && b <= MAX_VALUE_SIZE && old(t.Uniform(a, b))
                         && forall i :: 0 <= i < |ops| ==> UniformOp(ops[i], a, b);
    var n := 0;
    while n < |ops|
      invariant 0 <= n <= |ops|
      invariant t.Valid() && t.Contents() == Replay(old(t.Contents()), ops[..n])
      invariant uniform ==> t.Uniform(a, b)
    {
      assert ops[..n + 1][..n] == ops[..n];
      assert uniform ==> UniformOp(ops[n], a, b);
      match ops[n] {
        case PutOp(key, value) =>
          var res := t.Insert(key, value);
          if res != Done {
            if res != NoSpace { t.ValidSearch(key); }
            return false;
          }
        case DeleteOp(key) =>
          t.Delete(key);
      }
      n := n + 1;
    }
    assert ops[..n] == ops;
    t.ValidSearch([]);
    return true;
  }

  // ---------- An insertion that cannot find room ----------

  function Big(i: Byte): LeafItem {
    LeafItem([i] + seq(MAX_KEY_SIZE - 1, _ => 0), seq(MAX_VALUE_SIZE, _ => 0))
  }

  function Small(i: Byte): LeafItem {
    LeafItem([i], [])
  }

  lemma {:induction false} CellFacts(i: Byte)
    ensures |Big(i).key| == MAX_KEY_SIZE && |Big(i).value| == MAX_VALUE_SIZE && Big(i).key[0] == i
    ensures |Small(i).key| == 1 && |Small(i).value| == 0 && Small(i).key[0] == i
  {
  }

  lemma {:induction false} FirstByteOrder(a: LeafItem, b: LeafItem)
    requires |a.key| > 0 && |b.key| > 0 && a.key[0] < b.key[0]
    ensures Rank(a.key) < Rank(b.key)
  {
    RankIsOrderEmbedding(a.key, b.key);
  }

  /** Five cells that fit one leaf, in key order. */
  lemma {:induction false} SkewedLeaf(cells: seq<LeafItem>)
    requires cells == [Big(1), Big(2), Small(3), Small(4), Small(5)]
    ensures CellsOk(cells, -1.0, 1.0)
    ensures LeafSize(cells[..1]) == 6152 && LeafSize(cells[..2]) == 12304
    ensures Rank(Big(0).key) < Rank(cells[0].key)
  {
    hide Big, Small, Rank;
    CellFacts(0); CellFacts(1); CellFacts(2); CellFacts(3); CellFacts(4); CellFacts(5);
    forall i, j | 0 <= i < j < |cells| ensures Rank(cells[i].key) < Rank(cells[j].key) {
      FirstByteOrder(cells[i], cells[j]);
    }
    FirstByteOrder(Big(0), cells[0]);
    assert cells[..0] == [] && cells[..1][..0] == cells[..0] && cells[..2][..1] == cells[..1];
    assert cells[..3][..2] == cells[..2] && cells[..4][..3] == cells[..3] && cells[..5][..4] == cells[..4]
           && cells[..5] == cells;
    assert LeafSize(cells[..1]) == 6152;
    assert LeafSize(cells[..2]) == 12304;
    assert LeafSize(cells[..3]) == 12313;
    assert LeafSize(cells[..4]) == 12322;
    assert LeafSize(cells) == 12331;
  }

  /** Splits halve by count: three large cells to the left of three small ones do not fit one page.  So a
      valid insertion into this well-formed tree is refused; and of the six keys a search then finds the
      refused one and one of the five that were stored. */
  lemma {:induction false} SkewedInsertRefused()
    returns (pages: Pages, root: PageId, levels: seq<Level>, depth: map<PageId, nat>, key: Bytes, value: Bytes)
    ensures WellFormed(pages, root, levels, depth) && LeafItemOk(LeafItem(key, value))
    ensures LevelShapes(levels) && AllLeaves(pages, levels[0]) && !InsertFits(pages, levels, key, value)
    ensures AllCells(pages, levels[0]) == [Big(1), Big(2), Small(3), Small(4), Small(5)] && key == Big(0).key
    ensures Kept(pages, levels, key, value, Big(0).key) && Kept(pages, levels, key, value, Big(1).key)
            && !Kept(pages, levels, key, value, Big(2).key)
    ensures !Kept(pages, levels, key, value, Small(3).key) && !Kept(pages, levels, key, value, Small(4).key)
            && !Kept(pages, levels, key, value, Small(5).key)
  {
    hide Rank, LeafSize, Big, Small, CellsOk, Put, Within, LeafPrefix;
    var cells := [Big(1), Big(2), Small(3), Small(4), Small(5)];
    SkewedLeaf(cells);
    CellFacts(0);
    root, key, value := 2, Big(0).key, Big(0).value;
    pages, levels, depth := map[root := Leaf(cells, INVALID_PAGE_ID, INVALID_PAGE_ID)], [[Entry(root, Unbounded)]],
        map[root := 0];
    SingleLeaf(pages, root, cells);
    Shapes(pages, root, levels, depth);
    assert CoverIndex(levels[0], key) == 0;
    SkewedPut(cells, LeafItem(key, value));
    SkewedRanks(cells);
    forall k ensures Covers(levels[0], 0, k) { RankNotNegative(k); }
  }

  lemma {:induction false} SkewedRanks(cells: seq<LeafItem>)
    requires cells == [Big(1), Big(2), Small(3), Small(4), Small(5)]
    ensures Rank(Big(0).key) < Rank(Big(2).key) && Rank(Big(1).key) < Rank(Big(2).key)
    ensures Rank(Big(2).key) < Rank(Small(3).key) && Rank(Big(2).key) < Rank(Small(4).key)
            && Rank(Big(2).key) < Rank(Small(5).key)
  {
    hide Big, Small, Rank;
    CellFacts(0); CellFacts(1); CellFacts(2); CellFacts(3); CellFacts(4); CellFacts(5);
    FirstByteOrder(Big(0), Big(2));
    FirstByteOrder(Big(1), Big(2));
    FirstByteOrder(Big(2), Small(3));
    FirstByteOrder(Big(2), Small(4));
    FirstByteOrder(Big(2), Small(5));
  }

  lemma {:induction false} SkewedPut(cells: seq<LeafItem>, c: LeafItem)
    requires CellsOk(cells, -1.0, 1.0) && |cells| == 5 && Rank(c.key) < Rank(cells[0].key)
    requires LeafSize(cells[..2]) == 12304 && LeafCost(c) == 6152
    requires LeafSize(cells[..1]) == 6152
    ensures var cells' := Put(cells, c.key, c.value);
            && cells' == [c] + cells && |cells'| == 6 && !LeafFits(cells') && !LeafFits(cells'[..3])
                && |LeafPrefix(cells'[..3])| == 2
  {
    hide Rank, LowerBound;
    LowerBoundUnique(cells, c.key, 0);
    var cells' := [c] + cells;
    PutIs(cells, c.key, c.value, 0, false);
    assert cells[..0] + [c] + cells[0..] == cells';
    assert cells'[..3] == [c] + cells[..2] && [c][..0] == [];
    LeafSizeConcat([c], cells[..2]);
    LeafSizeConcat(cells'[..3], cells'[3..]);
    assert cells' == cells'[..3] + cells'[3..];
    TwoOfThree([c] + cells[..2], c, cells);
  }

  lemma {:induction false} TwoOfThree(front: seq<LeafItem>, c: LeafItem, cells: seq<LeafItem>)
    requires |cells| == 5 && front == [c] + cells[..2] && LeafCost(c) == 6152 && LeafSize(cells[..1]) == 6152
             && !LeafFits(front)
    ensures |LeafPrefix(front)| == 2
  {
    assert front[..2] == [c] + cells[..1] && [c][..0] == [];
    LeafSizeConcat([c], cells[..1]);
    PrefixStep(front);
  }

  lemma {:induction false} PrefixStep(front: seq<LeafItem>)
    requires !LeafFits(front) && |front| == 3 && LeafFits(front[..2])
    ensures LeafPrefix(front) == front[..2]
  {
  }
}
