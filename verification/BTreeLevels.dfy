/**
 The shape of a B+tree held in a page store.

 A tree of height H is described by H `levels`, leaves first.  Each level is the list of its
 pages from left to right, every page with the fence below which its keys lie.  Replacing every
 page of a level by its children (`Expand`) gives the level beneath it, and the top level is
 the root alone.  So all leaves are at the same depth, separators bound the subtrees on both
 sides, and the leaf level is the order in which the leaf chain must run.
 */
module BTreeLevels {
  import opened ByteOrder
  import opened Cells

  datatype Page =
    | Leaf(cells: seq<LeafItem>, prev: PageId, next: PageId)
    | Internal(items: seq<Entry>, rightmost: PageId)

  type Pages = map<PageId, Page>
  type Level = seq<Entry>

  ghost function FenceRank(f: Fence): (r: real)
    ensures f.Unbounded? <==> r == 1.0
    ensures 0.0 <= r <= 1.0
  {
    if f.Key? then Rank(f.key) else 1.0
  }

  // ---------- Expansion of a level into the level beneath ----------

  function Entries(p: Page, fence: Fence): Level
    requires p.Internal?
  {
    p.items + [Entry(p.rightmost, fence)]
  }

  ghost predicate AllInternal(pages: Pages, es: Level) {
    forall i :: 0 <= i < |es| ==> es[i].child in pages && pages[es[i].child].Internal?
  }

  ghost function Expand(pages: Pages, es: Level): Level
    requires AllInternal(pages, es)
  {
    if es == [] then []
    else
      var last := es[|es| - 1];
      Expand(pages, es[..|es| - 1]) + Entries(pages[last.child], last.fence)
  }

  lemma {:induction false} Associative<T>(a: seq<T>, b: seq<T>, c: seq<T>)
    ensures (a + b) + c == a + (b + c)
  {
  }

  lemma {:induction false} ExpandConcat(pages: Pages, a: Level, b: Level)
    requires AllInternal(pages, a) && AllInternal(pages, b)
    ensures AllInternal(pages, a + b)
    ensures Expand(pages, a + b) == Expand(pages, a) + Expand(pages, b)
  {
    if b == [] {
      assert a + b == a;
    } else {
      var init, last := b[..|b| - 1], b[|b| - 1];
      ExpandConcat(pages, a, init);
      assert (a + b)[..|a + b| - 1] == a + init && (a + b)[|a + b| - 1] == last;
      Associative(Expand(pages, a), Expand(pages, init), Entries(pages[last.child], last.fence));
    }
  }

  /** Two page stores hold the same pages at the children of a level. */
  ghost predicate Agree(pages: Pages, pages': Pages, es: Level) {
    forall i :: 0 <= i < |es| ==>
      es[i].child in pages && es[i].child in pages' && pages'[es[i].child] == pages[es[i].child]
  }

  lemma {:induction false} ExpandFrame(pages: Pages, pages': Pages, es: Level)
    requires AllInternal(pages, es) && Agree(pages, pages', es)
    ensures AllInternal(pages', es)
    ensures Expand(pages', es) == Expand(pages, es)
  {
    if es != [] { ExpandFrame(pages, pages', es[..|es| - 1]); }
  }

  /** The children of the j-th page of a level are a contiguous run of the level beneath. */
  lemma {:induction false} ExpandAt(pages: Pages, es: Level, j: nat)
    requires AllInternal(pages, es) && j < |es|
    ensures AllInternal(pages, es[..j]) && AllInternal(pages, es[j + 1..])
    ensures Expand(pages, es) ==
            Expand(pages, es[..j]) + Entries(pages[es[j].child], es[j].fence) + Expand(pages, es[j + 1..])
  {
    ExpandConcat(pages, es[..j + 1], es[j + 1..]);
    assert es == es[..j + 1] + es[j + 1..];
    assert es[..j + 1][..j] == es[..j];
  }

  lemma {:induction false} ExpandLast(pages: Pages, es: Level)
    requires AllInternal(pages, es) && es != []
    ensures |Expand(pages, es)| > 0
    ensures Expand(pages, es)[|Expand(pages, es)| - 1].fence == es[|es| - 1].fence
  {
  }

  // ---------- Well-formedness ----------

  ghost predicate SortedFences(es: Level) {
    forall i, j :: 0 <= i < j < |es| ==> FenceRank(es[i].fence) < FenceRank(es[j].fence)
  }

  ghost predicate Distinct(es: Level) {
    forall i, j :: 0 <= i < j < |es| ==> es[i].child != es[j].child
  }

  /** `depth` records at which level each page of the tree sits, so pages of different levels differ. */
  ghost predicate LevelOk(pages: Pages, depth: map<PageId, nat>, es: Level, h: nat) {
    && |es| > 0 && es[|es| - 1].fence.Unbounded?
    && (forall i :: 0 <= i < |es| ==>
          && es[i].child in pages && es[i].child != INVALID_PAGE_ID
          && es[i].child in depth && depth[es[i].child] == h)
    && Distinct(es)
    && SortedFences(es)
  }

  ghost predicate NodeOk(p: Page) {
    p.Internal? && |p.items| > 0 && ItemsOk(p.items) && InternalFits(p.items)
  }

  ghost predicate Linked(pages: Pages, upper: Level, lower: Level) {
    && (forall i :: 0 <= i < |upper| ==> upper[i].child in pages && NodeOk(pages[upper[i].child]))
    && Expand(pages, upper) == lower
  }

  ghost predicate SortedCells(cells: seq<LeafItem>) {
    forall i, j :: 0 <= i < j < |cells| ==> Rank(cells[i].key) < Rank(cells[j].key)
  }

  ghost function LowRank(es: Level, i: nat): real
    requires i <= |es|
  {
    if i == 0 then -1.0 else FenceRank(es[i - 1].fence)
  }

  /** The keys of the i-th leaf lie between its two fences. */
  ghost predicate Within(cells: seq<LeafItem>, low: real, high: real) {
    forall k :: 0 <= k < |cells| ==> low <= Rank(cells[k].key) < high
  }

  function ChildOr(es: Level, i: int): PageId {
    if 0 <= i < |es| then es[i].child else INVALID_PAGE_ID
  }

  ghost predicate CellsOk(cells: seq<LeafItem>, low: real, high: real) {
    SortedCells(cells) && Within(cells, low, high) && LeafItemsOk(cells) && LeafFits(cells)
  }

  ghost predicate LeafOk(pages: Pages, es: Level, i: nat)
    requires i < |es|
  {
    && es[i].child in pages
    && var p := pages[es[i].child];
    && p.Leaf?
    && CellsOk(p.cells, LowRank(es, i), FenceRank(es[i].fence))
    && p.prev == ChildOr(es, i - 1) && p.next == ChildOr(es, i + 1)
  }

  ghost predicate LeavesOk(pages: Pages, es: Level) {
    forall i :: 0 <= i < |es| ==> LeafOk(pages, es, i)
  }

  ghost predicate WellFormed(pages: Pages, root: PageId, levels: seq<Level>, depth: map<PageId, nat>) {
    && |levels| > 0
    && levels[|levels| - 1] == [Entry(root, Unbounded)]
    && (forall h :: 0 <= h < |levels| ==> LevelOk(pages, depth, levels[h], h))
    && (forall h :: 1 <= h < |levels| ==> Linked(pages, levels[h], levels[h - 1]))
    && LeavesOk(pages, levels[0])
  }

  /** Undo the split of the i-th page of a level. */
  ghost function Merge(es: Level, i: nat): Level
    requires i + 1 < |es|
  {
    es[..i] + [Entry(es[i].child, es[i + 1].fence)] + es[i + 2..]
  }

  /** Replace the i-th page by itself and a new right sibling. */
  ghost function SplitAt(es: Level, i: nat, sep: Fence, right: PageId): Level
    requires i < |es|
  {
    es[..i] + [Entry(es[i].child, sep), Entry(right, es[i].fence)] + es[i + 1..]
  }

  lemma {:induction false} MergeSplit(es: Level, i: nat, sep: Fence, right: PageId)
    requires i < |es|
    ensures |SplitAt(es, i, sep, right)| == |es| + 1 && SplitAt(es, i, sep, right)[i].fence == sep
    ensures Merge(SplitAt(es, i, sep, right), i) == es
  {
  }

  /** The i-th page of level h has been split, but the level above does not know it yet. */
  ghost predicate SplitPending(pages: Pages, root: PageId, levels: seq<Level>, depth: map<PageId, nat>, h: nat, i: nat)
  {
    && h < |levels| && i + 1 < |levels[h]|
    && (forall g :: 0 <= g < |levels| ==> LevelOk(pages, depth, levels[g], g))
    && (forall g :: 1 <= g < |levels| && g != h + 1 ==> Linked(pages, levels[g], levels[g - 1]))
    && LeavesOk(pages, levels[0])
    && (if h + 1 < |levels|
        then Linked(pages, levels[h + 1], Merge(levels[h], i)) && levels[|levels| - 1] == [Entry(root, Unbounded)]
        else Merge(levels[h], i) == [Entry(root, Unbounded)])
    && levels[h][i].fence.Key? && |levels[h][i].fence.key| <= MAX_KEY_SIZE
  }

  // ---------- A split and its absorption, one level at a time ----------

  lemma {:induction false} SplitLevelOk(pages: Pages, pages': Pages, depth: map<PageId, nat>, es: Level, h: nat, i: nat,
                                        sep: Fence, right: PageId)
    requires LevelOk(pages, depth, es, h) && i < |es|
    requires right !in pages && right != INVALID_PAGE_ID
    requires LowRank(es, i) < FenceRank(sep) < FenceRank(es[i].fence)
    requires pages'.Keys == pages.Keys + {right}
    ensures LevelOk(pages', depth[right := h], SplitAt(es, i, sep, right), h)
  {
    var es' := SplitAt(es, i, sep, right);
    forall a, b | 0 <= a < b < |es'|
      ensures es'[a].child != es'[b].child && FenceRank(es'[a].fence) < FenceRank(es'[b].fence)
    {
      var oa := if a <= i then a else a - 1;
      var ob := if b <= i then b else b - 1;
      assert es'[a].child == if a == i + 1 then right else es[oa].child;
      assert es'[b].child == if b == i + 1 then right else es[ob].child;
      assert es'[a].fence == if a == i then sep else es[oa].fence;
      assert es'[b].fence == if b == i then sep else es[ob].fence;
      if b == i { assert a <= i - 1; }
    }
  }

  lemma {:induction false} LinkedFrame(pages: Pages, pages': Pages, upper: Level, lower: Level)
    requires Linked(pages, upper, lower) && Agree(pages, pages', upper)
    ensures Linked(pages', upper, lower)
  {
    ExpandFrame(pages, pages', upper);
  }

  lemma {:induction false} LeavesFrame(pages: Pages, pages': Pages, es: Level)
    requires LeavesOk(pages, es) && Agree(pages, pages', es)
    ensures LeavesOk(pages', es)
  {
    forall i | 0 <= i < |es| ensures LeafOk(pages', es, i) {
      assert LeafOk(pages, es, i);
    }
  }

  /** The children of one page, rewritten, change the level beneath only there. */
  lemma {:induction false} ExpandReplace(pages: Pages, pages': Pages, es: Level, j: nat, mid: Level)
    requires AllInternal(pages, es) && j < |es| && Distinct(es)
    requires forall i :: 0 <= i < |es| && i != j ==> es[i].child in pages' && pages'[es[i].child] == pages[es[i].child]
    requires AllInternal(pages', mid)
    ensures AllInternal(pages, es[..j]) && AllInternal(pages, es[j + 1..])
    ensures AllInternal(pages', es[..j] + mid + es[j + 1..])
    ensures Expand(pages', es[..j] + mid + es[j + 1..]) ==
            Expand(pages, es[..j]) + Expand(pages', mid) + Expand(pages, es[j + 1..])
  {
    ExpandFrame(pages, pages', es[..j]);
    ExpandFrame(pages, pages', es[j + 1..]);
    ExpandConcat(pages', es[..j], mid);
    ExpandConcat(pages', es[..j] + mid, es[j + 1..]);
  }

  /** Where the child at position k of page j sits in the level beneath. */
  ghost predicate ChildPosition(pages: Pages, es: Level, j: nat, k: nat, i: nat) {
    && AllInternal(pages, es) && j < |es| && k < |Entries(pages[es[j].child], es[j].fence)|
    && i == |Expand(pages, es[..j])| + k
  }

  lemma {:induction false} SegmentOfMerge(lower: Level, i: nat, before: Level, L: Level, after: Level, k: nat)
    requires i + 1 < |lower| && Merge(lower, i) == before + L + after
    requires k < |L| && i == |before| + k
    ensures L[k] == Entry(lower[i].child, lower[i + 1].fence)
    ensures lower == before + SplitAt(L, k, lower[i].fence, lower[i + 1].child) + after
  {
    var m := Merge(lower, i);
    var r := before + SplitAt(L, k, lower[i].fence, lower[i + 1].child) + after;
    assert m[i] == L[k];
    assert |r| == |lower|;
    forall x | 0 <= x < |lower| ensures lower[x] == r[x] {
      if x < i {
        assert lower[x] == m[x];
      } else if x > i + 1 {
        assert lower[x] == m[x - 1];
      }
    }
  }

  lemma {:induction false} LowerSegment(pages: Pages, upper: Level, lower: Level, i: nat, j: nat, k: nat)
    requires AllInternal(pages, upper) && i + 1 < |lower| && Expand(pages, upper) == Merge(lower, i)
    requires ChildPosition(pages, upper, j, k, i)
    ensures var L := Entries(pages[upper[j].child], upper[j].fence);
            var before := Expand(pages, upper[..j]);
            && AllInternal(pages, upper[j + 1..])
            && lower == before + SplitAt(L, k, lower[i].fence, lower[i + 1].child) + Expand(pages, upper[j + 1..])
            && L[k] == Entry(lower[i].child, lower[i + 1].fence)
  {
    ExpandAt(pages, upper, j);
    SegmentOfMerge(lower, i, Expand(pages, upper[..j]), Entries(pages[upper[j].child], upper[j].fence),
                   Expand(pages, upper[j + 1..]), k);
  }
}
