/**
 The cells of B+tree pages and the space they take.

 A page of 16384 bytes keeps 64 bytes of header; every cell costs four bytes of slot
 directory plus its payload.  Module NodePages derives the same numbers from the bytes.
 */
module Cells {
  import opened ByteOrder

  type PageId = nat

  const INVALID_PAGE_ID: PageId := 0xFFFF_FFFF_FFFF_FFFF
  const MAX_KEY_SIZE := 2048
  const MAX_VALUE_SIZE := 4096
  const CAPACITY := 16384 - 64

  datatype LeafItem = LeafItem(key: Bytes, value: Bytes)

  /** An upper bound on keys; `Unbounded` is the bound of the last page of a level. */
  datatype Fence = Key(key: Bytes) | Unbounded

  /** A child page holding keys below `fence`.  The items stored in an internal page all have
      a key as their fence. */
  datatype Entry = Entry(child: PageId, fence: Fence)

  function LeafCost(c: LeafItem): nat {
    4 + (4 + |c.key| + |c.value|)
  }

  function EntryCost(e: Entry): nat {
    4 + (10 + if e.fence.Key? then |e.fence.key| else 0)
  }

  function LeafSize(cells: seq<LeafItem>): nat {
    if cells == [] then 0 else LeafSize(cells[..|cells| - 1]) + LeafCost(cells[|cells| - 1])
  }

  function InternalSize(items: seq<Entry>): nat {
    if items == [] then 0 else InternalSize(items[..|items| - 1]) + EntryCost(items[|items| - 1])
  }

  predicate LeafFits(cells: seq<LeafItem>) {
    LeafSize(cells) <= CAPACITY
  }

  predicate InternalFits(items: seq<Entry>) {
    InternalSize(items) <= CAPACITY
  }

  /** What SetItems leaves in a leaf page: cells are added one by one until one does not fit. */
  function LeafPrefix(cells: seq<LeafItem>): (r: seq<LeafItem>)
    ensures r <= cells && LeafFits(r)
    ensures LeafFits(cells) <==> r == cells
    ensures r != cells ==> !LeafFits(cells[..|r| + 1])
  {
    if LeafFits(cells) then cells
    else
      var r := LeafPrefix(cells[..|cells| - 1]);
      assert |r| + 1 < |cells| ==> cells[..|cells| - 1][..|r| + 1] == cells[..|r| + 1];
      assert |r| + 1 == |cells| ==> cells[..|r| + 1] == cells;
      r
  }

  function InternalPrefix(items: seq<Entry>): (r: seq<Entry>)
    ensures r <= items && InternalFits(r)
    ensures InternalFits(items) <==> r == items
    ensures r != items ==> !InternalFits(items[..|r| + 1])
  {
    if InternalFits(items) then items
    else
      var r := InternalPrefix(items[..|items| - 1]);
      assert |r| + 1 < |items| ==> items[..|items| - 1][..|r| + 1] == items[..|r| + 1];
      assert |r| + 1 == |items| ==> items[..|r| + 1] == items;
      r
  }

  predicate LeafItemOk(c: LeafItem) {
    |c.key| <= MAX_KEY_SIZE && |c.value| <= MAX_VALUE_SIZE
  }

  predicate ItemOk(e: Entry) {
    e.fence.Key? && |e.fence.key| <= MAX_KEY_SIZE && e.child != INVALID_PAGE_ID
  }

  predicate LeafItemsOk(cells: seq<LeafItem>) {
    forall i :: 0 <= i < |cells| ==> LeafItemOk(cells[i])
  }

  predicate ItemsOk(items: seq<Entry>) {
    forall i :: 0 <= i < |items| ==> ItemOk(items[i])
  }

  lemma {:induction false} LeafSizeBound(cells: seq<LeafItem>)
    requires LeafItemsOk(cells)
    ensures LeafSize(cells) <= |cells| * 6152
  {
    if cells != [] { LeafSizeBound(cells[..|cells| - 1]); }
  }

  lemma {:induction false} InternalSizeBound(items: seq<Entry>)
    requires ItemsOk(items)
    ensures InternalSize(items) <= |items| * 2062
  {
    if items != [] { InternalSizeBound(items[..|items| - 1]); }
  }

  /** Under the key and value limits an overflowing leaf has at least three cells and an
      overflowing internal page at least eight, so no half of a split is empty. */
  lemma {:induction false} OverflowCounts(cells: seq<LeafItem>, items: seq<Entry>)
    requires LeafItemsOk(cells) && ItemsOk(items)
    ensures !LeafFits(cells) ==> |cells| >= 3 && 0 < |cells| / 2 < |cells|
    ensures !InternalFits(items) ==> |items| >= 8 && 0 < |items| / 2 && |items| / 2 + 1 < |items|
  {
    LeafSizeBound(cells);
    InternalSizeBound(items);
  }

  /** The size of an internal page depends on its separators only. */
  lemma {:induction false} InternalSizeByFences(a: seq<Entry>, b: seq<Entry>)
    requires |a| == |b| && forall i :: 0 <= i < |a| ==> a[i].fence == b[i].fence
    ensures InternalSize(a) == InternalSize(b)
  {
    if a != [] { InternalSizeByFences(a[..|a| - 1], b[..|b| - 1]); }
  }

  predicate UniformLeaf(cells: seq<LeafItem>, a: nat, b: nat) {
    forall i :: 0 <= i < |cells| ==> |cells[i].key| == a && |cells[i].value| == b
  }

  predicate UniformItems(items: seq<Entry>, a: nat) {
    forall i :: 0 <= i < |items| ==> items[i].fence.Key? && |items[i].fence.key| == a
  }

  lemma {:induction false} UniformLeafSize(cells: seq<LeafItem>, a: nat, b: nat)
    requires UniformLeaf(cells, a, b)
    ensures LeafSize(cells) == |cells| * (8 + a + b)
  {
    if cells != [] {
      UniformLeafSize(cells[..|cells| - 1], a, b);
      assert (|cells| - 1) * (8 + a + b) + (8 + a + b) == |cells| * (8 + a + b);
    }
  }

  lemma {:induction false} UniformItemsSize(items: seq<Entry>, a: nat)
    requires UniformItems(items, a)
    ensures InternalSize(items) == |items| * (14 + a)
  {
    if items != [] {
      UniformItemsSize(items[..|items| - 1], a);
      assert (|items| - 1) * (14 + a) + (14 + a) == |items| * (14 + a);
    }
  }
}
