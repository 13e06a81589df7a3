/**
 What a B+tree holds: the cells of its leaves from left to right, and the map they spell.
 Also how a key is routed from the root to the one leaf that may hold it.
 */
module BTreeContents {
  import opened ByteOrder
  import opened Cells
  import opened BTreeLevels

  // ---------- The cells of all leaves ----------

  ghost predicate AllLeaves(pages: Pages, es: Level) {
    forall i :: 0 <= i < |es| ==> es[i].child in pages && pages[es[i].child].Leaf?
  }

  ghost function AllCells(pages: Pages, es: Level): seq<LeafItem>
    requires AllLeaves(pages, es)
  {
    if es == [] then [] else AllCells(pages, es[..|es| - 1]) + pages[es[|es| - 1].child].cells
  }

  lemma {:induction false} LeavesAreLeaves(pages: Pages, es: Level)
    requires LeavesOk(pages, es)
    ensures AllLeaves(pages, es)
  {
    forall i | 0 <= i < |es| ensures es[i].child in pages && pages[es[i].child].Leaf? {
      assert LeafOk(pages, es, i);
    }
  }

  lemma {:induction false} AllCellsConcat(pages: Pages, a: Level, b: Level)
    requires AllLeaves(pages, a) && AllLeaves(pages, b)
    ensures AllLeaves(pages, a + b)
    ensures AllCells(pages, a + b) == AllCells(pages, a) + AllCells(pages, b)
  {
    if b == [] {
      assert a + b == a;
    } else {
      var init, last := b[..|b| - 1], b[|b| - 1];
      AllCellsConcat(pages, a, init);
      assert (a + b)[..|a + b| - 1] == a + init && (a + b)[|a + b| - 1] == last;
      Associative(AllCells(pages, a), AllCells(pages, init), pages[last.child].cells);
    }
  }

  lemma {:induction false} AllCellsFrame(pages: Pages, pages': Pages, es: Level)
    requires AllLeaves(pages, es)
    requires forall i :: 0 <= i < |es| ==> es[i].child in pages' && pages'[es[i].child].Leaf?
                                             && pages'[es[i].child].cells == pages[es[i].child].cells
    ensures AllLeaves(pages', es) && AllCells(pages', es) == AllCells(pages, es)
  {
    if es != [] { AllCellsFrame(pages, pages', es[..|es| - 1]); }
  }

  lemma {:induction false} AllCellsAt(pages: Pages, es: Level, i: nat)
    requires AllLeaves(pages, es) && i < |es|
    ensures AllLeaves(pages, es[..i]) && AllLeaves(pages, es[i + 1..])
    ensures AllCells(pages, es) == AllCells(pages, es[..i]) + pages[es[i].child].cells + AllCells(pages, es[i + 1..])
  {
    AllCellsConcat(pages, es[..i + 1], es[i + 1..]);
    assert es == es[..i + 1] + es[i + 1..];
    assert es[..i + 1][..i] == es[..i];
  }

  /** Leaves before a leaf hold smaller keys than any it may hold. */
  lemma {:induction false} CellsBefore(pages: Pages, es: Level, n: nat)
    requires LeavesOk(pages, es) && SortedFences(es) && n <= |es|
    ensures AllLeaves(pages, es[..n])
    ensures SortedCells(AllCells(pages, es[..n]))
    ensures forall x :: 0 <= x < |AllCells(pages, es[..n])| ==> Rank(AllCells(pages, es[..n])[x].key) < LowRank(es, n)
  {
    hide Rank, FenceRank;
    LeavesAreLeaves(pages, es);
    if n > 0 {
      CellsBefore(pages, es, n - 1);
      assert LeafOk(pages, es, n - 1);
      assert es[..n][..n - 1] == es[..n - 1];
      var a, c := AllCells(pages, es[..n - 1]), pages[es[n - 1].child].cells;
      var s := AllCells(pages, es[..n]);
      assert s == a + c;
      forall x | 0 <= x < |s| ensures Rank(s[x].key) < LowRank(es, n) {
        if x < |a| { assert Rank(a[x].key) < LowRank(es, n - 1) <= LowRank(es, n); }
      }
    }
  }

  lemma {:induction false} CellsAfter(pages: Pages, es: Level, n: nat)
    requires LeavesOk(pages, es) && SortedFences(es) && n <= |es|
    ensures AllLeaves(pages, es[n..])
    ensures forall x :: 0 <= x < |AllCells(pages, es[n..])| ==> LowRank(es, n) <= Rank(AllCells(pages, es[n..])[x].key)
    decreases |es| - n
  {
    hide Rank, FenceRank, AllCells, LeafOk, SortedFences, LowRank;
    LeavesAreLeaves(pages, es);
    if n < |es| {
      CellsAfter(pages, es, n + 1);
      LeafBound(pages, es, n);
      LowerFirst(es, n);
      FirstCells(pages, es, n);
      BoundConcat(pages[es[n].child].cells, AllCells(pages, es[n + 1..]), LowRank(es, n));
    } else {
      NoneAfter(pages, es);
    }
  }

  lemma {:induction false} NoneAfter(pages: Pages, es: Level)
    ensures AllLeaves(pages, es[|es|..]) && AllCells(pages, es[|es|..]) == []
  {
  }

  lemma {:induction false} LeafBound(pages: Pages, es: Level, n: nat)
    requires n < |es| && LeafOk(pages, es, n)
    ensures es[n].child in pages && pages[es[n].child].Leaf?
    ensures forall x :: 0 <= x < |pages[es[n].child].cells| ==> LowRank(es, n) <= Rank(pages[es[n].child].cells[x].key)
  {
    hide Rank;
  }

  lemma {:induction false} LowerFirst(es: Level, n: nat)
    requires SortedFences(es) && n < |es|
    ensures LowRank(es, n) <= LowRank(es, n + 1)
  {
  }

  lemma {:induction false} FirstCells(pages: Pages, es: Level, n: nat)
    requires n < |es| && AllLeaves(pages, es)
    ensures AllLeaves(pages, es[n..]) && AllLeaves(pages, es[n + 1..]) && es[n].child in pages
            && pages[es[n].child].Leaf?
    ensures AllCells(pages, es[n..]) == pages[es[n].child].cells + AllCells(pages, es[n + 1..])
  {
    assert es[n..] == [es[n]] + es[n + 1..];
    AllCellsConcat(pages, [es[n]], es[n + 1..]);
    assert [es[n]][..0] == [];
    assert AllCells(pages, [es[n]]) == pages[es[n].child].cells;
  }

  lemma {:induction false} BoundConcat(c: seq<LeafItem>, b: seq<LeafItem>, low: real)
    requires (forall x :: 0 <= x < |c| ==> low <= Rank(c[x].key)) && forall x :: 0 <= x < |b| ==> low <= Rank(b[x].key)
    ensures forall x :: 0 <= x < |c + b| ==> low <= Rank((c + b)[x].key)
  {
    hide Rank;
  }

  // ---------- The map ----------

  ghost function ToMap(s: seq<LeafItem>): map<Bytes, Bytes> {
    if s == [] then map[] else ToMap(s[..|s| - 1])[s[|s| - 1].key := s[|s| - 1].value]
  }

  lemma {:induction false} ToMapLookup(s: seq<LeafItem>)
    requires SortedCells(s)
    ensures forall i :: 0 <= i < |s| ==> s[i].key in ToMap(s) && ToMap(s)[s[i].key] == s[i].value
    ensures forall k :: k in ToMap(s) ==> exists i :: 0 <= i < |s| && s[i].key == k
  {
    if s != [] { ToMapLookup(s[..|s| - 1]); }
  }

  lemma {:induction false} ToMapConcat(a: seq<LeafItem>, b: seq<LeafItem>)
    ensures ToMap(a + b) == ToMap(a) + ToMap(b)
  {
    if b == [] {
      assert a + b == a;
    } else {
      ToMapConcat(a, b[..|b| - 1]);
      assert (a + b)[..|a + b| - 1] == a + b[..|b| - 1];
    }
  }

  lemma {:induction false} NotInMap(s: seq<LeafItem>, key: Bytes)
    requires forall i :: 0 <= i < |s| ==> s[i].key != key
    ensures key !in ToMap(s)
  {
    if s != [] { NotInMap(s[..|s| - 1], key); }
  }

  lemma {:induction false} MapOfThree(a: seq<LeafItem>, c: seq<LeafItem>, b: seq<LeafItem>)
    requires |c| <= 1
    ensures ToMap(a + c + b) == ToMap(a) + (if c == [] then map[] else map[c[0].key := c[0].value]) + ToMap(b)
  {
    ToMapConcat(a + c, b);
    ToMapConcat(a, c);
    if c != [] { assert ToMap(c[..0]) == map[]; }
  }

  /** A key is in no cell before or after its own place. */
  ghost predicate Apart(a: seq<LeafItem>, key: Bytes, b: seq<LeafItem>) {
    && (forall i :: 0 <= i < |a| ==> a[i].key != key)
    && (forall i :: 0 <= i < |b| ==> b[i].key != key)
  }

  /** Putting a cell in its place is a map update, whether or not it replaces a cell with the same key. */
  lemma {:induction false} ToMapPut(a: seq<LeafItem>, replaced: seq<LeafItem>, c: LeafItem, b: seq<LeafItem>)
    requires Apart(a, c.key, b)
    requires |replaced| <= 1 && (replaced != [] ==> replaced[0].key == c.key)
    ensures ToMap(a + [c] + b) == ToMap(a + replaced + b)[c.key := c.value]
  {
    MapOfThree(a, [c], b);
    MapOfThree(a, replaced, b);
    NotInMap(a, c.key);
    NotInMap(b, c.key);
    hide ToMap;
    MapPut(ToMap(a), if replaced == [] then map[] else map[replaced[0].key := replaced[0].value], ToMap(b), c.key,
                       c.value);
  }

  lemma {:induction false} MapPut(a: map<Bytes, Bytes>, m: map<Bytes, Bytes>, b: map<Bytes, Bytes>, k: Bytes, v: Bytes)
    requires k !in b && m.Keys <= {k}
    ensures a + map[k := v] + b == (a + m + b)[k := v]
  {
  }

  lemma {:induction false} ToMapRemove(a: seq<LeafItem>, c: LeafItem, b: seq<LeafItem>)
    requires Apart(a, c.key, b)
    ensures ToMap(a + b) == ToMap(a + [c] + b) - {c.key}
  {
    MapOfThree(a, [c], b);
    ToMapConcat(a, b);
    NotInMap(a, c.key);
    NotInMap(b, c.key);
  }

  // ---------- Routing ----------

  ghost predicate Covers(es: Level, i: nat, key: Bytes) {
    i < |es| && LowRank(es, i) <= Rank(key) < FenceRank(es[i].fence)
  }

  /** The page of a level that may hold the key. */
  ghost function CoverIndex(es: Level, key: Bytes): (i: nat)
    requires |es| > 0 && Rank(key) < FenceRank(es[|es| - 1].fence)
    ensures i < |es| && Rank(key) < FenceRank(es[i].fence)
    ensures i > 0 ==> FenceRank(es[i - 1].fence) <= Rank(key)
  {
    FirstAbove(es, key, 0)
  }

  ghost function FirstAbove(es: Level, key: Bytes, from: nat): (i: nat)
    requires from < |es| && Rank(key) < FenceRank(es[|es| - 1].fence)
    requires from > 0 ==> FenceRank(es[from - 1].fence) <= Rank(key)
    ensures from <= i < |es| && Rank(key) < FenceRank(es[i].fence)
    ensures i > 0 ==> FenceRank(es[i - 1].fence) <= Rank(key)
    decreases |es| - from
  {
    if Rank(key) < FenceRank(es[from].fence) then from else FirstAbove(es, key, from + 1)
  }

  lemma {:induction false} CoverUnique(es: Level, key: Bytes, i: nat)
    requires |es| > 0 && Rank(key) < FenceRank(es[|es| - 1].fence) && SortedFences(es)
    requires Covers(es, i, key)
    ensures i == CoverIndex(es, key)
  {
  }

  /** One step of the descent: the child chosen inside a page covers the key in the level beneath. */
  lemma {:induction false} DescendStep(pages: Pages, upper: Level, lower: Level, j: nat, k: nat, key: Bytes)
    requires AllInternal(pages, upper) && Expand(pages, upper) == lower && SortedFences(lower) && Covers(upper, j, key)
    requires Covers(Entries(pages[upper[j].child], upper[j].fence), k, key)
    ensures AllInternal(pages, upper[..j])
    ensures var i := |Expand(pages, upper[..j])| + k;
            && ChildPosition(pages, upper, j, k, i) && Covers(lower, i, key)
            && lower[i] == Entries(pages[upper[j].child], upper[j].fence)[k]
  {
    ExpandAt(pages, upper, j);
    var L := Entries(pages[upper[j].child], upper[j].fence);
    var before := Expand(pages, upper[..j]);
    var i := |before| + k;
    assert lower[i] == L[k];
    if k > 0 {
      assert lower[i - 1] == L[k - 1];
    } else if j > 0 {
      ExpandLast(pages, upper[..j]);
      assert lower[i - 1] == before[|before| - 1];
    }
  }

  /** The separators inside one page are sorted, and its children differ. */
  lemma {:induction false} PageSorted(pages: Pages, upper: Level, lower: Level, j: nat)
    requires AllInternal(pages, upper) && Expand(pages, upper) == lower && SortedFences(lower) && Distinct(lower)
             && j < |upper|
    ensures pages[upper[j].child].Internal?
    ensures SortedFences(Entries(pages[upper[j].child], upper[j].fence))
            && Distinct(Entries(pages[upper[j].child], upper[j].fence))
  {
    hide FenceRank, Expand;
    ExpandAt(pages, upper, j);
    var L := Entries(pages[upper[j].child], upper[j].fence);
    var off := |Expand(pages, upper[..j])|;
    forall x, y | 0 <= x < y < |L| ensures FenceRank(L[x].fence) < FenceRank(L[y].fence) && L[x].child != L[y].child {
      assert lower[off + x] == L[x] && lower[off + y] == L[y];
    }
  }

  /** The way of a key down the tree, read off the levels. */
  lemma {:induction false} CoverPosition(pages: Pages, upper: Level, lower: Level, key: Bytes)
    requires AllInternal(pages, upper) && Expand(pages, upper) == lower && SortedFences(lower) && |upper| > 0
             && |lower| > 0
    requires upper[|upper| - 1].fence.Unbounded? && lower[|lower| - 1].fence.Unbounded?
    ensures var j := CoverIndex(upper, key);
            var L := Entries(pages[upper[j].child], upper[j].fence);
            var k := CoverIndex(L, key);
            && ChildPosition(pages, upper, j, k, CoverIndex(lower, key))
            && lower[CoverIndex(lower, key)] == L[k]
  {
    var j := CoverIndex(upper, key);
    var L := Entries(pages[upper[j].child], upper[j].fence);
    var k := CoverIndex(L, key);
    DescendStep(pages, upper, lower, j, k, key);
    CoverUnique(lower, key, |Expand(pages, upper[..j])| + k);
  }

  // ---------- Cells of one leaf ----------

  ghost function LowerBound(cells: seq<LeafItem>, key: Bytes): (i: nat)
    ensures i <= |cells|
    ensures i < |cells| ==> Rank(key) <= Rank(cells[i].key)
    ensures i > 0 ==> Rank(cells[i - 1].key) < Rank(key)
  {
    if cells == [] || Rank(cells[|cells| - 1].key) < Rank(key) then |cells|
    else
      var i := LowerBound(cells[..|cells| - 1], key);
      i
  }

  lemma {:induction false} LowerBoundUnique(cells: seq<LeafItem>, key: Bytes, i: nat)
    requires SortedCells(cells) && i <= |cells|
    requires i < |cells| ==> Rank(key) <= Rank(cells[i].key)
    requires i > 0 ==> Rank(cells[i - 1].key) < Rank(key)
    ensures i == LowerBound(cells, key)
  {
    hide SortedCells, Rank;
    var j := LowerBound(cells, key);
    if i < j { RanksAscend(cells, i, j - 1); }
    if j < i { RanksAscend(cells, j, i - 1); }
  }

  lemma {:induction false} RanksAscend(cells: seq<LeafItem>, i: nat, j: nat)
    requires SortedCells(cells) && i <= j < |cells|
    ensures Rank(cells[i].key) <= Rank(cells[j].key)
  {
  }

  ghost predicate Holds(cells: seq<LeafItem>, key: Bytes) {
    LowerBound(cells, key) < |cells| && cells[LowerBound(cells, key)].key == key
  }

  /** The cells of a leaf after a key has been given a value. */
  ghost function Put(cells: seq<LeafItem>, key: Bytes, value: Bytes): seq<LeafItem> {
    var i := LowerBound(cells, key);
    if Holds(cells, key) then cells[i := LeafItem(key, value)]
    else cells[..i] + [LeafItem(key, value)] + cells[i..]
  }

  /** A cell list with one cell between strictly smaller and strictly larger ones. */
  ghost predicate Between(a: seq<LeafItem>, key: Bytes, b: seq<LeafItem>) {
    && (forall x :: 0 <= x < |a| ==> Rank(a[x].key) < Rank(key))
    && (forall x :: 0 <= x < |b| ==> Rank(key) < Rank(b[x].key))
  }

  lemma {:induction false} PutShape(cells: seq<LeafItem>, key: Bytes, value: Bytes)
    requires SortedCells(cells)
    ensures var i := LowerBound(cells, key);
            var j := if Holds(cells, key) then i + 1 else i;
            && Between(cells[..i], key, cells[j..])
            && Put(cells, key, value) == cells[..i] + [LeafItem(key, value)] + cells[j..]
  {
    hide Rank, Less, LowerBound;
    var i := LowerBound(cells, key);
    if i < |cells| { RankIsOrderEmbedding(cells[i].key, key); }
    assert forall x :: 0 <= x < i ==> Rank(cells[x].key) <= Rank(cells[i - 1].key);
  }

  lemma {:induction false} SortedAround(a: seq<LeafItem>, c: LeafItem, b: seq<LeafItem>)
    requires SortedCells(a) && SortedCells(b) && Between(a, c.key, b)
    ensures SortedCells(a + [c] + b)
  {
    hide Rank;
    var s := a + [c] + b;
    forall x, y | 0 <= x < y < |s| ensures Rank(s[x].key) < Rank(s[y].key) {
      assert x < |a| ==> s[x] == a[x];
      assert y > |a| ==> s[y] == b[y - |a| - 1];
      assert x > |a| ==> s[x] == b[x - |a| - 1];
    }
  }

  lemma {:induction false} PutOk(cells: seq<LeafItem>, key: Bytes, value: Bytes, low: real, high: real)
    requires SortedCells(cells) && Within(cells, low, high) && LeafItemsOk(cells)
    requires low <= Rank(key) < high && LeafItemOk(LeafItem(key, value))
    ensures var cells' := Put(cells, key, value);
            SortedCells(cells') && Within(cells', low, high) && LeafItemsOk(cells') && |cells'| > 0
  {
    hide Rank, Put, LowerBound, LeafItemOk;
    PutShape(cells, key, value);
    var i := LowerBound(cells, key);
    var j := if Holds(cells, key) then i + 1 else i;
    SortedAround(cells[..i], LeafItem(key, value), cells[j..]);
    hide SortedCells;
  }

  // ---------- The leaf that covers a key decides about it ----------

  ghost predicate LeafLevel(pages: Pages, es: Level) {
    LeavesOk(pages, es) && SortedFences(es) && AllLeaves(pages, es)
  }

  /** Split the cells of the whole tree around the place of a key. */
  lemma {:induction false} CellsAround(pages: Pages, es: Level, i: nat, key: Bytes)
    returns (a: seq<LeafItem>, b: seq<LeafItem>)
    requires LeafLevel(pages, es) && Covers(es, i, key)
    ensures AllLeaves(pages, es[..i]) && AllLeaves(pages, es[i + 1..])
    ensures a == AllCells(pages, es[..i]) && b == AllCells(pages, es[i + 1..])
    ensures AllCells(pages, es) == a + pages[es[i].child].cells + b
    ensures Between(a, key, b) && SortedCells(pages[es[i].child].cells)
  {
    CellsBefore(pages, es, i);
    CellsAfter(pages, es, i + 1);
    AllCellsAt(pages, es, i);
    a, b := AllCells(pages, es[..i]), AllCells(pages, es[i + 1..]);
    assert LeafOk(pages, es, i);
  }

  lemma {:induction false} Regroup(a: seq<LeafItem>, x: seq<LeafItem>, y: seq<LeafItem>, z: seq<LeafItem>,
                                   b: seq<LeafItem>)
    ensures a + (x + y + z) + b == (a + x) + y + (z + b)
  {
  }

  lemma {:induction false} BetweenWider(a: seq<LeafItem>, x: seq<LeafItem>, key: Bytes, z: seq<LeafItem>,
                                        b: seq<LeafItem>)
    requires Between(a, key, b) && Between(x, key, z)
    ensures Between(a + x, key, z + b) && Apart(a + x, key, z + b)
  {
    hide Rank;
  }

  lemma {:induction false} PutInCells(a: seq<LeafItem>, cells: seq<LeafItem>, b: seq<LeafItem>, key: Bytes,
                                      value: Bytes)
    requires Between(a, key, b) && SortedCells(cells)
    ensures ToMap(a + Put(cells, key, value) + b) == ToMap(a + cells + b)[key := value]
  {
    hide Put, ToMap, Rank, LowerBound;
    PutShape(cells, key, value);
    var lb := LowerBound(cells, key);
    var j := if Holds(cells, key) then lb + 1 else lb;
    var x, y, z, c := cells[..lb], cells[lb..j], cells[j..], LeafItem(key, value);
    BetweenWider(a, x, key, z, b);
    hide SortedCells, Between, Apart;
    Regroup(a, x, [c], z, b);
    assert cells == x + y + z;
    Regroup(a, x, y, z, b);
    ToMapPut(a + x, y, c, z + b);
  }

  lemma {:induction false} LookupInCells(a: seq<LeafItem>, cells: seq<LeafItem>, b: seq<LeafItem>, key: Bytes)
    requires Between(a, key, b) && SortedCells(cells)
    ensures key in ToMap(a + cells + b) <==> Holds(cells, key)
    ensures Holds(cells, key) ==> ToMap(a + cells + b)[key] == cells[LowerBound(cells, key)].value
  {
    hide Put, ToMap, SortedCells, Rank, LowerBound;
    PutShape(cells, key, []);
    var lb := LowerBound(cells, key);
    var j := if Holds(cells, key) then lb + 1 else lb;
    var x, y, z := cells[..lb], cells[lb..j], cells[j..];
    BetweenWider(a, x, key, z, b);
    hide Between;
    assert cells == x + y + z;
    Regroup(a, x, y, z, b);
    MapOfThree(a + x, y, z + b);
    NotInMap(a + x, key);
    NotInMap(z + b, key);
  }

  lemma {:induction false} RemoveInCells(a: seq<LeafItem>, cells: seq<LeafItem>, b: seq<LeafItem>, key: Bytes)
    requires Between(a, key, b) && SortedCells(cells) && Holds(cells, key)
    ensures ToMap(a + Without(cells, key) + b) == ToMap(a + cells + b) - {key}
  {
    hide Put, ToMap, SortedCells, Rank, LowerBound;
    PutShape(cells, key, []);
    var lb := LowerBound(cells, key);
    var x, c, z := cells[..lb], cells[lb], cells[lb + 1..];
    BetweenWider(a, x, key, z, b);
    hide Between, Apart;
    assert cells == x + [c] + z;
    Regroup(a, x, [c], z, b);
    ToMapRemove(a + x, c, z + b);
    assert a + (x + z) + b == (a + x) + (z + b);
  }

  /** The cells of a leaf after a key it holds has been deleted. */
  ghost function Without(cells: seq<LeafItem>, key: Bytes): seq<LeafItem>
    requires Holds(cells, key)
  {
    cells[..LowerBound(cells, key)] + cells[LowerBound(cells, key) + 1..]
  }

  /** The whole map depends on a key through the covering leaf alone: a lookup there answers for
      the tree, and rewriting it with `Put` or `Without` is a map update or removal. */
  lemma {:induction false} LeafDecides(pages: Pages, es: Level, i: nat, key: Bytes, value: Bytes)
    requires LeafLevel(pages, es) && Covers(es, i, key)
    ensures AllLeaves(pages, es[..i]) && AllLeaves(pages, es[i + 1..])
    ensures var cells := pages[es[i].child].cells;
            var m := ToMap(AllCells(pages, es));
            var a, b := AllCells(pages, es[..i]), AllCells(pages, es[i + 1..]);
            && (key in m <==> Holds(cells, key))
            && (Holds(cells, key) ==> m[key] == cells[LowerBound(cells, key)].value)
            && (Holds(cells, key) ==> ToMap(a + Without(cells, key) + b) == m - {key})
            && ToMap(a + Put(cells, key, value) + b) == m[key := value]
  {
    var cells := pages[es[i].child].cells;
    var a, b := CellsAround(pages, es, i, key);
    hide *;
    PutInCells(a, cells, b, key, value);
    LookupInCells(a, cells, b, key);
    if Holds(cells, key) { RemoveInCells(a, cells, b, key); }
  }

  lemma {:induction false} LeafSizeConcat(a: seq<LeafItem>, b: seq<LeafItem>)
    ensures LeafSize(a + b) == LeafSize(a) + LeafSize(b)
  {
    if b == [] {
      assert a + b == a;
    } else {
      LeafSizeConcat(a, b[..|b| - 1]);
      assert (a + b)[..|a + b| - 1] == a + b[..|b| - 1];
    }
  }

  /** Deleting from a leaf cannot break it; in particular the shorter list always fits. */
  lemma {:induction false} WithoutOk(cells: seq<LeafItem>, key: Bytes, low: real, high: real)
    requires CellsOk(cells, low, high) && Holds(cells, key)
    ensures CellsOk(Without(cells, key), low, high)
  {
    hide Rank, LowerBound, SortedCells, LeafSize, Within, LeafItemsOk;
    var lb := LowerBound(cells, key);
    RemoveSize(cells, lb);
    SortedWithout(cells, lb);
    OthersWithin(cells, lb, low, high);
  }

  lemma {:induction false} OthersWithin(cells: seq<LeafItem>, i: nat, low: real, high: real)
    requires Within(cells, low, high) && LeafItemsOk(cells) && i < |cells|
    ensures var s := cells[..i] + cells[i + 1..]; Within(s, low, high) && LeafItemsOk(s)
  {
    hide Rank;
    var s := cells[..i] + cells[i + 1..];
    forall u | 0 <= u < |s| ensures s[u] == cells[if u < i then u else u + 1] {
    }
  }

  lemma {:induction false} RemoveSize(cells: seq<LeafItem>, i: nat)
    requires i < |cells|
    ensures LeafSize(cells[..i] + cells[i + 1..]) <= LeafSize(cells)
  {
    var x, y, z := cells[..i], [cells[i]], cells[i + 1..];
    assert cells == x + (y + z);
    LeafSizeConcat(x, y + z);
    LeafSizeConcat(y, z);
    LeafSizeConcat(x, z);
  }

  lemma {:induction false} SortedWithout(cells: seq<LeafItem>, i: nat)
    requires SortedCells(cells) && i < |cells|
    ensures SortedCells(cells[..i] + cells[i + 1..])
  {
    hide Rank;
    var s := cells[..i] + cells[i + 1..];
    forall u, v | 0 <= u < v < |s| ensures Rank(s[u].key) < Rank(s[v].key) {
      assert s[u] == cells[if u < i then u else u + 1] && s[v] == cells[if v < i then v else v + 1];
    }
  }
}
