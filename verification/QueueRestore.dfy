/**
 Restart of the queue engine: restoreFromTree walks the stored tree with a cursor.

 Acknowledging messages empties leaves, and a cursor stops at the first empty one.
 */
module QueueRestore {
  import opened ByteOrder
  import opened Options
  import opened Heaps
  import opened Cells
  import opened BTreeLevels
  import opened BTreeContents
  import opened BTreeWay
  import opened MessageCodec
  import opened QueueEngine
  import B = BTree
  import C = Cursor

  ghost function Keys(cells: seq<LeafItem>): set<Bytes> {
    set i | 0 <= i < |cells| :: cells[i].key
  }

  /** The cells that a cursor meets from the first leaf on. */
  ghost function Walked(tree: B.Tree): seq<LeafItem>
    requires tree.Valid()
    reads tree
  {
    if tree.root == INVALID_PAGE_ID then []
    else
      LeavesAreLeaves(tree.pages, tree.levels[0]);
      AllCells(tree.pages, tree.levels[0][..C.Stop(tree.pages, tree.levels[0], 0)])
  }

  /** Of cells in order, a part at the front has all keys if and only if it is all of them. */
  lemma {:induction false} FrontKeys(front: seq<LeafItem>, rest: seq<LeafItem>)
    requires SortedCells(front + rest)
    ensures SortedCells(front) && ToMap(front + rest).Keys == Keys(front + rest)
    ensures forall i :: 0 <= i < |front| ==> front[i].key in ToMap(front + rest)
                                               && ToMap(front + rest)[front[i].key] == front[i].value
    ensures Keys(front) == Keys(front + rest) <==> rest == []
  {
    var all := front + rest;
    ToMapLookup(all);
    hide ToMap, Rank;
    forall i | 0 <= i < |front| ensures front[i] == all[i] {}
    if rest == [] {
      assert all == front;
    } else {
      assert all[|front|].key in Keys(all);
      forall i | 0 <= i < |front| ensures front[i].key != all[|front|].key {
        assert Rank(all[i].key) < Rank(all[|front|].key);
      }
    }
  }

  lemma {:induction false} LeafLevelIs(pages: Pages, es: Level)
    requires LeafLevel(pages, es)
    ensures AllLeaves(pages, es)
  {
  }

  /** The walk is the front part of the leaf level. */
  lemma {:induction false} WalkIsFront(tree: B.Tree) returns (rest: seq<LeafItem>)
    requires tree.Valid() && tree.root != INVALID_PAGE_ID
    ensures AllLeaves(tree.pages, tree.levels[0]) && |tree.levels[0]| > 0
    ensures AllCells(tree.pages, tree.levels[0]) == Walked(tree) + rest && SortedCells(Walked(tree) + rest)
    ensures rest == [] <==> C.OnlyEmptyAfter(tree.pages, tree.levels[0], 0)
    ensures tree.Contents() == ToMap(Walked(tree) + rest)
  {
    hide WellFormed, LeafLevel, UpperLevels, SortedCells, ToMap, AllCells, C.Stop, SortedFences, Distinct;
    Shapes(tree.pages, tree.root, tree.levels, tree.depth);
    LeafLevelIs(tree.pages, tree.levels[0]);
    var es := tree.levels[0];
    var n := C.Stop(tree.pages, es, 0);
    C.TreeSorted(tree.pages, es);
    C.ScanComplete(tree.pages, es);
    assert es == es[..n] + es[n..];
    AllCellsConcat(tree.pages, es[..n], es[n..]);
    rest := AllCells(tree.pages, es[n..]);
  }

  /** Every stored key is walked if and only if no empty leaf is followed by a cell; behind an empty first leaf
      there is nothing. */
  lemma {:induction false} WalksAllIff(tree: B.Tree)
    requires tree.Valid() && tree.root != INVALID_PAGE_ID
    ensures AllLeaves(tree.pages, tree.levels[0]) && |tree.levels[0]| > 0
    ensures Keys(Walked(tree)) == tree.Contents().Keys <==> C.OnlyEmptyAfter(tree.pages, tree.levels[0], 0)
    ensures C.CellsOf(tree.pages, tree.levels[0], 0) == [] ==> Walked(tree) == []
  {
    var rest := WalkIsFront(tree);
    FrontKeys(Walked(tree), rest);
    C.NothingIn(tree.pages);
    var es := tree.levels[0];
    assert C.CellsOf(tree.pages, es, 0) == [] ==> es[..C.Stop(tree.pages, es, 0)] == [];
  }

  /** restoreFromTree: the messages the walk meets, ready or leased when the engine stopped, are ready again.  All
      stored messages are if and only if no empty leaf is followed by a cell. */
  method Restore(tree: B.Tree, now: Int64, ghost live: Live) returns (ready: seq<Message>)
    requires tree.Valid() && Stored(tree.Contents(), live) && LiveOk(live)
             && forall id :: id in live ==> Encodable(live[id])
    ensures Ordered(ready, HeapKey) && HoldsReady(ready, RestoredFrom(live, Keys(Walked(tree)), now))
    ensures tree.root != INVALID_PAGE_ID ==>
              && AllLeaves(tree.pages, tree.levels[0]) && |tree.levels[0]| > 0
              && (Keys(Walked(tree)) == tree.Contents().Keys <==> C.OnlyEmptyAfter(tree.pages, tree.levels[0], 0))
              && (C.CellsOf(tree.pages, tree.levels[0], 0) == [] ==> ready == [])
  {
    hide Encode, Decode, Ordered, HoldsReady, ToMap, WellFormed, Keys, AllCells, C.OnlyEmptyAfter, C.Stop, RestoredFrom,
        Stored, LiveOk;
    if tree.root == INVALID_PAGE_ID {
      ready := [];
      NothingRestored(live, now);
      NoKeys([]);
      return;
    }
    WalksAllIff(tree);
    AllHeld(tree, live);
    var cur := new C.Cursor(tree);
    var _ := cur.First();
    ready := RestoreAhead(cur, now, live, Walked(tree));
  }

  /** The cells are the stored copies of live messages, in order. */
  ghost predicate Held(cells: seq<LeafItem>, live: Live) {
    SortedCells(cells) && forall i :: 0 <= i < |cells| ==> HeldOne(cells[i], live)
  }

  ghost predicate HeldOne(c: LeafItem, live: Live) {
    c.key in live && c.value == Encode(live[c.key]) && Encodable(live[c.key])
  }

  lemma {:induction false} AllHeld(tree: B.Tree, live: Live)
    requires tree.Valid() && tree.root != INVALID_PAGE_ID && Stored(tree.Contents(), live)
             && forall id :: id in live ==> Encodable(live[id])
    ensures Held(Walked(tree), live)
  {
    hide Encode, Encodable, WellFormed, ToMap, SortedCells;
    var rest := WalkIsFront(tree);
    FrontKeys(Walked(tree), rest);
  }

  lemma {:induction false} NoKeys(cells: seq<LeafItem>)
    ensures Keys(cells[..0]) == {} && cells[..|cells|] == cells && cells[0..] == cells && Keys([]) == {}
  {
  }

  /** The loop over the cursor. */
  method RestoreAhead(cur: C.Cursor, now: Int64, ghost live: Live, ghost all: seq<LeafItem>)
    returns (ready: seq<Message>)
    requires cur.Ok() && cur.Ahead() == all && Held(all, live) && LiveOk(live)
    modifies cur
    ensures Ordered(ready, HeapKey) && HoldsReady(ready, RestoredFrom(live, Keys(all), now))
            && (all == [] ==> ready == [])
  {
    hide Encode, Decode, Ordered, HoldsReady, WellFormed, Keys, C.AheadOf, C.BehindOf, RestoredFrom, SortedCells,
        LiveOk, LeafLevel;
    ready := [];
    NothingRestored(live, now);
    NoKeys(all);
    ghost var k := 0;
    while cur.valid
      invariant cur.Ok() && 0 <= k <= |all| && cur.Ahead() == all[k..]
      invariant Ordered(ready, HeapKey) && HoldsReady(ready, RestoredFrom(live, Keys(all[..k]), now))
                && (k == 0 ==> ready == [])
      decreases |all| - k
    {
      var c := cur.Item();
      assert c == all[k];
      ready := RestoreOne(ready, c, now, live, all, k);
      var _ := cur.Next();
      k := k + 1;
    }
    assert k == |all|;
  }

  /** One step of the walk. */
  method RestoreOne(ready: seq<Message>, c: LeafItem, now: Int64, ghost live: Live, ghost all: seq<LeafItem>,
                    ghost k: nat)
    returns (h: seq<Message>)
    requires k < |all| && all[k] == c && SortedCells(all) && LiveOk(live)
    requires HeldOne(c, live)
    requires Ordered(ready, HeapKey) && HoldsReady(ready, RestoredFrom(live, Keys(all[..k]), now))
    ensures Ordered(h, HeapKey) && HoldsReady(h, RestoredFrom(live, Keys(all[..k + 1]), now))
  {
    hide Encode, Decode, Ordered, HoldsReady;
    MessageRoundTrip(live[c.key], []);
    assert c.value + [] == c.value;
    OneMoreKey(all, k);
    var m := Decode(c.value);
    h := ready;
    if m.Some? {
      h := Push(ready, Restored(m.value, now), HeapKey);
      OneRestored(ready, h, live, Keys(all[..k]), c.key, now);
    }
  }

  lemma {:induction false} OneMoreKey(all: seq<LeafItem>, k: nat)
    requires k < |all| && SortedCells(all)
    ensures Keys(all[..k + 1]) == Keys(all[..k]) + {all[k].key} && all[k].key !in Keys(all[..k])
  {
    hide Rank;
    forall i | 0 <= i < k ensures all[..k][i].key != all[k].key {
      assert Rank(all[i].key) < Rank(all[k].key);
    }
    assert all[..k + 1] == all[..k] + [all[k]];
    var a, b := Keys(all[..k + 1]), Keys(all[..k]) + {all[k].key};
    forall x | x in b ensures x in a {
      if x == all[k].key {
        assert all[..k + 1][k].key == x;
      } else {
        var i :| 0 <= i < k && all[..k][i].key == x;
        assert all[..k + 1][i].key == x;
      }
    }
    forall x | x in a ensures x in b {
      var i :| 0 <= i < k + 1 && all[..k + 1][i].key == x;
      if i < k { assert all[..k][i].key == x; }
    }
  }
}
