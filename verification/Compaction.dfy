/**
 Compact: repacking the live records of a slotted page against its end.
 */
module Compaction {
  import opened ByteOrder
  import opened Options
  import opened PageBytes
  import opened SlottedLayout

  datatype ActiveSlot = ActiveSlot(id: nat, offset: nat, length: nat)

  function Total(s: seq<ActiveSlot>): nat {
    if s == [] then 0 else Total(s[..|s| - 1]) + s[|s| - 1].length
  }

  ghost predicate DistinctIds(s: seq<ActiveSlot>) {
    forall i, j :: 0 <= i < j < |s| ==> s[i].id != s[j].id
  }

  predicate SortedByOffset(s: seq<ActiveSlot>) {
    forall i, j :: 0 <= i < j < |s| ==> s[i].offset <= s[j].offset
  }

  // ---------- sort.Slice by offset ----------

  function Place(s: seq<ActiveSlot>, x: ActiveSlot): (k: nat)
    ensures k <= |s|
    ensures SortedByOffset(s) ==> (forall i :: 0 <= i < k ==> s[i].offset <= x.offset)
                                    && (forall i :: k <= i < |s| ==> x.offset <= s[i].offset)
  {
    if s == [] then 0
    else
      var rest := s[..|s| - 1];
      assert forall i :: 0 <= i < |rest| ==> rest[i] == s[i];
      assert SortedByOffset(s) ==> SortedByOffset(rest);
      if s[|s| - 1].offset <= x.offset then |s| else Place(rest, x)
  }

  function Sort(s: seq<ActiveSlot>): seq<ActiveSlot> {
    if s == [] then []
    else
      var r, x := Sort(s[..|s| - 1]), s[|s| - 1];
      r[..Place(r, x)] + [x] + r[Place(r, x)..]
  }

  lemma {:induction false} TotalConcat(a: seq<ActiveSlot>, b: seq<ActiveSlot>)
    ensures Total(a + b) == Total(a) + Total(b)
  {
    if b == [] {
      assert a + b == a;
    } else {
      TotalConcat(a, b[..|b| - 1]);
      assert (a + b)[..|a + b| - 1] == a + b[..|b| - 1];
    }
  }

  lemma {:induction false} InsertTotal(a: seq<ActiveSlot>, x: ActiveSlot, b: seq<ActiveSlot>)
    ensures Total(a + [x] + b) == Total(a + b) + x.length
  {
    TotalConcat(a, b);
    TotalConcat(a + [x], b);
    TotalConcat(a, [x]);
    assert [x][..0] == [];
  }

  lemma {:induction false} InsertSorted(a: seq<ActiveSlot>, x: ActiveSlot, b: seq<ActiveSlot>)
    requires SortedByOffset(a + b) && (forall i :: 0 <= i < |a| ==> a[i].offset <= x.offset)
             && (forall i :: 0 <= i < |b| ==> x.offset <= b[i].offset)
    requires DistinctIds(a + b) && forall y :: y in a + b ==> y.id != x.id
    ensures SortedByOffset(a + [x] + b) && DistinctIds(a + [x] + b)
  {
    var r, t := a + b, a + [x] + b;
    forall i, j | 0 <= i < j < |t| ensures t[i].offset <= t[j].offset && t[i].id != t[j].id {
      var u, v := if i < |a| then i else i - 1, if j < |a| then j else j - 1;
      assert i != |a| ==> t[i] == r[u];
      assert j != |a| ==> t[j] == r[v];
      assert i > |a| ==> t[i] == b[i - |a| - 1];
      assert j > |a| ==> t[j] == b[j - |a| - 1];
    }
  }

  /** Sort gives the same slots in order of offset. */
  lemma {:induction false} SortCorrect(s: seq<ActiveSlot>)
    requires DistinctIds(s)
    ensures SortedByOffset(Sort(s)) && DistinctIds(Sort(s)) && Total(Sort(s)) == Total(s)
    ensures forall y :: y in Sort(s) <==> y in s
  {
    if s != [] {
      var init, x := s[..|s| - 1], s[|s| - 1];
      SortCorrect(init);
      var r := Sort(init);
      var a, b := r[..Place(r, x)], r[Place(r, x)..];
      assert r == a + b;
      assert forall y :: y in s <==> y in init || y == x;
      forall y | y in r ensures y.id != x.id {
        assert y in init;
      }
      InsertSorted(a, x, b);
      InsertTotal(a, x, b);
      assert Sort(s) == a + [x] + b;
      hide Total, Place, DistinctIds, SortedByOffset;
      assert forall y :: y in a + [x] + b <==> y in r || y == x;
    }
  }

  // ---------- The repacking loop ----------

  /** The active slots of a page: those with a record of positive length. */
  ghost predicate ActiveOf(d: Bytes, n: nat, active: seq<ActiveSlot>) {
    && |d| == PAGE_SIZE && SlotPos(n) <= PAGE_SIZE
    && DistinctIds(active)
    && (forall a :: a in active ==> a.id < n && a.length > 0 && SlotAt(d, a.id) == Slot(a.offset, a.length))
    && (forall j :: 0 <= j < n && SlotAt(d, j).length > 0
          ==> ActiveSlot(j, SlotAt(d, j).offset, SlotAt(d, j).length) in active)
  }

  ghost predicate Moved(d: Bytes, temp: Bytes, j: nat, curEnd: nat)
    requires |d| == |temp| == PAGE_SIZE && SlotPos(j) + 4 <= PAGE_SIZE
  {
    && SlotAt(temp, j).length == SlotAt(d, j).length > 0 && CellAt(temp, j) == CellAt(d, j)
    && curEnd <= SlotAt(temp, j).offset && SlotAt(temp, j).offset + SlotAt(temp, j).length <= PAGE_SIZE
  }

  /** Halfway: the slots in `done` have been moved to the end of temp, the others are as before. */
  ghost predicate Repacked(d: Bytes, n: nat, temp: Bytes, curEnd: nat, done: set<nat>) {
    && |d| == |temp| == PAGE_SIZE && SlotPos(n) <= curEnd <= PAGE_SIZE
    && (forall j :: j in done ==> j < n && Moved(d, temp, j, curEnd))
    && (forall i, j :: i in done && j in done && i < j ==> Apart(SlotAt(temp, i), SlotAt(temp, j)))
    && (forall j :: 0 <= j < n && j !in done ==> SlotAt(temp, j) == SlotAt(d, j))
  }

  lemma {:induction false} MoveRecord(d: Bytes, n: nat, temp: Bytes, curEnd: nat, done: set<nat>, a: ActiveSlot)
    requires Repacked(d, n, temp, curEnd, done) && a.id < n && a.id !in done
    requires a.length > 0 && SlotAt(d, a.id) == Slot(a.offset, a.length) && DIRECTORY_START <= a.offset
             && a.offset + a.length <= PAGE_SIZE
    requires SlotPos(n) <= curEnd - a.length
    ensures Repacked(d, n, Placed(temp, curEnd - a.length, d[a.offset..a.offset + a.length], a.id), curEnd - a.length,
                done + {a.id})
  {
    hide U16, Splice, SlotBytes;
    var at, rec := curEnd - a.length, d[a.offset..a.offset + a.length];
    var temp' := Placed(temp, at, rec, a.id);
    RecordWritten(temp, at, rec, a.id);
    forall j | 0 <= j < n && j != a.id
      ensures SlotAt(temp', j) == SlotAt(temp, j)
      ensures j in done ==> CellAt(temp', j) == CellAt(temp, j)
    {
      if j in done {
        assert Moved(d, temp, j, curEnd);
        OtherSlotKept(temp, at, rec, a.id, Slot(at, |rec|), j, n);
      } else {
        SlotUntouched(temp, at, rec, a.id, Slot(at, |rec|), j, n);
      }
    }
    assert CellAt(d, a.id) == Some(rec);
    hide Placed, CellAt, SlotAt;
    forall j | j in done + {a.id} ensures j < n && Moved(d, temp', j, at) {
      if j != a.id { assert Moved(d, temp, j, curEnd); }
    }
    forall i, j | i in done + {a.id} && j in done + {a.id} && i < j ensures Apart(SlotAt(temp', i), SlotAt(temp', j)) {
      if i != a.id { assert Moved(d, temp, i, curEnd); }
      if j != a.id { assert Moved(d, temp, j, curEnd); }
    }
  }

  lemma {:induction false} SlotUntouched(d: Bytes, at: nat, payload: Bytes, t: nat, s: Slot, i: nat, n: nat)
    requires |d| == PAGE_SIZE && i < n && t < n && i != t && SlotPos(n) <= at && at + |payload| <= PAGE_SIZE
    requires s.offset < 0x1_0000 && s.length < 0x1_0000
    ensures SlotAt(Splice(Splice(d, at, payload), SlotPos(t), SlotBytes(s)), i) == SlotAt(d, i)
  {
    var d1 := Splice(d, at, payload);
    SpliceOutside(d, at, payload, SlotPos(i), SlotPos(i) + 4);
    SpliceOutside(d1, SlotPos(t), SlotBytes(s), SlotPos(i), SlotPos(i) + 4);
    SlotKept(d, Splice(d1, SlotPos(t), SlotBytes(s)), i);
  }

  lemma {:induction false} RepackedSlot(d: Bytes, n: nat, freeEnd: nat, temp: Bytes, curEnd: nat, done: set<nat>,
                                        j: nat)
    requires Layout(d, n, freeEnd) && Repacked(d, n, temp, curEnd, done) && j < n
    requires SlotAt(d, j).length > 0 ==> j in done
    ensures SlotOk(SlotAt(temp, j), curEnd) && CellAt(temp, j) == CellAt(d, j)
    ensures j !in done ==> SlotAt(temp, j).length == 0
  {
    hide U16, ViewOf, LiveBytes;
    assert SlotOk(SlotAt(d, j), freeEnd);
    if j in done {
      assert Moved(d, temp, j, curEnd);
    } else {
      var o := SlotAt(d, j).offset;
      if o <= PAGE_SIZE { assert temp[o..o] == d[o..o]; }
    }
  }

  /** Once every active slot has been moved, the page means what it meant, and is packed. */
  lemma {:induction false} RepackedAll(d: Bytes, n: nat, freeEnd: nat, temp: Bytes, curEnd: nat, done: set<nat>)
    requires Layout(d, n, freeEnd) && Repacked(d, n, temp, curEnd, done)
    requires forall j :: 0 <= j < n && SlotAt(d, j).length > 0 ==> j in done
    requires curEnd == PAGE_SIZE - LiveBytes(ViewOf(d, n))
    ensures Layout(temp, n, curEnd) && ViewOf(temp, n) == ViewOf(d, n)
  {
    hide CellAt, SlotAt, LiveBytes, Moved;
    forall j | 0 <= j < n
      ensures SlotOk(SlotAt(temp, j), curEnd) && CellAt(temp, j) == CellAt(d, j)
      ensures j !in done ==> SlotAt(temp, j).length == 0
    {
      RepackedSlot(d, n, freeEnd, temp, curEnd, done, j);
    }
    assert ViewOf(temp, n) == ViewOf(d, n);
  }
}
