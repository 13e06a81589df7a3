/**
 SlottedPage: Insert, Get, Update, Delete and Compact on a 16 KiB page buffer.

 A page is seen as its `View`, one optional record per slot.  Each operation is a small change of that
 list, and Insert reports a full page exactly when the records and the directory would not fit.
 */
module SlottedPage {
  import opened ByteOrder
  import opened Options
  import opened PageBytes
  import opened SlottedLayout
  import opened Compaction

  datatype InsertResult = Inserted(slot: nat) | PageFull
  datatype UpdateResult = Updated | UpdateFull | NoSuchSlot

  /** The first slot without a record, or one past the end. */
  function FirstFree(v: View): (i: nat)
    ensures i <= |v| && (i < |v| ==> v[i] == None)
    ensures forall j :: 0 <= j < i ==> v[j] != None
  {
    if v == [] then 0
    else
      var i := FirstFree(v[..|v| - 1]);
      assert forall j :: 0 <= j < i ==> v[..|v| - 1][j] == v[j];
      if i < |v| - 1 || v[|v| - 1] == None then i else |v|
  }

  /** Without the empty slots at the end. */
  function Trim(v: View): View {
    if v != [] && v[|v| - 1] == None then Trim(v[..|v| - 1]) else v
  }

  /** A page with these records and one more of `size` bytes in slot t needs no more than its 16384 bytes. */
  predicate Fits(v: View, t: nat, size: nat) {
    SlotPos(if t < |v| then |v| else t + 1) + LiveBytes(v) + size <= PAGE_SIZE
  }

  lemma {:induction false} SameSlice(d: Bytes, d': Bytes, from: nat, a: nat, b: nat)
    requires from <= a <= b <= |d| == |d'| && d[from..] == d'[from..]
    ensures d[a..b] == d'[a..b]
  {
    forall i | a <= i < b ensures d[i] == d'[i] {
      assert d[i] == d[from..][i - from] && d'[i] == d'[from..][i - from];
    }
  }

  /** The bytes before the directory do not matter. */
  lemma {:induction false} HeaderIrrelevant(d: Bytes, d': Bytes, n: nat, freeEnd: nat)
    requires Layout(d, n, freeEnd) && |d'| == |d| && d[DIRECTORY_START..] == d'[DIRECTORY_START..]
    ensures Layout(d', n, freeEnd) && ViewOf(d', n) == ViewOf(d, n)
  {
    hide LiveBytes, ViewOf;
    forall i | 0 <= i < n ensures SlotAt(d', i) == SlotAt(d, i) && CellAt(d', i) == CellAt(d, i) {
      var p := SlotPos(i);
      SameSlice(d, d', DIRECTORY_START, p, p + 4);
      SlotKept(d, d', i);
      var s := SlotAt(d, i);
      assert SlotOk(s, freeEnd);
      if !Free(s) {
        SameSlice(d, d', DIRECTORY_START, s.offset, s.offset + s.length);
      }
    }
    hide CellAt, SlotAt;
    assert ViewOf(d', n) == ViewOf(d, n);
  }

  lemma {:induction false} TotalSuffix(s: seq<ActiveSlot>, i: nat)
    requires i < |s|
    ensures Total(s[i..]) == s[i].length + Total(s[i + 1..]) && Total(s[i..]) <= Total(s)
  {
    assert s[i..] == [s[i]] + s[i + 1..] && [s[i]][..0] == [];
    TotalConcat([s[i]], s[i + 1..]);
    assert s == s[..i] + s[i..];
    TotalConcat(s[..i], s[i..]);
  }

  lemma {:induction false} NoActive(d: Bytes)
    requires |d| == PAGE_SIZE
    ensures ActiveOf(d, 0, []) && Total([]) == LiveBytes(ViewOf(d, 0)) == 0
  {
  }

  lemma {:induction false} NextActive(d: Bytes, n: nat, freeEnd: nat, i: nat, active: seq<ActiveSlot>)
    requires Layout(d, n, freeEnd) && i < n && ActiveOf(d, i, active) && Total(active) == LiveBytes(ViewOf(d, i))
    ensures var s := SlotAt(d, i);
            var active' := if s.offset != 0 && s.length != 0 then active + [ActiveSlot(i, s.offset, s.length)]
                             else active;
            ActiveOf(d, i + 1, active') && Total(active') == LiveBytes(ViewOf(d, i + 1))
  {
    hide U16, ActiveOf, LiveBytes, ViewOf;
    var s := SlotAt(d, i);
    assert SlotOk(s, freeEnd);
    NextLiveBytes(d, i);
    if s.offset != 0 && s.length != 0 {
      var x := ActiveSlot(i, s.offset, s.length);
      assert (active + [x])[..|active|] == active;
      ActivePushed(d, i, active, x);
    } else {
      ActiveSkipped(d, i, active);
    }
  }

  lemma {:induction false} NextLiveBytes(d: Bytes, i: nat)
    ensures LiveBytes(ViewOf(d, i + 1)) == LiveBytes(ViewOf(d, i)) + Length(CellAt(d, i))
  {
    hide CellAt;
    assert ViewOf(d, i + 1) == ViewOf(d, i) + [CellAt(d, i)];
    assert ViewOf(d, i + 1)[..i] == ViewOf(d, i);
  }

  lemma {:induction false} ActiveSkipped(d: Bytes, i: nat, active: seq<ActiveSlot>)
    requires ActiveOf(d, i, active) && SlotPos(i + 1) <= PAGE_SIZE && SlotAt(d, i).length == 0
    ensures ActiveOf(d, i + 1, active)
  {
    hide SlotAt;
  }

  lemma {:induction false} ActivePushed(d: Bytes, i: nat, active: seq<ActiveSlot>, x: ActiveSlot)
    requires ActiveOf(d, i, active) && SlotPos(i + 1) <= PAGE_SIZE
    requires x == ActiveSlot(i, SlotAt(d, i).offset, SlotAt(d, i).length) && x.length > 0
    ensures ActiveOf(d, i + 1, active + [x])
  {
    hide SlotAt;
    var active' := active + [x];
    assert forall y :: y in active' <==> y in active || y == x;
    forall j, k | 0 <= j < k < |active'| ensures active'[j].id != active'[k].id {
      assert active'[j] in active;
    }
  }

  lemma {:induction false} ActiveSorted(d: Bytes, n: nat, active: seq<ActiveSlot>)
    requires ActiveOf(d, n, active)
    ensures ActiveOf(d, n, Sort(active)) && Total(Sort(active)) == Total(active)
  {
    hide SlotAt;
    SortCorrect(active);
  }

  ghost function Ids(active: seq<ActiveSlot>, i: nat): set<nat>
    requires i <= |active|
  {
    set k | i <= k < |active| :: active[k].id
  }

  lemma {:induction false} NothingLeft(active: seq<ActiveSlot>)
    ensures Ids(active, |active|) == {} && Total(active[|active|..]) == 0
  {
  }

  lemma {:induction false} StartRepack(d: Bytes, n: nat, temp: Bytes, freeEnd: nat)
    requires Layout(d, n, freeEnd) && |temp| == PAGE_SIZE && temp[..SlotPos(n)] == d[..SlotPos(n)]
    ensures Repacked(d, n, temp, PAGE_SIZE, {}) && temp[..DIRECTORY_START] == d[..DIRECTORY_START]
  {
    hide U16;
    forall j | 0 <= j < n ensures SlotAt(temp, j) == SlotAt(d, j) {
      var p := SlotPos(j);
      assert d[p..p + 4] == d[..SlotPos(n)][p..p + 4] && temp[p..p + 4] == temp[..SlotPos(n)][p..p + 4];
      SlotKept(d, temp, j);
    }
    assert temp[..SlotPos(n)][..DIRECTORY_START] == temp[..DIRECTORY_START]
           && d[..SlotPos(n)][..DIRECTORY_START] == d[..DIRECTORY_START];
  }

  /** The next slot to move fits above the directory, and has not been moved. */
  lemma {:induction false} NextMove(d: Bytes, n: nat, freeEnd: nat, active: seq<ActiveSlot>, i: nat, done: set<nat>)
    requires Layout(d, n, freeEnd) && ActiveOf(d, n, active) && Total(active) == LiveBytes(ViewOf(d, n))
    requires i < |active| && done == Ids(active, i + 1)
    ensures var a := active[i];
            && a.id < n && a.id !in done && a.length > 0 && SlotAt(d, a.id) == Slot(a.offset, a.length)
            && DIRECTORY_START <= a.offset && a.offset + a.length <= PAGE_SIZE
            && Total(active[i..]) == Total(active[i + 1..]) + a.length && SlotPos(n) <= PAGE_SIZE - Total(active[i..])
            && Ids(active, i) == done + {a.id}
  {
    hide U16, ViewOf, LiveBytes, SlotAt;
    var a := active[i];
    assert a in active;
    assert SlotOk(SlotAt(d, a.id), freeEnd);
    TotalSuffix(active, i);
    hide Total;
  }

  lemma {:induction false} AllMoved(d: Bytes, n: nat, active: seq<ActiveSlot>, done: set<nat>)
    requires ActiveOf(d, n, active) && done == Ids(active, 0)
    ensures forall j :: 0 <= j < n && SlotAt(d, j).length > 0 ==> j in done
  {
    hide SlotAt, DistinctIds;
    forall j | 0 <= j < n && SlotAt(d, j).length > 0 ensures j in done {
      var a := ActiveSlot(j, SlotAt(d, j).offset, SlotAt(d, j).length);
      var k :| 0 <= k < |active| && active[k] == a;
      assert active[k].id in done;
    }
  }

  lemma {:induction false} MoveKeepsHeader(temp: Bytes, at: nat, rec: Bytes, id: nat)
    requires |temp| == PAGE_SIZE && DIRECTORY_START <= at && at + |rec| <= PAGE_SIZE && SlotPos(id) + 4 <= PAGE_SIZE
    ensures Placed(temp, at, rec, id)[..DIRECTORY_START] == temp[..DIRECTORY_START]
  {
    var t1 := Splice(temp, at, rec);
    SpliceOutside(temp, at, rec, 0, DIRECTORY_START);
    SpliceOutside(t1, SlotPos(id), SlotBytes(Slot(at, |rec|)), 0, DIRECTORY_START);
    hide Splice;
    assert temp[0..DIRECTORY_START] == temp[..DIRECTORY_START];
    assert Placed(temp, at, rec, id)[0..DIRECTORY_START] == Placed(temp, at, rec, id)[..DIRECTORY_START];
  }

  /** A slot that is not free holds a record of its length. */
  lemma {:induction false} CellOrFree(d: Bytes, n: nat, freeEnd: nat, i: nat)
    requires Layout(d, n, freeEnd) && i < n
    ensures Free(SlotAt(d, i)) <==> ViewOf(d, n)[i] == None
    ensures ViewOf(d, n)[i].Some? ==> |ViewOf(d, n)[i].value| == SlotAt(d, i).length
  {
    hide LiveBytes, ViewOf;
    assert SlotOk(SlotAt(d, i), freeEnd);
  }

  /** A record put just below freeEnd. */
  lemma {:induction false} AppendRecord(d: Bytes, n: nat, freeEnd: nat, t: nat, at: nat, payload: Bytes)
    requires Layout(d, n, freeEnd) && t <= n && at + |payload| == freeEnd
    requires SlotPos(if t < n then n else n + 1) <= at
    ensures Layout(Placed(d, at, payload, t), if t < n then n else n + 1, at)
    ensures ViewOf(Placed(d, at, payload, t), if t < n then n else n + 1) == SetCell(ViewOf(d, n), t, Some(payload))
  {
    hide U16, ViewOf, LiveBytes, SlotAt, CellAt;
    SetCellBytes(ViewOf(d, n), t, Some(payload));
    forall i | 0 <= i < n && i != t ensures Apart(SlotAt(d, i), Slot(at, |payload|)) {
      assert SlotOk(SlotAt(d, i), freeEnd);
    }
    PlaceRecord(d, n, freeEnd, t, at, payload, at);
  }

  /** A record put over the longer one its slot had. */
  lemma {:induction false} OverwriteRecord(d: Bytes, n: nat, freeEnd: nat, t: nat, payload: Bytes)
    requires Layout(d, n, freeEnd) && t < n && !Free(SlotAt(d, t)) && |payload| <= SlotAt(d, t).length
    ensures SlotAt(d, t).offset + |payload| <= PAGE_SIZE
    ensures Layout(Placed(d, SlotAt(d, t).offset, payload, t), n, freeEnd)
    ensures ViewOf(Placed(d, SlotAt(d, t).offset, payload, t), n) == ViewOf(d, n)[t := Some(payload)]
  {
    hide U16, ViewOf, LiveBytes, SlotAt, CellAt;
    var at := SlotAt(d, t).offset;
    assert SlotOk(SlotAt(d, t), freeEnd);
    CellOrFree(d, n, freeEnd, t);
    SetCellBytes(ViewOf(d, n), t, Some(payload));
    forall i | 0 <= i < n && i != t ensures Apart(SlotAt(d, i), Slot(at, |payload|)) {
      assert i < t ==> Apart(SlotAt(d, i), SlotAt(d, t));
      assert t < i ==> Apart(SlotAt(d, t), SlotAt(d, i));
    }
    PlaceRecord(d, n, freeEnd, t, at, payload, freeEnd);
  }

  /** What is cut off are empty slots, and what is left ends in a record. */
  lemma {:induction false} TrimIs(v: View)
    ensures var r := Trim(v);
            r <= v && (r != [] ==> r[|r| - 1] != None) && forall i :: |r| <= i < |v| ==> v[i] == None
  {
    if v != [] && v[|v| - 1] == None { TrimIs(v[..|v| - 1]); }
  }

  lemma {:induction false} TrimStep(v: View)
    ensures v == [] ==> Trim(v) == []
    ensures v != [] && v[|v| - 1] == None ==> Trim(v) == Trim(v[..|v| - 1])
    ensures v != [] && v[|v| - 1] != None ==> Trim(v) == v
  {
  }

  class Page {
    const data: array<Byte>
    var slotCount: nat
    var freeStart: nat
    var freeEnd: nat

    ghost predicate Valid()
      reads this, data
    {
      data.Length == PAGE_SIZE && freeStart == SlotPos(slotCount) && Layout(data[..], slotCount, freeEnd)
    }

    ghost function Records(): View
      reads this, data
    {
      ViewOf(data[..], slotCount)
    }

    /** The counters in the header bytes are those in memory, so the page survives being reloaded. */
    ghost predicate Synced()
      reads this, data
    {
      data.Length == PAGE_SIZE && U16(data[..], 20) == slotCount && U16(data[..], 22) == freeStart
          && U16(data[..], 24) == freeEnd
    }

    /** A blank page, wrapped. */
    constructor ()
      ensures Valid() && fresh(data) && Records() == []
      ensures forall i :: 0 <= i < PAGE_SIZE ==> data[i] == 0
    {
      data := new Byte[PAGE_SIZE](_ => 0);
      slotCount, freeStart, freeEnd := 0, DIRECTORY_START, PAGE_SIZE;
    }

    method WriteHeader()
      requires Valid()
      modifies data
      ensures Valid() && Records() == old(Records()) && Synced()
      ensures data[32..] == old(data[32..])
    {
      ghost var d := data[..];
      CopyInto(data, 20, Be16(slotCount));
      CopyInto(data, 22, Be16(freeStart));
      CopyInto(data, 24, Be16(freeEnd));
      ghost var d1, d2 := Splice(d, 20, Be16(slotCount)), Splice(Splice(d, 20, Be16(slotCount)), 22, Be16(freeStart));
      SpliceInside(d, 20, Be16(slotCount), 20, 22);
      SpliceOutside(d1, 22, Be16(freeStart), 20, 22);
      SpliceOutside(d2, 24, Be16(freeEnd), 20, 22);
      SpliceInside(d1, 22, Be16(freeStart), 22, 24);
      SpliceOutside(d2, 24, Be16(freeEnd), 22, 24);
      SpliceInside(d2, 24, Be16(freeEnd), 24, 26);
      Be16RoundTrip(slotCount, data[..], 20);
      Be16RoundTrip(freeStart, data[..], 22);
      Be16RoundTrip(freeEnd, data[..], 24);
      SpliceOutside(d, 20, Be16(slotCount), 32, PAGE_SIZE);
      SpliceOutside(d1, 22, Be16(freeStart), 32, PAGE_SIZE);
      SpliceOutside(d2, 24, Be16(freeEnd), 32, PAGE_SIZE);
      assert data[32..] == data[..][32..PAGE_SIZE] == d[32..PAGE_SIZE];
      assert d[32..] == d[32..PAGE_SIZE];
      assert data[..][DIRECTORY_START..] == data[32..][32..] && d[DIRECTORY_START..] == d[32..][32..];
      hide Splice, Be16;
      HeaderIrrelevant(d, data[..], slotCount, freeEnd);
    }

    function FreeSpace(): nat
      reads this
    {
      if freeEnd < freeStart then 0 else freeEnd - freeStart
    }

    method ReadSlot(i: nat) returns (s: Slot)
      requires Valid() && i < slotCount
      ensures s == SlotAt(data[..], i)
    {
      var p := SlotPos(i);
      s := Slot((data[p] as int) * 256 + data[p + 1] as int, (data[p + 2] as int) * 256 + data[p + 3] as int);
    }

    method Get(slot: nat) returns (r: Option<Bytes>)
      requires Valid()
      ensures r == if slot < slotCount then Records()[slot] else None
    {
      if slot >= slotCount { return None; }
      var s := ReadSlot(slot);
      assert SlotOk(SlotAt(data[..], slot), freeEnd);
      if s.offset == 0 && s.length == 0 { return None; }
      assert data[..][s.offset..s.offset + s.length] == data[s.offset..s.offset + s.length];
      r := Some(data[s.offset..s.offset + s.length]);
    }

    /** The slots Compact must move. */
    method CollectActive() returns (active: seq<ActiveSlot>)
      requires Valid()
      ensures ActiveOf(data[..], slotCount, active) && Total(active) == LiveBytes(Records())
    {
      hide ActiveOf, SlotAt, Total, LiveBytes, ViewOf;
      active := [];
      var i := 0;
      ghost var d := data[..];
      NoActive(d);
      while i < slotCount
        invariant 0 <= i <= slotCount
        invariant ActiveOf(d, i, active) && Total(active) == LiveBytes(ViewOf(d, i))
      {
        var s := ReadSlot(i);
        NextActive(d, slotCount, freeEnd, i, active);
        if s.offset != 0 && s.length != 0 {
          active := active + [ActiveSlot(i, s.offset, s.length)];
        }
        i := i + 1;
      }
    }

    /** The loop of Compact: live records packed against the end of a fresh buffer. */
    method Repack(active: seq<ActiveSlot>) returns (temp: array<Byte>, curEnd: nat)
      requires Valid() && ActiveOf(data[..], slotCount, active) && Total(active) == LiveBytes(Records())
      ensures fresh(temp) && temp.Length == PAGE_SIZE && temp[..DIRECTORY_START] == data[..DIRECTORY_START]
      ensures Layout(temp[..], slotCount, curEnd) && ViewOf(temp[..], slotCount) == Records()
      ensures curEnd == PAGE_SIZE - LiveBytes(Records())
    {
      hide ActiveOf, Total, LiveBytes, ViewOf, Repacked, SlotAt, U16, Splice, SlotBytes;
      ghost var d, n := data[..], slotCount;
      temp := new Byte[PAGE_SIZE](_ => 0);
      ghost var zeros := temp[..];
      CopyInto(temp, 0, data[..SlotPos(slotCount)]);
      SpliceInside(zeros, 0, data[..SlotPos(slotCount)], 0, SlotPos(slotCount));
      assert temp[..][0..SlotPos(n)] == temp[..][..SlotPos(n)] && d[..SlotPos(n)] == data[..SlotPos(slotCount)];
      StartRepack(d, n, temp[..], freeEnd);
      assert data[..] == d;
      curEnd := PAGE_SIZE;
      ghost var done: set<nat> := {};
      var i := |active|;
      NothingLeft(active);
      while i > 0
        invariant 0 <= i <= |active| && curEnd == PAGE_SIZE - Total(active[i..])
        invariant data[..] == d && fresh(temp) && temp.Length == PAGE_SIZE
        invariant Repacked(d, n, temp[..], curEnd, done) && done == Ids(active, i)
        invariant temp[..][..DIRECTORY_START] == d[..DIRECTORY_START]
      {
        i := i - 1;
        var item := active[i];
        ghost var before := temp[..];
        NextMove(d, n, freeEnd, active, i, done);
        curEnd := curEnd - item.length;
        assert data[item.offset..item.offset + item.length] == d[item.offset..item.offset + item.length];
        CopyInto(temp, curEnd, data[item.offset..item.offset + item.length]);
        CopyInto(temp, SlotPos(item.id), SlotBytes(Slot(curEnd, item.length)));
        MoveRecord(d, n, before, curEnd + item.length, done, item);
        MoveKeepsHeader(before, curEnd, d[item.offset..item.offset + item.length], item.id);
        done := done + {item.id};
      }
      AllMoved(d, n, active, done);
      assert active[0..] == active;
      RepackedAll(d, n, freeEnd, temp[..], curEnd, done);
      assert temp[..DIRECTORY_START] == temp[..][..DIRECTORY_START];
    }

    method Compact()
      requires Valid()
      modifies this, data
      ensures Valid() && slotCount == old(slotCount) && Records() == old(Records()) && Synced()
      ensures freeEnd == PAGE_SIZE - LiveBytes(Records())
      ensures data[32..DIRECTORY_START] == old(data[32..DIRECTORY_START])
    {
      hide ActiveOf, Total, LiveBytes, ViewOf, Layout, Sort;
      ghost var d, n := data[..], slotCount;
      var unsorted := CollectActive();
      ActiveSorted(d, n, unsorted);
      var temp, curEnd := Repack(Sort(unsorted));
      CopyInto(data, 0, temp[..]);
      assert Splice(d, 0, temp[..]) == temp[..];
      freeEnd := curEnd;
      freeStart := SlotPos(slotCount);
      WriteHeader();
      assert data[32..DIRECTORY_START] == data[32..][..32];
      assert temp[..DIRECTORY_START][32..] == d[..DIRECTORY_START][32..];
    }

    /** The first free slot, as Insert looks for it. */
    method FindFree() returns (t: nat)
      requires Valid()
      ensures t == FirstFree(Records())
    {
      hide ViewOf, LiveBytes, SlotAt, FirstFree;
      t := 0;
      while t < slotCount
        invariant 0 <= t <= slotCount
        invariant forall j :: 0 <= j < t ==> Records()[j] != None
      {
        var s := ReadSlot(t);
        CellOrFree(data[..], slotCount, freeEnd, t);
        if s.offset == 0 && s.length == 0 {
          break;
        }
        t := t + 1;
      }
    }

    /** Insert adds a record in the first free slot, or a new one, and says "full" exactly when the page
        cannot hold it however its records are arranged. */
    method Insert(payload: Bytes) returns (r: InsertResult)
      requires Valid() && |payload| <= 65531
      modifies this, data
      ensures Valid()
      ensures r == PageFull <==> !old(Fits(Records(), FirstFree(Records()), |payload|))
      ensures r == PageFull ==> Records() == old(Records())
      ensures r != PageFull ==>
                r == Inserted(old(FirstFree(Records()))) && Records() == SetCell(old(Records()), r.slot, Some(payload))
                    && Synced()
      ensures data[32..DIRECTORY_START] == old(data[32..DIRECTORY_START])
    {
      hide ViewOf, LiveBytes, SlotAt, CellAt, FirstFree, U16, Splice, SlotBytes;
      var t := FindFree();
      var needed := |payload| + if t == slotCount then SLOT_SIZE else 0;
      if FreeSpace() < needed {
        Compact();
        if FreeSpace() < needed {
          return PageFull;
        }
      }
      ghost var d := data[..];
      var at := freeEnd - |payload|;
      AppendRecord(d, slotCount, freeEnd, t, at, payload);
      CopyInto(data, at, payload);
      freeEnd := at;
      if t == slotCount {
        slotCount := slotCount + 1;
        freeStart := SlotPos(slotCount);
      }
      CopyInto(data, SlotPos(t), SlotBytes(Slot(at, |payload|)));
      MoveKeepsHeader(d, at, payload, t);
      assert data[..][..DIRECTORY_START] == d[..DIRECTORY_START];
      WriteHeader();
      assert data[32..DIRECTORY_START] == data[32..][..32] && d[32..DIRECTORY_START] == d[..DIRECTORY_START][32..];
      return Inserted(t);
    }

    method Update(slot: nat, payload: Bytes) returns (r: UpdateResult)
      requires Valid() && |payload| <= 65531
      modifies this, data
      ensures Valid()
      ensures r == NoSuchSlot <==> old(slot >= slotCount || Records()[slot] == None)
      ensures r == UpdateFull <==> old(slot < slotCount && Records()[slot].Some? && |payload| > |Records()[slot].value|
                                     && !Fits(Records(), slot, |payload|))
      ensures r == Updated ==> Records() == old(Records())[slot := Some(payload)] && Synced()
      ensures r != Updated ==> Records() == old(Records())
    {
      hide ViewOf, LiveBytes, SlotAt, CellAt, FirstFree, U16, Splice, SlotBytes;
      if slot >= slotCount { return NoSuchSlot; }
      var s := ReadSlot(slot);
      CellOrFree(data[..], slotCount, freeEnd, slot);
      if s.offset == 0 && s.length == 0 { return NoSuchSlot; }
      if |payload| <= s.length {
        OverwriteRecord(data[..], slotCount, freeEnd, slot, payload);
        CopyInto(data, s.offset, payload);
        CopyInto(data, SlotPos(slot), SlotBytes(Slot(s.offset, |payload|)));
        WriteHeader();
        return Updated;
      }
      if FreeSpace() < |payload| {
        Compact();
        if FreeSpace() < |payload| {
          return UpdateFull;
        }
      }
      ghost var d := data[..];
      var at := freeEnd - |payload|;
      AppendRecord(d, slotCount, freeEnd, slot, at, payload);
      CopyInto(data, at, payload);
      freeEnd := at;
      CopyInto(data, SlotPos(slot), SlotBytes(Slot(at, |payload|)));
      WriteHeader();
      return Updated;
    }

    method Delete(slot: nat) returns (ok: bool)
      requires Valid()
      modifies this, data
      ensures Valid()
      ensures ok <==> old(slot < slotCount && Records()[slot].Some?)
      ensures !ok ==> Records() == old(Records())
      ensures ok ==> Synced() && Records() == if slot == old(slotCount) - 1 then Trim(old(Records())[slot := None])
                                                else old(Records())[slot := None]
    {
      hide ViewOf, LiveBytes, SlotAt, CellAt, FirstFree, U16, Splice, SlotBytes, Trim;
      if slot >= slotCount { return false; }
      var s := ReadSlot(slot);
      CellOrFree(data[..], slotCount, freeEnd, slot);
      if s.offset == 0 && s.length == 0 { return false; }
      ClearSlot(data[..], slotCount, freeEnd, slot);
      CopyInto(data, SlotPos(slot), SlotBytes(Slot(0, 0)));
      ghost var v := Records();
      if slot == slotCount - 1 {
        while slotCount > 0
          invariant Valid() && Trim(Records()) == Trim(v)
          decreases slotCount
        {
          var last := ReadSlot(slotCount - 1);
          CellOrFree(data[..], slotCount, freeEnd, slotCount - 1);
          TrimStep(Records());
          if last.offset == 0 && last.length == 0 {
            DropSlot(data[..], slotCount, freeEnd);
            slotCount := slotCount - 1;
            freeStart := SlotPos(slotCount);
          } else {
            break;
          }
        }
        TrimStep(Records());
      }
      WriteHeader();
      return true;
    }
  }
}
