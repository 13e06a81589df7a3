/**
 The layout of a slotted page: a slot directory growing up from byte 64, records growing down from
 the end of the page, and what the page means as a list of optional records.
 */
module SlottedLayout {
  import opened ByteOrder
  import opened Options
  import opened PageBytes

  const DIRECTORY_START := 64
  const SLOT_SIZE := 4

  datatype Slot = Slot(offset: nat, length: nat)

  /** The meaning of a page: for every slot its record, or nothing. */
  type View = seq<Option<Bytes>>

  function SlotPos(i: nat): nat {
    DIRECTORY_START + i * SLOT_SIZE
  }

  function SlotAt(d: Bytes, i: nat): Slot
    requires SlotPos(i) + 4 <= |d|
  {
    Slot(U16(d, SlotPos(i)), U16(d, SlotPos(i) + 2))
  }

  predicate Free(s: Slot) {
    s.offset == 0 && s.length == 0
  }

  function CellAt(d: Bytes, i: nat): Option<Bytes> {
    if SlotPos(i) + 4 > |d| then None
    else
      var s := SlotAt(d, i);
      if Free(s) || s.offset + s.length > |d| then None else Some(d[s.offset..s.offset + s.length])
  }

  ghost function ViewOf(d: Bytes, n: nat): (v: View)
    ensures |v| == n && forall i :: 0 <= i < n ==> v[i] == CellAt(d, i)
  {
    if n == 0 then [] else ViewOf(d, n - 1) + [CellAt(d, n - 1)]
  }

  function Length(c: Option<Bytes>): nat {
    if c.Some? then |c.value| else 0
  }

  /** Bytes of all records. */
  function LiveBytes(v: View): nat {
    if v == [] then 0 else LiveBytes(v[..|v| - 1]) + Length(v[|v| - 1])
  }

  lemma {:induction false} LiveBytesUpdate(v: View, i: nat, c: Option<Bytes>)
    requires i < |v|
    ensures LiveBytes(v[i := c]) == LiveBytes(v) - Length(v[i]) + Length(c)
  {
    if i == |v| - 1 {
      assert v[i := c][..i] == v[..i];
    } else {
      LiveBytesUpdate(v[..|v| - 1], i, c);
      assert v[i := c][..|v| - 1] == v[..|v| - 1][i := c];
    }
  }

  // ---------- The layout invariant ----------

  ghost predicate SlotOk(s: Slot, freeEnd: nat) {
    || Free(s)
    || (DIRECTORY_START <= s.offset && s.offset + s.length <= PAGE_SIZE && (s.length > 0 ==> freeEnd <= s.offset))
  }

  ghost predicate Apart(s: Slot, t: Slot) {
    s.length == 0 || t.length == 0 || s.offset + s.length <= t.offset || t.offset + t.length <= s.offset
  }

  /** The directory ends below freeEnd; records lie above it, inside the page, and do not overlap. */
  ghost predicate Layout(d: Bytes, n: nat, freeEnd: nat) {
    && |d| == PAGE_SIZE && SlotPos(n) <= freeEnd <= PAGE_SIZE
    && (forall i :: 0 <= i < n ==> SlotOk(SlotAt(d, i), freeEnd))
    && (forall i, j :: 0 <= i < j < n ==> Apart(SlotAt(d, i), SlotAt(d, j)))
    && LiveBytes(ViewOf(d, n)) <= PAGE_SIZE - freeEnd
  }

  function SlotBytes(s: Slot): (b: Bytes)
    requires s.offset < 0x1_0000 && s.length < 0x1_0000
    ensures |b| == 4
  {
    Be16(s.offset) + Be16(s.length)
  }

  lemma {:induction false} SlotWritten(d: Bytes, i: nat, s: Slot)
    requires SlotPos(i) + 4 <= |d| && s.offset < 0x1_0000 && s.length < 0x1_0000
    ensures SlotAt(Splice(d, SlotPos(i), SlotBytes(s)), i) == s
  {
    var d' := Splice(d, SlotPos(i), SlotBytes(s));
    SpliceInside(d, SlotPos(i), SlotBytes(s), SlotPos(i), SlotPos(i) + 2);
    SpliceInside(d, SlotPos(i), SlotBytes(s), SlotPos(i) + 2, SlotPos(i) + 4);
    Be16RoundTrip(s.offset, d', SlotPos(i));
    Be16RoundTrip(s.length, d', SlotPos(i) + 2);
  }

  lemma {:induction false} SlotKept(d: Bytes, d': Bytes, i: nat)
    requires |d| == |d'| && SlotPos(i) + 4 <= |d| && d[SlotPos(i)..SlotPos(i) + 4] == d'[SlotPos(i)..SlotPos(i) + 4]
    ensures SlotAt(d, i) == SlotAt(d', i)
  {
    var p := SlotPos(i);
    assert d[p..p + 4][..2] == d[p..p + 2] && d'[p..p + 4][..2] == d'[p..p + 2];
    assert d[p..p + 4][2..] == d[p + 2..p + 4] && d'[p..p + 4][2..] == d'[p + 2..p + 4];
    U16BySlice(d, d', p);
    U16BySlice(d, d', p + 2);
  }

  /** Writing record bytes at `at` and then slot t leaves slot i and its record alone. */
  lemma {:induction false} OtherSlotKept(d: Bytes, at: nat, payload: Bytes, t: nat, s: Slot, i: nat, n: nat)
    requires |d| == PAGE_SIZE && i < n && t < n && i != t && SlotPos(n) <= PAGE_SIZE && at + |payload| <= PAGE_SIZE
    requires s.offset < 0x1_0000 && s.length < 0x1_0000
    requires |payload| > 0 ==> SlotPos(n) <= at
    requires var o := SlotAt(d, i);
             && (o.length > 0 ==> SlotPos(n) <= o.offset && o.offset + o.length <= PAGE_SIZE)
             && Apart(o, Slot(at, |payload|))
    ensures var d' := Splice(Splice(d, at, payload), SlotPos(t), SlotBytes(s));
            SlotAt(d', i) == SlotAt(d, i) && CellAt(d', i) == CellAt(d, i)
  {
    var d1 := Splice(d, at, payload);
    var d' := Splice(d1, SlotPos(t), SlotBytes(s));
    SpliceOutside(d, at, payload, SlotPos(i), SlotPos(i) + 4);
    SpliceOutside(d1, SlotPos(t), SlotBytes(s), SlotPos(i), SlotPos(i) + 4);
    SlotKept(d, d', i);
    var o := SlotAt(d, i);
    if o.length > 0 {
      SpliceOutside(d, at, payload, o.offset, o.offset + o.length);
      SpliceOutside(d1, SlotPos(t), SlotBytes(s), o.offset, o.offset + o.length);
    } else if o.offset <= |d| {
      assert d[o.offset..o.offset] == d'[o.offset..o.offset];
    }
  }

  lemma {:induction false} RecordWritten(d: Bytes, at: nat, payload: Bytes, t: nat)
    requires |d| == PAGE_SIZE && SlotPos(t) + 4 <= PAGE_SIZE && 0 < at && at + |payload| <= PAGE_SIZE
    requires |payload| > 0 ==> SlotPos(t) + 4 <= at
    ensures var d' := Splice(Splice(d, at, payload), SlotPos(t), SlotBytes(Slot(at, |payload|)));
            SlotAt(d', t) == Slot(at, |payload|) && CellAt(d', t) == Some(payload)
  {
    var d1 := Splice(d, at, payload);
    SlotWritten(d1, t, Slot(at, |payload|));
    if |payload| > 0 {
      SpliceInside(d, at, payload, at, at + |payload|);
      SpliceOutside(d1, SlotPos(t), SlotBytes(Slot(at, |payload|)), at, at + |payload|);
    } else {
      assert Placed(d, at, payload, t)[at..at] == payload;
    }
  }

  /** The page after a record has been written at `at` and slot t pointed at it. */
  function Placed(d: Bytes, at: nat, payload: Bytes, t: nat): (r: Bytes)
    requires at + |payload| <= |d| && SlotPos(t) + 4 <= |d| <= PAGE_SIZE
    ensures |r| == |d|
  {
    Splice(Splice(d, at, payload), SlotPos(t), SlotBytes(Slot(at, |payload|)))
  }

  function SetCell(v: View, t: nat, c: Option<Bytes>): View
    requires t <= |v|
  {
    if t < |v| then v[t := c] else v + [c]
  }

  lemma {:induction false} SetCellBytes(v: View, t: nat, c: Option<Bytes>)
    requires t <= |v|
    ensures LiveBytes(SetCell(v, t, c)) == LiveBytes(v) - (if t < |v| then Length(v[t]) else 0) + Length(c)
  {
    if t < |v| {
      LiveBytesUpdate(v, t, c);
    } else {
      assert (v + [c])[..|v|] == v;
    }
  }

  /** The layout and the meaning of a page in which only slot t has changed. */
  lemma {:induction false} OneSlotChanged(d: Bytes, d': Bytes, n: nat, freeEnd: nat, t: nat, newEnd: nat)
    requires Layout(d, n, freeEnd) && t <= n && |d'| == PAGE_SIZE
    requires newEnd <= freeEnd && SlotPos(if t < n then n else n + 1) <= newEnd
    requires forall i :: 0 <= i < n && i != t ==> SlotAt(d', i) == SlotAt(d, i) && CellAt(d', i) == CellAt(d, i)
    requires SlotOk(SlotAt(d', t), newEnd)
    requires forall i :: 0 <= i < n && i != t ==> Apart(SlotAt(d, i), SlotAt(d', t))
    requires LiveBytes(SetCell(ViewOf(d, n), t, CellAt(d', t))) <= PAGE_SIZE - newEnd
    ensures Layout(d', if t < n then n else n + 1, newEnd)
    ensures ViewOf(d', if t < n then n else n + 1) == SetCell(ViewOf(d, n), t, CellAt(d', t))
  {
    hide CellAt, SlotAt, LiveBytes;
    var n' := if t < n then n else n + 1;
    assert ViewOf(d', n') == SetCell(ViewOf(d, n), t, CellAt(d', t));
    hide ViewOf, SetCell;
    forall i | 0 <= i < n' ensures SlotOk(SlotAt(d', i), newEnd) {
      if i != t { assert SlotOk(SlotAt(d, i), freeEnd); }
    }
    forall i, j | 0 <= i < j < n' ensures Apart(SlotAt(d', i), SlotAt(d', j)) {
      if i != t && j != t { assert Apart(SlotAt(d, i), SlotAt(d, j)); }
    }
  }

  /** A record written where it meets no other becomes its slot's record, and no other slot notices. */
  lemma {:induction false} PlaceRecord(d: Bytes, n: nat, freeEnd: nat, t: nat, at: nat, payload: Bytes, newEnd: nat)
    requires Layout(d, n, freeEnd) && t <= n
    requires newEnd <= freeEnd && SlotPos(if t < n then n else n + 1) <= newEnd
    requires DIRECTORY_START <= at && at + |payload| <= PAGE_SIZE && (|payload| > 0 ==> newEnd <= at)
    requires forall i :: 0 <= i < n && i != t ==> Apart(SlotAt(d, i), Slot(at, |payload|))
    requires LiveBytes(SetCell(ViewOf(d, n), t, Some(payload))) <= PAGE_SIZE - newEnd
    ensures Layout(Placed(d, at, payload, t), if t < n then n else n + 1, newEnd)
    ensures ViewOf(Placed(d, at, payload, t), if t < n then n else n + 1) == SetCell(ViewOf(d, n), t, Some(payload))
  {
    hide U16, Splice, SlotBytes, CellAt, SlotAt, LiveBytes, ViewOf;
    var n' := if t < n then n else n + 1;
    RecordWritten(d, at, payload, t);
    forall i | 0 <= i < n && i != t
      ensures SlotAt(Placed(d, at, payload, t), i) == SlotAt(d, i)
              && CellAt(Placed(d, at, payload, t), i) == CellAt(d, i)
    {
      assert SlotOk(SlotAt(d, i), freeEnd);
      OtherSlotKept(d, at, payload, t, Slot(at, |payload|), i, n');
    }
    hide Layout;
    OneSlotChanged(d, Placed(d, at, payload, t), n, freeEnd, t, newEnd);
  }

  /** Freeing a slot. */
  lemma {:induction false} ClearSlot(d: Bytes, n: nat, freeEnd: nat, t: nat)
    requires Layout(d, n, freeEnd) && t < n
    ensures var d' := Splice(d, SlotPos(t), SlotBytes(Slot(0, 0)));
            Layout(d', n, freeEnd) && ViewOf(d', n) == ViewOf(d, n)[t := None]
  {
    hide U16, Splice, SlotBytes, CellAt, SlotAt, LiveBytes, ViewOf;
    var d' := Splice(d, SlotPos(t), SlotBytes(Slot(0, 0)));
    SlotWritten(d, t, Slot(0, 0));
    assert CellAt(d', t) == None by { FreeCell(d', t); }
    assert Splice(d, PAGE_SIZE, []) == d by { SpliceNothing(d, PAGE_SIZE); }
    forall i | 0 <= i < n && i != t
      ensures SlotAt(d', i) == SlotAt(d, i) && CellAt(d', i) == CellAt(d, i)
    {
      assert SlotOk(SlotAt(d, i), freeEnd);
      OtherSlotKept(d, PAGE_SIZE, [], t, Slot(0, 0), i, n);
    }
    SetCellBytes(ViewOf(d, n), t, None);
    OneSlotChanged(d, d', n, freeEnd, t, freeEnd);
  }

  lemma {:induction false} FreeCell(d: Bytes, t: nat)
    requires SlotPos(t) + 4 <= |d| && Free(SlotAt(d, t))
    ensures CellAt(d, t) == None
  {
  }

  lemma {:induction false} SpliceNothing(d: Bytes, off: nat)
    requires off <= |d|
    ensures Splice(d, off, []) == d
  {
  }

  /** Dropping the last slot when it is free. */
  lemma {:induction false} DropSlot(d: Bytes, n: nat, freeEnd: nat)
    requires Layout(d, n, freeEnd) && n > 0 && Free(SlotAt(d, n - 1))
    ensures Layout(d, n - 1, freeEnd) && ViewOf(d, n) == ViewOf(d, n - 1) + [None]
  {
    FreeCell(d, n - 1);
    hide SlotAt, CellAt;
    assert (ViewOf(d, n - 1) + [CellAt(d, n - 1)])[..n - 1] == ViewOf(d, n - 1);
  }
}
