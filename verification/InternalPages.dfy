/**
 Internal B+tree pages in bytes: SetItems packs child pointers and separators into a slotted page and stores the
 rightmost child in front of the slot directory, Items and RightmostChild read them back.
 */
module InternalPages {
  import opened ByteOrder
  import opened BigEndian
  import opened Options
  import opened Cells
  import opened PageBytes
  import opened SlottedLayout
  import opened SlottedPage
  import opened NodePages

  predicate Storable(e: Entry) {
    e.fence.Key? && |e.fence.key| <= MAX_KEY_SIZE && e.child < U64_LIMIT
  }

  predicate AllStorable(items: seq<Entry>) {
    forall i :: 0 <= i < |items| ==> Storable(items[i])
  }

  function EncodeItem(e: Entry): (b: Bytes)
    requires Storable(e)
    ensures |b| == 10 + |e.fence.key|
  {
    Be(8, e.child) + Be16(|e.fence.key|) + e.fence.key
  }

  /** An item read from its payload; the length is added as a 16-bit number. */
  function DecodeItem(b: Bytes): Option<Entry> {
    if |b| < 10 then None
    else
      var end := (10 + U16(b, 8)) % 0x1_0000;
      if end > |b| || end < 10 then None else Some(Entry(Val(b[0..8]), Key(b[10..end])))
  }

  lemma {:induction false} ItemRoundTrip(e: Entry)
    requires Storable(e)
    ensures DecodeItem(EncodeItem(e)) == Some(e)
  {
    hide Be, Val;
    var b := EncodeItem(e);
    assert b[0..8] == Be(8, e.child) && b[8..10] == Be16(|e.fence.key|) && b[10..10 + |e.fence.key|] == e.fence.key;
    Be16RoundTrip(|e.fence.key|, b, 8);
    Widths();
    ValOfBe(8, e.child);
  }

  function EncodeItems(items: seq<Entry>): (ps: seq<Bytes>)
    requires AllStorable(items)
    ensures |ps| == |items| && forall i :: 0 <= i < |items| ==> ps[i] == EncodeItem(items[i])
  {
    if items == [] then [] else EncodeItems(items[..|items| - 1]) + [EncodeItem(items[|items| - 1])]
  }

  /** Items: those of a page in slot order; unreadable slots are skipped. */
  ghost function DecodeItems(v: View): seq<Entry> {
    if v == [] then []
    else
      var e := if v[|v| - 1].Some? then DecodeItem(v[|v| - 1].value) else None;
      DecodeItems(v[..|v| - 1]) + if e.Some? then [e.value] else []
  }

  lemma {:induction false} ItemsRoundTrip(items: seq<Entry>)
    requires AllStorable(items)
    ensures DecodeItems(Somes(EncodeItems(items))) == items
  {
    hide DecodeItem, EncodeItem;
    if items != [] {
      var n := |items| - 1;
      ItemsRoundTrip(items[..n]);
      ItemRoundTrip(items[n]);
      var ps := EncodeItems(items[..n]);
      assert (ps + [EncodeItem(items[n])])[..n] == ps;
      var v := Somes(EncodeItems(items));
      assert v[..n] == Somes(ps);
    }
  }

  lemma {:induction false} SizeIsPacked(items: seq<Entry>)
    requires AllStorable(items)
    ensures InternalSize(items) == PackedSize(EncodeItems(items))
  {
    if items != [] {
      SizeIsPacked(items[..|items| - 1]);
      assert EncodeItems(items)[..|items| - 1] == EncodeItems(items[..|items| - 1]);
    }
  }

  lemma {:induction false} EncodeItemsPrefix(items: seq<Entry>, n: nat)
    requires n <= |items| && AllStorable(items)
    ensures AllStorable(items[..n]) && EncodeItems(items[..n]) == EncodeItems(items)[..n]
  {
    hide EncodeItems, EncodeItem, Storable;
  }

  lemma {:induction false} SizeMonotone(items: seq<Entry>, n: nat)
    requires n <= |items|
    ensures InternalSize(items[..n]) <= InternalSize(items)
  {
    if n < |items| {
      SizeMonotone(items[..|items| - 1], n);
      assert items[..|items| - 1][..n] == items[..n];
    } else {
      assert items[..n] == items;
    }
  }

  /** The longest fitting prefix is the one Fill stops after. */
  lemma {:induction false} ItemPrefix(items: seq<Entry>, n: nat)
    requires n <= |items| && AllStorable(items) && PackedSize(EncodeItems(items)[..n]) <= CAPACITY
    requires n < |items| ==> PackedSize(EncodeItems(items)[..n + 1]) > CAPACITY
    ensures InternalPrefix(items) == items[..n] && AllStorable(items[..n])
            && EncodeItems(items[..n]) == EncodeItems(items)[..n]
    ensures InternalFits(items) <==> n == |items|
  {
    hide PackedSize, EncodeItems, InternalSize, InternalPrefix, Storable;
    EncodeItemsPrefix(items, n);
    SizeIsPacked(items[..n]);
    if n < |items| {
      EncodeItemsPrefix(items, n + 1);
      SizeIsPacked(items[..n + 1]);
      SizeMonotone(items, n + 1);
    }
    var r := InternalPrefix(items);
    assert r == items[..|r|] && items[..|items|] == items;
    if n < |r| {
      assert r[..n + 1] == items[..n + 1];
      SizeMonotone(r, n + 1);
    }
    if |r| < n {
      assert items[..n][..|r| + 1] == items[..|r| + 1];
      SizeMonotone(items[..n], |r| + 1);
    }
  }

  /** Blank the page and store the rightmost child. */
  method Blank(page: Page, rightmost: PageId)
    requires page.data.Length == PAGE_SIZE
    modifies page, page.data
    ensures page.Valid() && page.Records() == [] && page.data[32..40] == Be(8, rightmost)
  {
    hide Be;
    forall i | 0 <= i < page.data.Length {
      page.data[i] := 0;
    }
    page.slotCount, page.freeStart, page.freeEnd := 0, DIRECTORY_START, PAGE_SIZE;
    ghost var d := page.data[..];
    CopyInto(page.data, 32, Be(8, rightmost));
    SpliceInside(d, 32, Be(8, rightmost), 32, 40);
    assert page.data[32..40] == page.data[..][32..40];
  }

  /** SetItems of an internal page: it succeeds exactly when the items fit; if not, it leaves those before the first
      one that does not.  The rightmost child is stored either way. */
  method SetItems(page: Page, items: seq<Entry>, rightmost: PageId) returns (ok: bool)
    requires page.data.Length == PAGE_SIZE && AllStorable(items) && rightmost < U64_LIMIT
    modifies page, page.data
    ensures page.Valid() && ok == InternalFits(items)
    ensures DecodeItems(page.Records()) == InternalPrefix(items) && Val(page.data[32..40]) == rightmost
  {
    hide InternalSize, PackedSize, Somes, EncodeItems, DecodeItems, EncodeItem, InternalFits, InternalPrefix,
      Page.Valid, Page.Records, Be, Val;
    Blank(page, rightmost);
    ghost var links := page.data[32..40];
    assert links == page.data[32..DIRECTORY_START][..8];
    var ps := EncodeItems(items);
    ItemSizes(items);
    var n;
    ok, n := Fill(page, ps);
    assert page.data[32..40] == page.data[32..DIRECTORY_START][..8];
    ItemPrefix(items, n);
    ItemsRoundTrip(items[..n]);
    Widths();
    ValOfBe(8, rightmost);
  }

  lemma {:induction false} ItemSizes(items: seq<Entry>)
    requires AllStorable(items)
    ensures forall i :: 0 <= i < |EncodeItems(items)| ==> |EncodeItems(items)[i]| <= 65531
  {
    forall i | 0 <= i < |items| ensures |EncodeItems(items)[i]| <= 65531 {
      assert EncodeItems(items)[i] == EncodeItem(items[i]);
    }
  }

  method Items(page: Page) returns (items: seq<Entry>)
    requires page.Valid()
    ensures items == DecodeItems(page.Records())
  {
    hide DecodeItem, ViewOf;
    items := [];
    var i := 0;
    ghost var v := page.Records();
    while i < page.slotCount
      invariant 0 <= i <= page.slotCount && items == DecodeItems(v[..i])
    {
      var p := page.Get(i);
      assert v[..i + 1][..i] == v[..i];
      if p.Some? {
        var e := DecodeItem(p.value);
        if e.Some? {
          items := items + [e.value];
        }
      }
      i := i + 1;
    }
    assert v[..i] == v;
  }
}
