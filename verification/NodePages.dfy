/**
 B+tree leaves in bytes: SetItems packs the cells of a leaf into a slotted page, Items reads them
 back.  This is where the numbers of module Cells come from.
 */
module NodePages {
  import opened ByteOrder
  import opened Options
  import opened Cells
  import opened PageBytes
  import opened SlottedLayout
  import opened SlottedPage

  // ---------- Cells as bytes ----------

  predicate Encodable(c: LeafItem) {
    4 + |c.key| + |c.value| <= 65531
  }

  function EncodeCell(c: LeafItem): (b: Bytes)
    requires Encodable(c)
    ensures |b| == 4 + |c.key| + |c.value|
  {
    Be16(|c.key|) + Be16(|c.value|) + c.key + c.value
  }

  /** A cell read from its payload; the lengths are added as 16-bit numbers. */
  function DecodeCell(b: Bytes): Option<LeafItem> {
    if |b| < 4 then None
    else
      var k, v := U16(b, 0), U16(b, 2);
      var end := (4 + k + v) % 0x1_0000;
      if end > |b| || 4 + k > end then None else Some(LeafItem(b[4..4 + k], b[4 + k..end]))
  }

  lemma {:induction false} CellRoundTrip(c: LeafItem)
    requires Encodable(c)
    ensures DecodeCell(EncodeCell(c)) == Some(c)
  {
    var b := EncodeCell(c);
    assert b[0..2] == Be16(|c.key|) && b[2..4] == Be16(|c.value|);
    Be16RoundTrip(|c.key|, b, 0);
    Be16RoundTrip(|c.value|, b, 2);
    assert b[4..4 + |c.key|] == c.key && b[4 + |c.key|..4 + |c.key| + |c.value|] == c.value;
  }

  function EncodeCells(cells: seq<LeafItem>): (ps: seq<Bytes>)
    requires forall i :: 0 <= i < |cells| ==> Encodable(cells[i])
    ensures |ps| == |cells| && forall i :: 0 <= i < |cells| ==> ps[i] == EncodeCell(cells[i])
  {
    if cells == [] then [] else EncodeCells(cells[..|cells| - 1]) + [EncodeCell(cells[|cells| - 1])]
  }

  /** Items: the cells of a page in slot order; unreadable slots are skipped. */
  ghost function DecodeCells(v: View): seq<LeafItem> {
    if v == [] then []
    else
      var c := if v[|v| - 1].Some? then DecodeCell(v[|v| - 1].value) else None;
      DecodeCells(v[..|v| - 1]) + if c.Some? then [c.value] else []
  }

  lemma {:induction false} CellsRoundTrip(cells: seq<LeafItem>)
    requires forall i :: 0 <= i < |cells| ==> Encodable(cells[i])
    ensures DecodeCells(Somes(EncodeCells(cells))) == cells
  {
    if cells != [] {
      var n := |cells| - 1;
      hide DecodeCell, DecodeCells, EncodeCell, Somes, EncodeCells, Encodable;
      CellsRoundTrip(cells[..n]);
      CellRoundTrip(cells[n]);
      SomesStep(cells);
      DecodeStep(Somes(EncodeCells(cells[..n])), EncodeCell(cells[n]), cells[n]);
      assert cells == cells[..n] + [cells[n]];
    } else {
      NoCells(cells);
    }
  }

  lemma {:induction false} NoCells(cells: seq<LeafItem>)
    requires cells == []
    ensures DecodeCells(Somes(EncodeCells(cells))) == []
  {
  }

  lemma {:induction false} SomesStep(cells: seq<LeafItem>)
    requires cells != [] && forall i :: 0 <= i < |cells| ==> Encodable(cells[i])
    ensures var n := |cells| - 1;
            Somes(EncodeCells(cells)) == Somes(EncodeCells(cells[..n])) + [Some(EncodeCell(cells[n]))]
  {
    hide EncodeCell;
    var n := |cells| - 1;
    var ps := EncodeCells(cells[..n]);
    assert (ps + [EncodeCell(cells[n])])[..n] == ps;
  }

  lemma {:induction false} DecodeStep(v: View, b: Bytes, c: LeafItem)
    requires DecodeCell(b) == Some(c)
    ensures DecodeCells(v + [Some(b)]) == DecodeCells(v) + [c]
  {
    hide DecodeCell;
    assert (v + [Some(b)])[..|v|] == v;
  }

  // ---------- Packing payloads ----------

  ghost function Somes(ps: seq<Bytes>): (v: View)
    ensures |v| == |ps| && forall i :: 0 <= i < |ps| ==> v[i] == Some(ps[i])
  {
    if ps == [] then [] else Somes(ps[..|ps| - 1]) + [Some(ps[|ps| - 1])]
  }

  /** Directory and payload bytes of a list of records. */
  function PackedSize(ps: seq<Bytes>): nat {
    if ps == [] then 0 else PackedSize(ps[..|ps| - 1]) + 4 + |ps[|ps| - 1]|
  }

  lemma {:induction false} PackedSizeIs(ps: seq<Bytes>)
    ensures PackedSize(ps) == 4 * |ps| + LiveBytes(Somes(ps))
  {
    if ps != [] {
      PackedSizeIs(ps[..|ps| - 1]);
      assert Somes(ps)[..|ps| - 1] == Somes(ps[..|ps| - 1]);
    }
  }

  /** A page of a dense list of records has room for one more exactly when the longer list packs. */
  lemma {:induction false} RoomForNext(ps: seq<Bytes>, p: Bytes)
    ensures FirstFree(Somes(ps)) == |ps|
    ensures Fits(Somes(ps), |ps|, |p|) <==> PackedSize(ps + [p]) <= CAPACITY
    ensures SetCell(Somes(ps), |ps|, Some(p)) == Somes(ps + [p])
  {
    PackedSizeIs(ps);
    assert (ps + [p])[..|ps|] == ps;
  }

  /** Insert the payloads one by one into a page without slots, until one does not fit. */
  method Fill(page: Page, ps: seq<Bytes>) returns (ok: bool, n: nat)
    requires page.Valid() && page.Records() == [] && forall i :: 0 <= i < |ps| ==> |ps[i]| <= 65531
    modifies page, page.data
    ensures page.Valid() && n <= |ps| && page.Records() == Somes(ps[..n])
    ensures ok <==> n == |ps|
    ensures PackedSize(ps[..n]) <= CAPACITY && (n < |ps| ==> PackedSize(ps[..n + 1]) > CAPACITY)
    ensures page.data[32..DIRECTORY_START] == old(page.data[32..DIRECTORY_START])
  {
    hide Somes, PackedSize, FirstFree, Fits, SetCell;
    n := 0;
    EmptyPacked(ps);
    while n < |ps|
      invariant 0 <= n <= |ps| && page.Valid() && page.Records() == Somes(ps[..n]) && PackedSize(ps[..n]) <= CAPACITY
      invariant page.data[32..DIRECTORY_START] == old(page.data[32..DIRECTORY_START])
    {
      RoomForNext(ps[..n], ps[n]);
      assert ps[..n + 1] == ps[..n] + [ps[n]];
      var r := page.Insert(ps[n]);
      if r == PageFull {
        return false, n;
      }
      assert r == Inserted(n);
      n := n + 1;
    }
    return true, n;
  }

  lemma {:induction false} EmptyPacked(ps: seq<Bytes>)
    ensures Somes(ps[..0]) == [] && PackedSize(ps[..0]) == 0
  {
  }

  lemma {:induction false} LeafSizeIsPacked(cells: seq<LeafItem>)
    requires forall i :: 0 <= i < |cells| ==> Encodable(cells[i])
    ensures LeafSize(cells) == PackedSize(EncodeCells(cells))
  {
    if cells != [] {
      LeafSizeIsPacked(cells[..|cells| - 1]);
      assert EncodeCells(cells)[..|cells| - 1] == EncodeCells(cells[..|cells| - 1]);
    }
  }

  /** Blank the page but for its link bytes. */
  method Reset(page: Page)
    requires page.data.Length == PAGE_SIZE
    modifies page, page.data
    ensures page.Valid() && page.Records() == []
    ensures page.data[32..48] == old(page.data[32..48])
  {
    var links := page.data[32..48];
    forall i | 0 <= i < page.data.Length {
      page.data[i] := 0;
    }
    page.slotCount, page.freeStart, page.freeEnd := 0, DIRECTORY_START, PAGE_SIZE;
    ghost var d := page.data[..];
    CopyInto(page.data, 32, links);
    SpliceInside(d, 32, links, 32, 48);
    assert page.data[32..48] == page.data[..][32..48];
  }

  /** SetItems of a leaf: it succeeds exactly when the cells fit; if not, it leaves the cells before the first
      one that does not.  The links of the leaf chain survive either way. */
  method SetItems(page: Page, cells: seq<LeafItem>) returns (ok: bool)
    requires page.data.Length == PAGE_SIZE && forall i :: 0 <= i < |cells| ==> Encodable(cells[i])
    modifies page, page.data
    ensures page.Valid() && ok == LeafFits(cells)
    ensures page.Records() == Somes(EncodeCells(LeafPrefix(cells)))
    ensures DecodeCells(page.Records()) == LeafPrefix(cells)
    ensures page.data[32..48] == old(page.data[32..48])
  {
    hide LeafSize, PackedSize, Somes, EncodeCells, DecodeCells, EncodeCell, LeafFits, LeafPrefix, Page.Valid,
        Page.Records;
    Reset(page);
    var ps := EncodeCells(cells);
    RecordSizes(cells);
    var n;
    ghost var links := page.data[32..48];
    assert links == page.data[32..DIRECTORY_START][..16];
    ok, n := Fill(page, ps);
    assert page.data[32..48] == page.data[32..DIRECTORY_START][..16];
    PrefixSizes(cells, n);
    CellsRoundTrip(cells[..n]);
  }

  lemma {:induction false} RecordSizes(cells: seq<LeafItem>)
    requires forall i :: 0 <= i < |cells| ==> Encodable(cells[i])
    ensures forall i :: 0 <= i < |EncodeCells(cells)| ==> |EncodeCells(cells)[i]| <= 65531
  {
    forall i | 0 <= i < |cells| ensures |EncodeCells(cells)[i]| <= 65531 {
      assert EncodeCells(cells)[i] == EncodeCell(cells[i]);
    }
  }

  /** The longest fitting prefix is the one Fill stops after. */
  lemma {:induction false} PrefixSizes(cells: seq<LeafItem>, n: nat)
    requires n <= |cells| && forall i :: 0 <= i < |cells| ==> Encodable(cells[i])
    requires PackedSize(EncodeCells(cells)[..n]) <= CAPACITY
    requires n < |cells| ==> PackedSize(EncodeCells(cells)[..n + 1]) > CAPACITY
    ensures LeafPrefix(cells) == cells[..n] && EncodeCells(cells[..n]) == EncodeCells(cells)[..n]
    ensures LeafFits(cells) <==> n == |cells|
  {
    hide PackedSize, EncodeCells, LeafSize;
    LeafSizeIsPacked(cells[..n]);
    EncodePrefix(cells, n);
    if n < |cells| {
      LeafSizeIsPacked(cells[..n + 1]);
      EncodePrefix(cells, n + 1);
    }
    LeafPrefixUnique(cells, n);
  }

  lemma {:induction false} EncodePrefix(cells: seq<LeafItem>, n: nat)
    requires n <= |cells| && forall i :: 0 <= i < |cells| ==> Encodable(cells[i])
    ensures EncodeCells(cells[..n]) == EncodeCells(cells)[..n]
  {
    hide EncodeCells, EncodeCell, Encodable;
  }

  lemma {:induction false} LeafSizeMonotone(cells: seq<LeafItem>, n: nat)
    requires n <= |cells|
    ensures LeafSize(cells[..n]) <= LeafSize(cells)
  {
    if n < |cells| {
      LeafSizeMonotone(cells[..|cells| - 1], n);
      assert cells[..|cells| - 1][..n] == cells[..n];
    } else {
      assert cells[..n] == cells;
    }
  }

  lemma {:induction false} LeafPrefixUnique(cells: seq<LeafItem>, n: nat)
    requires n <= |cells| && LeafFits(cells[..n]) && (n < |cells| ==> !LeafFits(cells[..n + 1]))
    ensures LeafPrefix(cells) == cells[..n] && (LeafFits(cells) <==> n == |cells|)
  {
    hide LeafPrefix, LeafSize;
    var r := LeafPrefix(cells);
    assert r == cells[..|r|] && cells[..|cells|] == cells;
    if n < |r| {
      assert r[..n + 1] == cells[..n + 1];
      LeafSizeMonotone(r, n + 1);
    }
    if |r| < n {
      assert cells[..n][..|r| + 1] == cells[..|r| + 1];
      LeafSizeMonotone(cells[..n], |r| + 1);
    }
    if n < |cells| { LeafSizeMonotone(cells, n + 1); }
  }

  method Items(page: Page) returns (items: seq<LeafItem>)
    requires page.Valid()
    ensures items == DecodeCells(page.Records())
  {
    hide DecodeCell, ViewOf;
    items := [];
    var i := 0;
    ghost var v := page.Records();
    while i < page.slotCount
      invariant 0 <= i <= page.slotCount && items == DecodeCells(v[..i])
    {
      var p := page.Get(i);
      assert v[..i + 1][..i] == v[..i];
      if p.Some? {
        var c := DecodeCell(p.value);
        if c.Some? {
          items := items + [c.value];
        }
      }
      i := i + 1;
    }
    assert v[..i] == v;
  }
}
