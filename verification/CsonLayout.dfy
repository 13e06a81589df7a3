/**
 The byte layout of a CSON document: header, field directory sorted by id, payload; and the item list of
 an array.  What the payloads mean is in Cson.
 */
module CsonLayout {
  import opened ByteOrder
  import opened BigEndian
  import opened Options

  const CSON_MAGIC := 0x4353_4F4E
  const CSON_VERSION := 1
  const HEAD := 8
  const ENTRY := 14


  /** A value as bytes, with its type and, in a document, its field id. */
  datatype Raw = Raw(id: nat, kind: Byte, body: Bytes)

  // ---------- Documents ----------

  function Entry(f: Raw, offset: nat): (b: Bytes)
    ensures |b| == ENTRY
  {
    Be(4, f.id) + [f.kind, 0] + Be(4, offset) + Be(4, |f.body|)
  }

  function Payload(fs: seq<Raw>): Bytes {
    if fs == [] then [] else Payload(fs[..|fs| - 1]) + fs[|fs| - 1].body
  }

  function Directory(fs: seq<Raw>, start: nat): (b: Bytes)
    ensures |b| == ENTRY * |fs|
  {
    if fs == [] then []
    else
      var n := |fs| - 1;
      Directory(fs[..n], start) + Entry(fs[n], start + |Payload(fs[..n])|)
  }

  function HeadOf(count: nat): (b: Bytes)
    ensures |b| == HEAD
  {
    Be(4, CSON_MAGIC) + Be(2, CSON_VERSION) + Be(2, count)
  }

  function Doc(fs: seq<Raw>): (b: Bytes)
    ensures |b| == HEAD + ENTRY * |fs| + |Payload(fs)|
  {
    HeadOf(|fs|) + Directory(fs, HEAD + ENTRY * |fs|) + Payload(fs)
  }

  /** NewDocumentView: the number of fields, if the header and the directory are there. */
  function FieldCount(data: Bytes): (r: Option<nat>)
    ensures r.Some? ==> HEAD + ENTRY * r.value <= |data|
  {
    if |data| < HEAD || Val(data[0..4]) != CSON_MAGIC || |data| < HEAD + ENTRY * Val(data[6..8]) then None
    else Some(Val(data[6..8]))
  }

  /** One directory entry: id, type, and the bytes it points at unless they lie outside the document. */
  datatype Field = Field(id: nat, kind: Byte, body: Option<Bytes>)

  function FieldAt(data: Bytes, i: nat): Field
    requires HEAD + ENTRY * (i + 1) <= |data|
  {
    var off := HEAD + ENTRY * i;
    var offset, length := Val(data[off + 6..off + 10]), Val(data[off + 10..off + 14]);
    Field(Val(data[off..off + 4]), data[off + 4], if offset + length <= |data| then Some(data[offset..offset + length])
                                                    else None)
  }

  ghost predicate DocFits(fs: seq<Raw>) {
    |fs| < 0x1_0000 && |Doc(fs)| < U32_LIMIT && forall i :: 0 <= i < |fs| ==> fs[i].id < U32_LIMIT
  }

  lemma {:induction false} PayloadAt(fs: seq<Raw>, i: nat)
    requires i < |fs|
    ensures var a := |Payload(fs[..i])|;
            a + |fs[i].body| <= |Payload(fs)| && Payload(fs)[a..a + |fs[i].body|] == fs[i].body
  {
    var n := |fs| - 1;
    if i < n {
      PayloadAt(fs[..n], i);
      assert fs[..n][..i] == fs[..i];
      var a := |Payload(fs[..i])|;
      assert Payload(fs)[a..a + |fs[i].body|] == Payload(fs[..n])[a..a + |fs[i].body|];
    }
  }

  lemma {:induction false} DirectoryAt(fs: seq<Raw>, start: nat, i: nat)
    requires i < |fs|
    ensures Directory(fs, start)[ENTRY * i..ENTRY * i + ENTRY] == Entry(fs[i], start + |Payload(fs[..i])|)
  {
    hide Entry, Payload;
    var n := |fs| - 1;
    if i < n {
      DirectoryAt(fs[..n], start, i);
      assert fs[..n][..i] == fs[..i];
      var d := Directory(fs[..n], start);
      assert Directory(fs, start)[ENTRY * i..ENTRY * i + ENTRY] == d[ENTRY * i..ENTRY * i + ENTRY];
    }
  }

  lemma {:induction false} EntryFields(data: Bytes, off: nat, f: Raw, offset: nat)
    requires off + ENTRY <= |data| && data[off..off + ENTRY] == Entry(f, offset)
    requires f.id < U32_LIMIT && offset < U32_LIMIT && |f.body| < U32_LIMIT
    ensures Val(data[off..off + 4]) == f.id && data[off + 4] == f.kind
    ensures Val(data[off + 6..off + 10]) == offset && Val(data[off + 10..off + 14]) == |f.body|
  {
    hide Be, Val, Pow256;
    var e := data[off..off + ENTRY];
    assert e[0..4] == Be(4, f.id) && e[4] == f.kind && e[6..10] == Be(4, offset) && e[10..14] == Be(4, |f.body|);
    assert data[off..off + 4] == e[0..4] && data[off + 4] == e[4] && data[off + 6..off + 10] == e[6..10]
           && data[off + 10..off + 14] == e[10..14];
    Widths();
    ValOfBe(4, f.id);
    ValOfBe(4, offset);
    ValOfBe(4, |f.body|);
  }

  lemma {:induction false} Slices(h: Bytes, d: Bytes, p: Bytes, x: nat, y: nat, a: nat, b: nat)
    requires x <= y <= |d| && a <= b <= |p|
    ensures (h + d + p)[|h| + x..|h| + y] == d[x..y] && (h + d + p)[|h| + |d| + a..|h| + |d| + b] == p[a..b]
  {
  }

  /** The entry and the payload of field i are where the layout puts them. */
  lemma {:induction false} DocSlices(fs: seq<Raw>, i: nat)
    requires i < |fs|
    ensures var data, start, off, a := Doc(fs), HEAD + ENTRY * |fs|, HEAD + ENTRY * i, |Payload(fs[..i])|;
            && start + a + |fs[i].body| <= |data|
            && data[off..off + ENTRY] == Entry(fs[i], start + a)
            && data[start + a..start + a + |fs[i].body|] == fs[i].body
  {
    hide Directory, Payload, Entry, HeadOf;
    var start, a := HEAD + ENTRY * |fs|, |Payload(fs[..i])|;
    DirectoryAt(fs, start, i);
    PayloadAt(fs, i);
    Slices(HeadOf(|fs|), Directory(fs, start), Payload(fs), ENTRY * i, ENTRY * i + ENTRY, a, a + |fs[i].body|);
  }

  /** Every field of a document is found where the directory says. */
  lemma {:induction false} DocRoundTrip(fs: seq<Raw>, i: nat)
    requires DocFits(fs) && i < |fs|
    ensures FieldAt(Doc(fs), i) == Field(fs[i].id, fs[i].kind, Some(fs[i].body))
  {
    hide Doc, Payload, Entry, Val;
    DocSlices(fs, i);
    EntryFields(Doc(fs), HEAD + ENTRY * i, fs[i], HEAD + ENTRY * |fs| + |Payload(fs[..i])|);
  }

  lemma {:induction false} DocCount(fs: seq<Raw>)
    requires |fs| < 0x1_0000
    ensures FieldCount(Doc(fs)) == Some(|fs|)
  {
    hide Directory, Payload, Be, Val, Pow256;
    var data, h := Doc(fs), HeadOf(|fs|);
    assert h[0..4] == Be(4, CSON_MAGIC) && h[6..8] == Be(2, |fs|);
    assert data[0..4] == h[0..4] && data[6..8] == h[6..8];
    Widths();
    ValOfBe(4, CSON_MAGIC);
    ValOfBe(2, |fs|);
  }

  // ---------- Arrays ----------

  function ItemsCode(items: seq<Raw>): Bytes {
    if items == [] then [] else [items[0].kind] + Be(4, |items[0].body|) + items[0].body + ItemsCode(items[1..])
  }

  function ArrayCode(items: seq<Raw>): Bytes {
    Be(4, |items|) + ItemsCode(items)
  }

  /** What bytes.Reader.Read leaves in a buffer of the given length: a short read pads with zeros. */
  function Filled(rest: Bytes, length: nat): (b: Bytes)
    ensures |b| == length
  {
    if length <= |rest| then rest[..length] else rest + seq(length - |rest|, _ => 0)
  }

  lemma {:induction false} ItemHead(items: seq<Raw>)
    requires items != [] && |items[0].body| < U32_LIMIT
    ensures var b, body := ItemsCode(items), items[0].body;
            && |b| >= 5 + |body| && b[0] == items[0].kind && Val(b[1..5]) == |body|
            && b[5..] == body + ItemsCode(items[1..]) && Filled(b[5..], |body|) == body
                && b[5..][|body|..] == ItemsCode(items[1..])
  {
    hide Be, Val, Pow256;
    var b := ItemsCode(items);
    assert b[1..5] == Be(4, |items[0].body|);
    Widths();
    ValOfBe(4, |items[0].body|);
  }
}
