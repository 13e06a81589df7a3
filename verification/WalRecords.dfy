/**
 Write-ahead log records: Record.Encode and DecodeRecord, and the log as a string of records that may
 be cut anywhere.

 The checksum is a parameter: nothing here depends on which function it is.
 */
module WalRecords {
  import opened ByteOrder
  import opened BigEndian

  type U32 = n: int | 0 <= n < U32_LIMIT
  type U64 = n: int | 0 <= n < U64_LIMIT
  type Checksum = Bytes -> U32

  const WAL_MAGIC: U32 := 0x434F434F
  const WAL_VERSION := 1
  const HEADER_SIZE := 31

  const TXN_BEGIN: Byte := 1
  const PAGE_UPDATE: Byte := 2
  const TXN_COMMIT: Byte := 5
  const TXN_ABORT: Byte := 6

  datatype Record = Record(kind: Byte, lsn: U64, txn: U64, payload: Bytes)

  predicate Loggable(r: Record) {
    |r.payload| < U32_LIMIT
  }

  /** Version and kind, payload length, LSN, transaction id and payload checksum, in wire order. */
  function Header(crc: Checksum, r: Record): (h: Bytes)
    ensures |h| == HEADER_SIZE
  {
    Be(4, WAL_MAGIC) + Be(2, WAL_VERSION) + [r.kind] + Be(4, |r.payload|) + Be(8, r.lsn) + Be(8, r.txn) + Be(4,
        crc(r.payload))
  }

  function Encode(crc: Checksum, r: Record): (b: Bytes)
    ensures |b| == HEADER_SIZE + |r.payload|
  {
    Header(crc, r) + r.payload
  }

  datatype DecodeResult = Decoded(rec: Record, size: nat) | Torn | Invalid

  function Field64(b: Bytes, off: nat): U64
    requires off + 8 <= |b|
  {
    ValBound(b[off..off + 8]);
    Widths();
    Val(b[off..off + 8])
  }

  /** DecodeRecord on a reader positioned at the start of buf.  `Torn` is a short read, `Invalid` a wrong
      magic number or checksum.  The version is read but never compared. */
  function Decode(crc: Checksum, buf: Bytes): (d: DecodeResult)
    ensures d.Decoded? ==> HEADER_SIZE <= d.size <= |buf|
  {
    if |buf| < HEADER_SIZE then Torn
    else if Val(buf[0..4]) != WAL_MAGIC then Invalid
    else
      var length := Val(buf[7..11]);
      if |buf| < HEADER_SIZE + length then Torn
      else
        var payload := buf[HEADER_SIZE..HEADER_SIZE + length];
        if Val(buf[27..31]) != crc(payload) then Invalid
        else Decoded(Record(buf[6], Field64(buf, 11), Field64(buf, 19), payload), HEADER_SIZE + length)
  }

  /** The fields of a header are where Decode looks for them. */
  lemma {:induction false} HeaderFields(crc: Checksum, r: Record, b: Bytes)
    requires Loggable(r) && |b| >= HEADER_SIZE && b[..HEADER_SIZE] == Header(crc, r)
    ensures Val(b[0..4]) == WAL_MAGIC && b[6] == r.kind && Val(b[7..11]) == |r.payload|
    ensures Field64(b, 11) == r.lsn && Field64(b, 19) == r.txn && Val(b[27..31]) == crc(r.payload)
  {
    hide Be, Val, Pow256;
    var h := Header(crc, r);
    assert h[0..4] == Be(4, WAL_MAGIC) && h[6] == r.kind && h[7..11] == Be(4, |r.payload|);
    assert h[11..19] == Be(8, r.lsn) && h[19..27] == Be(8, r.txn) && h[27..31] == Be(4, crc(r.payload));
    hide Header;
    assert b[0..4] == h[0..4] && b[6] == h[6] && b[7..11] == h[7..11] && b[11..19] == h[11..19]
           && b[19..27] == h[19..27] && b[27..31] == h[27..31];
    Widths();
    ValOfBe(4, WAL_MAGIC);
    ValOfBe(4, |r.payload|);
    ValOfBe(8, r.lsn);
    ValOfBe(8, r.txn);
    ValOfBe(4, crc(r.payload));
  }

  /** A record followed by anything decodes to itself. */
  lemma {:induction false} RecordRoundTrip(crc: Checksum, r: Record, rest: Bytes)
    requires Loggable(r)
    ensures Decode(crc, Encode(crc, r) + rest) == Decoded(r, |Encode(crc, r)|)
  {
    hide Header, Val, Field64;
    var b := Encode(crc, r) + rest;
    assert b[..HEADER_SIZE] == Header(crc, r);
    HeaderFields(crc, r, b);
    assert b[HEADER_SIZE..HEADER_SIZE + |r.payload|] == r.payload;
  }

  /** A record cut short is recognised as torn, wherever the cut is. */
  lemma {:induction false} CutRecordIsTorn(crc: Checksum, r: Record, cut: nat)
    requires Loggable(r) && cut < |Encode(crc, r)|
    ensures Decode(crc, Encode(crc, r)[..cut]) == Torn
  {
    hide Header, Val, Field64;
    var b := Encode(crc, r)[..cut];
    if cut >= HEADER_SIZE {
      assert b[..HEADER_SIZE] == Header(crc, r);
      HeaderFields(crc, r, b);
    }
  }

  /** What decodes has the bytes of its record, checksum included; only the version, which nothing reads, may differ. */
  lemma {:induction false} DecodedIs(crc: Checksum, b: Bytes)
    requires Decode(crc, b).Decoded?
    ensures var d := Decode(crc, b);
            && Loggable(d.rec) && d.size == |Encode(crc, d.rec)|
            && b[..4] == Encode(crc, d.rec)[..4] && b[6..d.size] == Encode(crc, d.rec)[6..]
  {
    hide Be, Val, Pow256;
    var d := Decode(crc, b);
    var r, e := d.rec, Encode(crc, d.rec);
    Widths();
    ValBound(b[7..11]);
    BeOfVal(b[0..4]);
    BeOfVal(b[7..11]);
    BeOfVal(b[11..19]);
    BeOfVal(b[19..27]);
    BeOfVal(b[27..31]);
    assert e[..4] == Be(4, WAL_MAGIC) && b[..4] == b[0..4];
    assert e[6..] == [r.kind] + Be(4, |r.payload|) + Be(8, r.lsn) + Be(8, r.txn) + Be(4, crc(r.payload)) + r.payload;
    assert b[6..d.size] == [b[6]] + b[7..11] + b[11..19] + b[19..27] + b[27..31] + b[31..d.size];
  }

  // ---------- The log ----------

  predicate AllLoggable(rs: seq<Record>) {
    forall i :: 0 <= i < |rs| ==> Loggable(rs[i])
  }

  function EncodeAll(crc: Checksum, rs: seq<Record>): Bytes {
    if rs == [] then [] else Encode(crc, rs[0]) + EncodeAll(crc, rs[1..])
  }

  /** The records ReadAll finds: up to the first that does not decode. */
  function Scan(crc: Checksum, log: Bytes): seq<Record>
    decreases |log|
  {
    var d := Decode(crc, log);
    if d.Decoded? then [d.rec] + Scan(crc, log[d.size..]) else []
  }

  method ReadAll(crc: Checksum, log: Bytes) returns (records: seq<Record>)
    ensures records == Scan(crc, log)
  {
    hide Decode;
    records := [];
    var pos := 0;
    while true
      invariant 0 <= pos <= |log| && records + Scan(crc, log[pos..]) == Scan(crc, log)
      decreases |log| - pos
    {
      var d := Decode(crc, log[pos..]);
      if !d.Decoded? {
        assert records + [] == records;
        break;
      }
      assert log[pos..][d.size..] == log[pos + d.size..];
      assert records + ([d.rec] + Scan(crc, log[pos + d.size..]))
             == (records + [d.rec]) + Scan(crc, log[pos + d.size..]);
      records := records + [d.rec];
      pos := pos + d.size;
    }
  }

  /** How many records lie whole before the cut. */
  function Whole(crc: Checksum, rs: seq<Record>, cut: nat): (k: nat)
    ensures k <= |rs|
  {
    if rs == [] || |Encode(crc, rs[0])| > cut then 0
    else 1 + Whole(crc, rs[1..], cut - |Encode(crc, rs[0])|)
  }

  lemma {:induction false} WholeIs(crc: Checksum, rs: seq<Record>, cut: nat)
    ensures var k := Whole(crc, rs, cut);
            && |EncodeAll(crc, rs[..k])| <= cut
            && (k < |rs| ==> cut < |EncodeAll(crc, rs[..k + 1])|)
  {
    if rs != [] {
      var n := |Encode(crc, rs[0])|;
      if n <= cut {
        WholeIs(crc, rs[1..], cut - n);
        var k := Whole(crc, rs[1..], cut - n);
        assert rs[..k + 1][1..] == rs[1..][..k];
        if k + 1 < |rs| { assert rs[..k + 2][1..] == rs[1..][..k + 1]; }
      } else {
        assert rs[..1][1..] == [];
      }
    }
  }

  /** For every cut of a log, ReadAll yields exactly the whole records before the cut. */
  lemma {:induction false} ScanOfCut(crc: Checksum, rs: seq<Record>, cut: nat)
    requires AllLoggable(rs) && cut <= |EncodeAll(crc, rs)|
    ensures Scan(crc, EncodeAll(crc, rs)[..cut]) == rs[..Whole(crc, rs, cut)]
  {
    hide Decode, Encode;
    var log := EncodeAll(crc, rs);
    if rs == [] {
      EmptyIsTorn(crc);
      assert log[..cut] == [];
    } else {
      var e, tail := Encode(crc, rs[0]), EncodeAll(crc, rs[1..]);
      if |e| > cut {
        assert log[..cut] == e[..cut];
        CutRecordIsTorn(crc, rs[0], cut);
      } else {
        var rest := tail[..cut - |e|];
        assert log[..cut] == e + rest;
        RecordRoundTrip(crc, rs[0], rest);
        assert (e + rest)[|e|..] == rest;
        ScanOfCut(crc, rs[1..], cut - |e|);
      }
    }
  }

  lemma {:induction false} EmptyIsTorn(crc: Checksum)
    ensures Decode(crc, []) == Torn
  {
  }

  lemma {:induction false} Associative(a: Bytes, b: Bytes, c: Bytes)
    ensures (a + b) + c == a + (b + c)
  {
  }

  /** Where the i-th record of a log ends. */
  ghost function EndOf(crc: Checksum, rs: seq<Record>, i: nat): nat
    requires i < |rs|
  {
    |EncodeAll(crc, rs[..i + 1])|
  }

  lemma {:induction false} EncodeAllConcat(crc: Checksum, a: seq<Record>, b: seq<Record>)
    ensures EncodeAll(crc, a + b) == EncodeAll(crc, a) + EncodeAll(crc, b)
  {
    if a == [] {
      assert a + b == b;
    } else {
      hide Encode;
      EncodeAllConcat(crc, a[1..], b);
      var e, x, y := Encode(crc, a[0]), EncodeAll(crc, a[1..]), EncodeAll(crc, b);
      assert (a + b)[0] == a[0] && (a + b)[1..] == a[1..] + b;
      Associative(e, x, y);
    }
  }

  /** A longer cut keeps at least the records of a shorter prefix. */
  lemma {:induction false} WholeAtLeast(crc: Checksum, rs: seq<Record>, cut: nat, n: nat)
    requires n <= |rs| && |EncodeAll(crc, rs[..n])| <= cut
    ensures n <= Whole(crc, rs, cut)
  {
    if n > 0 {
      assert rs[..n][0] == rs[0] && rs[..n][1..] == rs[1..][..n - 1];
      WholeAtLeast(crc, rs[1..], cut - |Encode(crc, rs[0])|, n - 1);
    }
  }
}
