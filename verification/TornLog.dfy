/**
 Sessions behind a torn log.

 Recover truncates the log only if it finds a record.  A file that begins with a torn record is left as it is,
 and the next session appends behind it.  Here is what becomes of the records of that session.
 */
module TornLog {
  import opened ByteOrder
  import opened BigEndian
  import opened PageBytes
  import opened WalRecords
  import opened Wal
  import opened Recovery

  /** Behind bytes that are wrong, and not only too few, nothing is ever read. */
  lemma {:induction false} InvalidBlocks(crc: Checksum, torn: Bytes, rest: Bytes)
    requires Decode(crc, torn) == Invalid
    ensures Scan(crc, torn + rest) == []
  {
    hide Val;
    var b := torn + rest;
    assert b[0..4] == torn[0..4] && b[7..11] == torn[7..11] && b[27..31] == torn[27..31];
    if Val(torn[0..4]) == WAL_MAGIC {
      var length := Val(torn[7..11]);
      assert b[HEADER_SIZE..HEADER_SIZE + length] == torn[HEADER_SIZE..HEADER_SIZE + length];
    }
  }

  // ---------- A torn file hides the session behind it ----------

  lemma {:induction false} MagicBytes()
    ensures Be(4, WAL_MAGIC) == [0x43, 0x4F, 0x43, 0x4F]
  {
    assert Be(3, 0x434F43) == Be(2, 0x434F) + [0x43] && Be(2, 0x434F) == Be(1, 0x43) + [0x4F]
           && Be(1, 0x43) == Be(0, 0) + [0x43];
  }

  lemma {:induction false} BeSplit(n: nat, k: nat, v: nat)
    requires v < Pow256(k)
    ensures Be(n + k, v) == Be(n, 0) + Be(k, v)
  {
    if k == 0 {
      assert Be(0, v) == [] && Be(n, 0) + [] == Be(n, 0);
    } else {
      BeSplit(n, k - 1, v / 256);
      assert Be(n, 0) + (Be(k - 1, v / 256) + [v % 256]) == (Be(n, 0) + Be(k - 1, v / 256)) + [v % 256];
    }
  }

  lemma {:induction false} ZeroBytes(n: nat, i: nat)
    requires i < n
    ensures Be(n, 0)[i] == 0
  {
    if i < n - 1 { ZeroBytes(n - 1, i); }
  }

  /** A begin record of a small LSN and a small transaction id. */
  predicate SmallBegin(r: Record) {
    r.kind == TXN_BEGIN && r.payload == [] && Small(r.lsn) && Small(r.txn)
  }

  /** An id below 2^32 that does not spell the magic number. */
  predicate Small(n: nat) {
    n < U32_LIMIT && n != WAL_MAGIC
  }

  /** All of the layout but the version, which nothing reads. */
  ghost predicate LikeBegin(h: Bytes, lsn: nat, txn: nat) {
    && |h| >= HEADER_SIZE && h[0] == 0x43 && h[1] == 0x4F && h[2] == 0x43 && h[3] == 0x4F && h[6] == 1
    && (forall i :: 7 <= i < 15 ==> h[i] == 0) && h[15..19] == Be(4, lsn)
    && (forall i :: 19 <= i < 23 ==> h[i] == 0) && h[23..27] == Be(4, txn) && forall i :: 27 <= i < 31 ==> h[i] == 0
  }

  /** The bytes of such a record, where the checksum of nothing is 0 as in CRC-32C. */
  lemma {:induction false} BeginLayout(crc: Checksum, r: Record)
    requires SmallBegin(r) && crc([]) == 0
    ensures |Encode(crc, r)| == HEADER_SIZE && LikeBegin(Encode(crc, r), r.lsn, r.txn) && Encode(crc, r)[4] == 0
            && Encode(crc, r)[5] == 1
  {
    assert Be(2, 1) == Be(1, 0) + [1] && Be(1, 0) == [0];
    hide Be, Val, Pow256;
    var h := Encode(crc, r);
    assert h[0..4] == Be(4, WAL_MAGIC) && h[4..6] == Be(2, 1) && h[7..11] == Be(4, 0);
    assert h[11..19] == Be(8, r.lsn) && h[19..27] == Be(8, r.txn) && h[27..31] == Be(4, 0) && h[6] == r.kind;
    hide Encode;
    assert h[4] == h[4..6][0] && h[5] == h[4..6][1];
    Laid(h, r.lsn, r.txn);
  }

  lemma {:induction false} Laid(b: Bytes, lsn: nat, txn: nat)
    requires |b| >= HEADER_SIZE && b[6] == 1 && b[0..4] == Be(4, WAL_MAGIC) && b[7..11] == Be(4, 0)
             && b[27..31] == Be(4, 0)
    requires b[11..19] == Be(8, lsn) && b[19..27] == Be(8, txn) && lsn < U32_LIMIT && txn < U32_LIMIT
    ensures LikeBegin(b, lsn, txn)
  {
    hide Be, Pow256;
    MagicBytes();
    Widths();
    BeSplit(4, 4, lsn);
    BeSplit(4, 4, txn);
    forall i | 0 <= i < 4 ensures Be(4, 0)[i] == 0 { ZeroBytes(4, i); }
    Spread(b, lsn, txn);
  }

  lemma {:induction false} FieldBytes(b: Bytes, from: nat, n: nat, v: nat)
    requires from + n <= |b| && Val(b[from..from + n]) == v
    ensures b[from..from + n] == Be(n, v)
  {
    BeOfVal(b[from..from + n]);
  }

  /** What decodes to such a record has its bytes. */
  lemma {:induction false} DecodedLayout(crc: Checksum, b: Bytes, r: Record, size: nat)
    requires Decode(crc, b) == Decoded(r, size) && SmallBegin(r) && crc([]) == 0
    ensures LikeBegin(b, r.lsn, r.txn)
  {
    hide Be, Val, Pow256;
    FieldBytes(b, 0, 4, WAL_MAGIC);
    FieldBytes(b, 7, 4, 0);
    FieldBytes(b, 11, 8, r.lsn);
    FieldBytes(b, 19, 8, r.txn);
    FieldBytes(b, 27, 4, 0);
    Laid(b, r.lsn, r.txn);
  }

  lemma {:induction false} Spread(b: Bytes, lsn: nat, txn: nat)
    requires |b| >= HEADER_SIZE && b[6] == 1 && b[0..4] == [0x43, 0x4F, 0x43, 0x4F] && b[7..11] == Be(4, 0)
             && b[27..31] == Be(4, 0)
    requires b[11..19] == Be(4, 0) + Be(4, lsn) && b[19..27] == Be(4, 0) + Be(4, txn)
    requires forall i :: 0 <= i < 4 ==> Be(4, 0)[i] == 0
    ensures LikeBegin(b, lsn, txn)
  {
    hide Be;
    forall i | 7 <= i < 11 ensures b[i] == 0 { assert b[i] == b[7..11][i - 7]; }
    forall i | 11 <= i < 15 ensures b[i] == 0 { assert b[i] == b[11..19][i - 11]; }
    forall i | 19 <= i < 23 ensures b[i] == 0 { assert b[i] == b[19..27][i - 19]; }
    forall i | 27 <= i < 31 ensures b[i] == 0 { assert b[i] == b[27..31][i - 27]; }
    assert b[15..19] == b[11..19][4..] && b[23..27] == b[19..27][4..];
    assert b[0] == b[0..4][0] && b[1] == b[0..4][1] && b[2] == b[0..4][2] && b[3] == b[0..4][3];
  }

  ghost predicate HeaderStarts(b: Bytes, j: nat) {
    && j + HEADER_SIZE <= |b| && b[j] == 0x43 && b[j + 1] == 0x4F && b[j + 2] == 0x43 && b[j + 3] == 0x4F
        && b[j + 4] == 0
  }

  /** No second header starts less than a header behind a first. */
  lemma {:induction false} NoTwoHeaders(b: Bytes, j: nat, lsn: nat, txn: nat)
    requires 0 < j < HEADER_SIZE && Small(lsn) && Small(txn) && LikeBegin(b, lsn, txn)
    ensures !HeaderStarts(b, j)
  {
    MagicBytes();
    Widths();
    ValOfBe(4, lsn);
    ValOfBe(4, txn);
    ValOfBe(4, WAL_MAGIC);
    hide Be, Val, Pow256;
    assert b[15..19] == [b[15], b[16], b[17], b[18]] && b[23..27] == [b[23], b[24], b[25], b[26]];
  }

  /** Behind torn bytes, whatever they are, the first record of a session is not read back. */
  lemma {:induction false} FirstRecordLost(crc: Checksum, torn: Bytes, r: Record, rest: Bytes)
    requires SmallBegin(r) && crc([]) == 0 && torn != [] && Scan(crc, torn) == []
    ensures var rs := Scan(crc, torn + Encode(crc, r) + rest); rs == [] || rs[0] != r
  {
    hide Val, Encode, Field64;
    var b := torn + Encode(crc, r) + rest;
    var d := Decode(crc, b);
    if d.Decoded? && d.rec == r {
      if |torn| >= HEADER_SIZE {
        SameStart(crc, b, torn);
      } else {
        BeginLayout(crc, r);
        StartsBehind(torn, Encode(crc, r), rest, r.lsn, r.txn);
        DecodedLayout(crc, b, r, d.size);
        NoTwoHeaders(b, |torn|, r.lsn, r.txn);
      }
    }
  }

  lemma {:induction false} StartsBehind(torn: Bytes, h: Bytes, rest: Bytes, lsn: nat, txn: nat)
    requires |h| == HEADER_SIZE && LikeBegin(h, lsn, txn) && h[4] == 0
    ensures HeaderStarts(torn + h + rest, |torn|)
  {
    var b, j := torn + h + rest, |torn|;
    assert b[j] == h[0] && b[j + 1] == h[1] && b[j + 2] == h[2] && b[j + 3] == h[3] && b[j + 4] == h[4];
  }

  /** A record without payload decodes from its header alone. */
  lemma {:induction false} SameStart(crc: Checksum, b: Bytes, torn: Bytes)
    requires Decode(crc, b).Decoded? && Decode(crc, b).rec.payload == [] && torn <= b && |torn| >= HEADER_SIZE
    ensures Decode(crc, torn).Decoded?
  {
    hide Val, Field64;
    assert b[0..4] == torn[0..4] && b[7..11] == torn[7..11] && b[27..31] == torn[27..31];
    assert torn[HEADER_SIZE..HEADER_SIZE] == [];
  }

  lemma {:induction false} RunBegins(ts: seq<Txn>)
    requires ts != []
    ensures RunRecords(ts) != [] && RunRecords(ts)[0] == Record(TXN_BEGIN, 0, ts[0].id, [])
  {
    hide TxnRecords;
    var n := |ts| - 1;
    if n > 0 {
      RunBegins(ts[..n]);
    } else {
      BeginsFirst(ts[0]);
      assert RunRecords(ts[..0]) == [];
    }
  }

  /** The log of a session reads back as it was appended, for every cut, if and only if no torn bytes stand
      before it: the file was empty when it was opened, or a record was found and it was truncated. */
  lemma {:induction false} ReadsBackIff(m: Manager)
    requires m.Valid() && m.history != [] && m.log.records != [] && Scan(m.log.crc, m.log.torn) == []
    requires m.log.crc([]) == 0 && Small(m.log.records[0].lsn) && Small(m.log.records[0].txn)
    ensures (forall cut :: |m.log.torn| <= cut <= |m.log.file| ==>
               Scan(m.log.crc, m.log.file[..cut])
                   == m.log.records[..Whole(m.log.crc, m.log.records, cut - |m.log.torn|)])
            <==> m.log.torn == []
  {
    hide Scan, EncodeAll, Encode, RunRecords, Whole;
    var crc, torn, rs, file := m.log.crc, m.log.torn, m.log.records, m.log.file;
    if torn == [] {
      assert file == EncodeAll(crc, rs);
      forall cut | |torn| <= cut <= |file| ensures Scan(crc, file[..cut]) == rs[..Whole(crc, rs, cut - |torn|)] {
        ScanOfCut(crc, rs, cut);
      }
    } else {
      RunBegins(m.history);
      var rest := FirstThen(crc, rs);
      Associative(torn, Encode(crc, rs[0]), rest);
      FirstRecordLost(crc, torn, rs[0], rest);
      WholeAtLeast(crc, rs, |file| - |torn|, 1);
      assert file[..|file|] == file;
    }
  }

  lemma {:induction false} FirstThen(crc: Checksum, rs: seq<Record>) returns (rest: Bytes)
    requires rs != []
    ensures EncodeAll(crc, rs) == Encode(crc, rs[0]) + rest && |EncodeAll(crc, rs[..1])| <= |EncodeAll(crc, rs)|
  {
    hide Encode;
    rest := EncodeAll(crc, rs[1..]);
    assert rs[..1][1..] == [];
  }

  /** Behind a single byte of a torn record nothing is found, whatever the checksum and wherever the cut. */
  lemma {:induction false} OneByteHidesAll(crc: Checksum, rs: seq<Record>, cut: nat)
    requires cut <= 1 + |EncodeAll(crc, rs)|
    ensures Scan(crc, ([0x43] + EncodeAll(crc, rs))[..cut]) == []
  {
    hide Val, Field64;
    var b := ([0x43] + EncodeAll(crc, rs))[..cut];
    if |b| >= HEADER_SIZE {
      var rest := FirstThen(crc, rs);
      MagicBytes();
      assert Encode(crc, rs[0])[0..4] == Be(4, WAL_MAGIC);
      assert b[1] == Encode(crc, rs[0])[0..4][0];
      assert b[0..4][1] == 0x43;
      NotMagic(b[0..4]);
    }
  }

  lemma {:induction false} NotMagic(b: Bytes)
    requires |b| == 4 && b[1] == 0x43
    ensures Val(b) != WAL_MAGIC
  {
    hide Val;
    BeOfVal(b);
    MagicBytes();
  }

  /** A session behind such a byte: it commits and syncs, and recovery brings back nothing of it, wherever the
      file is cut. */
  method SyncedCommitLost(crc: Checksum, last: U64, lastTxn: U64, store: Store, writes: seq<Write>)
    returns (manager: Manager)
    requires last + |writes| + 2 < U64_LIMIT && lastTxn + 1 < U64_LIMIT
    requires forall i :: 0 <= i < |writes| ==> |writes[i].data| == PAGE_SIZE
    modifies store
    ensures fresh(manager) && manager.Valid() && manager.history == [Txn(manager.lastTxnID, writes, Commits)]
            && manager.SyncedUpTo(1)
    ensures forall cut :: 0 <= cut <= |manager.log.file| ==> Scan(crc, manager.log.file[..cut]) == []
    ensures store.disk == old(store.disk)
  {
    hide Redo, CommittedIn, Scan, RunRecords, EncodeAll;
    NothingLogged(store.disk, 0);
    OneByteHidesAll(crc, [], 1);
    NoRecords(crc);
    assert ([0x43] + [])[..1] == [0x43];
    manager := Restart(crc, [0x43], last, lastTxn, SyncFull, store);
    var _ := manager.Begin();
    manager.Commit(writes);
    forall cut | 0 <= cut <= |manager.log.file| ensures Scan(crc, manager.log.file[..cut]) == [] {
      OneByteHidesAll(crc, manager.log.records, cut);
    }
  }

  // ---------- A torn record can be completed by the next one ----------

  /** A begin record cut behind 16 bytes and a begin record make up a record that nobody has written: Recover
      counts it and its LSN, and empties the log. */
  lemma {:induction false} Spliced(crc: Checksum, a: Record, b: Record, rest: Bytes)
    requires SmallBegin(a) && SmallBegin(b) && a.lsn < 0x100_0000 && crc([]) == 0
    ensures Scan(crc, Encode(crc, a)[..16]) == []
    ensures Decode(crc, Encode(crc, a)[..16] + Encode(crc, b) + rest)
            == Decoded(Record(TXN_BEGIN, 0x434F43, 0x4F00_0101_0000_0000, []), HEADER_SIZE)
  {
    BeginLayout(crc, a);
    BeginLayout(crc, b);
    LowByte(a.lsn);
    hide Encode, Val, Be;
    var h, k := Encode(crc, a), Encode(crc, b);
    assert h[15] == h[15..19][0];
    SplicedFields(h, k, rest);
    var x := h[..16] + k + rest;
    assert x[HEADER_SIZE..HEADER_SIZE] == [];
  }

  lemma {:induction false} LowByte(n: nat)
    requires n < 0x100_0000
    ensures Be(4, n)[0] == 0
  {
    assert Be(4, n)[0] == Be(3, n / 256)[0] == Be(2, n / 256 / 256)[0] == Be(1, n / 256 / 256 / 256)[0];
  }

  lemma {:induction false} SplicedFields(h: Bytes, k: Bytes, rest: Bytes)
    requires |h| == |k| == HEADER_SIZE && (exists lsn, txn :: LikeBegin(h, lsn, txn))
             && (exists lsn, txn :: LikeBegin(k, lsn, txn))
    requires h[15] == 0 && k[4] == 0 && k[5] == 1
    ensures var x := h[..16] + k + rest;
            && |x| >= HEADER_SIZE && Val(x[0..4]) == WAL_MAGIC && x[6] == TXN_BEGIN && Val(x[7..11]) == 0
                && Val(x[27..31]) == 0
            && Field64(x, 11) == 0x434F43 && Field64(x, 19) == 0x4F00_0101_0000_0000
  {
    var x := h[..16] + k + rest;
    Val4(x[0..4]);
    Val4(x[7..11]);
    Val4(x[27..31]);
    Val8(x[11..19]);
    Val8(x[19..27]);
    hide Val, Be;
  }

  lemma {:induction false} Val4(b: Bytes)
    requires |b| == 4
    ensures Val(b) == b[0] as int * 0x100_0000 + b[1] as int * 0x1_0000 + b[2] as int * 0x100 + b[3] as int
  {
    assert b[..3][..2] == b[..2] && b[..2][..1] == b[..1] && b[..1][..0] == [];
    assert Val(b[..1]) == b[0] as int && Val(b[..2]) == Val(b[..1]) * 256 + b[1] as int
           && Val(b[..3]) == Val(b[..2]) * 256 + b[2] as int;
  }

  lemma {:induction false} Val8(b: Bytes)
    requires |b| == 8
    ensures Val(b) == Val(b[..4]) * 0x1_0000_0000 + Val(b[4..])
    ensures Val(b[..4]) == b[0] as int * 0x100_0000 + b[1] as int * 0x1_0000 + b[2] as int * 0x100 + b[3] as int
    ensures Val(b[4..]) == b[4] as int * 0x100_0000 + b[5] as int * 0x1_0000 + b[6] as int * 0x100 + b[7] as int
  {
    Val4(b[..4]);
    Val4(b[4..]);
    assert b[..7][..6] == b[..6] && b[..6][..5] == b[..5] && b[..5][..4] == b[..4];
    assert Val(b[..5]) == Val(b[..4]) * 256 + b[4] as int && Val(b[..6]) == Val(b[..5]) * 256 + b[5] as int;
    assert Val(b[..7]) == Val(b[..6]) * 256 + b[6] as int;
  }
}
