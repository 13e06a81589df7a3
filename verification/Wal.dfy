/**
 WAL: Append, Flush, Sync and Truncate, and what a crash can do to the log file.

 Of the log file, a prefix at least as long as what had been synced survives a crash.  A file that begins with
 bytes in which no record was found is not emptied, and the log goes on behind them.
 */
module Wal {
  import opened ByteOrder
  import opened BigEndian
  import opened WalRecords

  ghost predicate IncreasingLsn(rs: seq<Record>, last: nat) {
    && (forall i, j :: 0 <= i < j < |rs| ==> rs[i].lsn < rs[j].lsn)
    && (forall i :: 0 <= i < |rs| ==> rs[i].lsn <= last)
  }

  class Log {
    const crc: Checksum
    var file: Bytes
    var lastLSN: nat
    var durableLSN: nat
    var offset: nat
    ghost var torn: Bytes           // what was in the file when it was opened and has not been truncated
    ghost var records: seq<Record>  // what has been appended behind it
    ghost var synced: nat           // how many bytes of the file a crash cannot take away

    ghost predicate Valid()
      reads this
    {
      && AllLoggable(records) && file == torn + EncodeAll(crc, records) && offset == |file|
      && IncreasingLsn(records, lastLSN) && durableLSN <= lastLSN && synced <= |file|
      && (forall i :: 0 <= i < |records| && records[i].lsn <= durableLSN ==> |torn| + EndOf(crc, records, i) <= synced)
    }

    /** OpenWAL on an empty file. */
    constructor (crc: Checksum, last: nat)
      ensures Valid() && this.crc == crc && torn == [] && records == [] && lastLSN == last
    {
      this.crc, file, lastLSN, durableLSN, offset := crc, [], last, last, 0;
      torn, records, synced := [], [], 0;
    }

    /** OpenWAL on the bytes that a crash has left. */
    constructor Open(crc: Checksum, bytes: Bytes, last: nat)
      ensures Valid() && this.crc == crc && file == torn == bytes && records == [] && lastLSN == last
              && synced == |bytes|
    {
      this.crc, file, lastLSN, durableLSN, offset := crc, bytes, last, last, |bytes|;
      torn, records, synced := bytes, [], |bytes|;
    }

    /** Append stamps the next LSN on the record and writes it behind the others. */
    method Append(kind: Byte, txn: U64, payload: Bytes) returns (lsn: U64)
      requires Valid() && lastLSN + 1 < U64_LIMIT && |payload| < U32_LIMIT
      modifies this
      ensures Valid() && lsn == lastLSN == old(lastLSN) + 1
      ensures records == old(records) + [Record(kind, lsn, txn, payload)] && old(file) <= file
      ensures synced == old(synced) && durableLSN == old(durableLSN) && torn == old(torn)
    {
      hide Encode;
      lastLSN := lastLSN + 1;
      lsn := lastLSN;
      var rec := Record(kind, lsn, txn, payload);
      EncodeAllConcat(crc, records, [rec]);
      assert EncodeAll(crc, [rec]) == Encode(crc, rec) by { assert [rec][1..] == []; }
      Associative(torn, EncodeAll(crc, records), Encode(crc, rec));
      file := file + Encode(crc, rec);
      offset := offset + |Encode(crc, rec)|;
      ghost var before := records;
      records := records + [rec];
      forall i | 0 <= i < |records| && records[i].lsn <= durableLSN ensures |torn| + EndOf(crc, records, i) <= synced {
        assert i < |before| && records[..i + 1] == before[..i + 1];
      }
    }

    /** Flush returns with every record up to the target on stable storage. */
    method Flush(target: nat)
      requires Valid()
      modifies this
      ensures Valid() && records == old(records) && torn == old(torn) && lastLSN == old(lastLSN)
              && synced >= old(synced) && file == old(file)
      ensures forall i :: 0 <= i < |records| && records[i].lsn <= target ==> |torn| + EndOf(crc, records, i) <= synced
    {
      if target <= durableLSN { return; }
      Sync();
    }

    method Sync()
      requires Valid()
      modifies this
      ensures Valid() && records == old(records) && torn == old(torn) && file == old(file)
      ensures synced == |file| && durableLSN == lastLSN == old(lastLSN)
    {
      hide EncodeAll, Encode;
      synced := |file|;
      durableLSN := lastLSN;
      forall i | 0 <= i < |records| ensures |torn| + EndOf(crc, records, i) <= |file| {
        EncodeAllConcat(crc, records[..i + 1], records[i + 1..]);
        assert records == records[..i + 1] + records[i + 1..];
      }
    }

    /** Empty the file, whatever it holds. */
    method Truncate()
      requires durableLSN <= lastLSN
      modifies this
      ensures Valid() && torn == [] && records == [] && file == [] && lastLSN == old(lastLSN)
    {
      file, offset := [], 0;
      torn, records, synced := [], [], 0;
    }

    /** Whatever prefix of the file survives, ReadAll finds a prefix of the appended records that includes every
        one known to be durable. */
    lemma {:induction false} CrashKeepsDurable(cut: nat)
      requires Valid() && torn == [] && synced <= cut <= |file|
      ensures Scan(crc, file[..cut]) == records[..Whole(crc, records, cut)]
      ensures forall i :: 0 <= i < |records| && records[i].lsn <= durableLSN ==> i < Whole(crc, records, cut)
    {
      hide EncodeAll, Encode, Scan, Whole;
      assert file == EncodeAll(crc, records);
      ScanOfCut(crc, records, cut);
      forall i | 0 <= i < |records| && records[i].lsn <= durableLSN ensures i < Whole(crc, records, cut) {
        WholeAtLeast(crc, records, cut, i + 1);
      }
    }
  }
}
