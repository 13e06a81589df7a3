/**
 Recover: which transactions a log brings back, and what the pages hold afterwards.

 The log is what serial transactions append: a begin record, at commit one full-page image per page
 written, then the commit record; or an abort record; or nothing more, if the process stopped.
 */
module Recovery {
  import opened ByteOrder
  import opened BigEndian
  import opened PageBytes
  import opened WalRecords
  import opened Wal

  type Disk = map<nat, Bytes>

  // ---------- Redo ----------

  /** The transactions with a commit record. */
  function CommittedIn(rs: seq<Record>): set<U64> {
    set r | r in rs && r.kind == TXN_COMMIT :: r.txn
  }

  predicate Redoable(r: Record, committed: set<U64>) {
    r.kind == PAGE_UPDATE && r.txn in committed && |r.payload| == 8 + PAGE_SIZE
  }

  function PageIdOf(r: Record): nat
    requires |r.payload| >= 8
  {
    Val(r.payload[..8])
  }

  function RedoOne(disk: Disk, r: Record, committed: set<U64>): Disk {
    if Redoable(r, committed) then disk[PageIdOf(r) := r.payload[8..]] else disk
  }

  /** Write the images of committed transactions, in log order. */
  function Redo(disk: Disk, rs: seq<Record>, committed: set<U64>): Disk {
    if rs == [] then disk else RedoOne(Redo(disk, rs[..|rs| - 1], committed), rs[|rs| - 1], committed)
  }

  function MaxLsn(rs: seq<Record>): nat {
    if rs == [] then 0 else Max(MaxLsn(rs[..|rs| - 1]), rs[|rs| - 1].lsn)
  }

  function Max(a: nat, b: nat): nat {
    if a < b then b else a
  }

  /** Pages beyond the end of the file extend it. */
  function NextPage(next: nat, rs: seq<Record>, committed: set<U64>): nat {
    if rs == [] then next
    else
      var n, r := NextPage(next, rs[..|rs| - 1], committed), rs[|rs| - 1];
      if Redoable(r, committed) && PageIdOf(r) >= n then PageIdOf(r) + 1 else n
  }

  class Store {
    var disk: Disk
    var nextPageId: nat
    var lastLSN: nat
    var lastCheckpointLSN: nat
  }

  /** Recover: scan for commits, redo, checkpoint, truncate the log.  A file in which no record is found is left
      as it is. */
  method Recover(log: Log, store: Store) returns (scanned: nat, committedCount: nat)
    requires log.durableLSN <= log.lastLSN && log.offset == |log.file|
    modifies log, store
    ensures var rs := Scan(log.crc, old(log.file));
            var committed := CommittedIn(rs);
            && scanned == |rs| && committedCount == |committed|
            && store.disk == Redo(old(store.disk), rs, committed)
            && store.nextPageId == NextPage(old(store.nextPageId), rs, committed)
            && (rs != [] ==> store.lastLSN == store.lastCheckpointLSN == MaxLsn(rs))
            && (rs == [] ==> unchanged(store))
            && log.file == log.torn == if rs == [] then old(log.file) else []
    ensures var rs := Scan(log.crc, old(log.file));
            && BeyondAll(old(store.nextPageId), store.nextPageId, rs) && (rs != [] ==> IsLastLsn(rs, store.lastLSN))
            && forall p :: Recovered(old(store.disk), store.disk, rs, p)
    ensures log.Valid() && log.records == [] && log.lastLSN == old(log.lastLSN)
  {
    hide Decode, Scan, CommittedIn, MaxLsn, Redo, NextPage, BeyondAll, IsLastLsn, Recovered;
    var records := ReadAll(log.crc, log.file);
    ghost var disk := store.disk;
    NextPageIs(store.nextPageId, records);
    MaxLsnIs(records);
    forall p ensures Recovered(disk, Redo(disk, records, CommittedIn(records)), records, p) {
      RedoMeans(disk, records, p);
    }
    scanned := |records|;
    if |records| == 0 {
      NothingLogged(store.disk, store.nextPageId);
      log.torn, log.records, log.synced := log.file, [], |log.file|;
      NoRecords(log.crc);
      return scanned, 0;
    }
    var committed, maxLSN := ScanCommits(records);
    committedCount := |committed|;
    RedoAll(store, records, committed);
    store.lastLSN, store.lastCheckpointLSN := maxLSN, maxLSN;
    log.Truncate();
  }

  /** Record i holds an image of page p: a page update with the id of the page and a whole page, of a transaction
      that has a commit record. */
  ghost predicate IsImage(rs: seq<Record>, i: nat, p: nat) {
    && i < |rs| && rs[i].kind == PAGE_UPDATE && |rs[i].payload| == 8 + PAGE_SIZE && Val(rs[i].payload[..8]) == p
    && exists c :: 0 <= c < |rs| && rs[c].kind == TXN_COMMIT && rs[c].txn == rs[i].txn
  }

  /** The page has what its last image says, or what it had if there is none. */
  ghost predicate Recovered(before: Disk, after: Disk, rs: seq<Record>, p: nat) {
    && (forall i: nat :: IsImage(rs, i, p) && (forall j: nat :: IsImage(rs, j, p) ==> j <= i) ==>
          p in after && |rs[i].payload| >= 8 && after[p] == rs[i].payload[8..])
    && ((forall i: nat :: !IsImage(rs, i, p)) ==> SamePage(before, after, p))
  }

  /** The next free page is never lowered, lies beyond every page with an image, and no farther than it must. */
  ghost predicate BeyondAll(before: nat, after: nat, rs: seq<Record>) {
    && before <= after && (forall i: nat, p: nat :: IsImage(rs, i, p) ==> p < after)
    && (after == before || exists i: nat, p: nat :: IsImage(rs, i, p) && after == p + 1)
  }

  ghost predicate IsLastLsn(rs: seq<Record>, lsn: nat) {
    (forall i :: 0 <= i < |rs| ==> rs[i].lsn <= lsn) && exists i :: 0 <= i < |rs| && rs[i].lsn == lsn
  }

  lemma {:induction false} ImageIff(rs: seq<Record>, i: nat, p: nat)
    ensures IsImage(rs, i, p) <==> i < |rs| && Redoable(rs[i], CommittedIn(rs)) && PageIdOf(rs[i]) == p
  {
    hide Val;
    if i < |rs| && rs[i].txn in CommittedIn(rs) {
      var r :| r in rs && r.kind == TXN_COMMIT && r.txn == rs[i].txn;
      var c :| 0 <= c < |rs| && rs[c] == r;
    }
  }

  lemma {:induction false} NextPageOf(next: nat, rs: seq<Record>, committed: set<U64>)
    ensures var n := NextPage(next, rs, committed);
            && next <= n && (forall i :: 0 <= i < |rs| && Redoable(rs[i], committed) ==> PageIdOf(rs[i]) < n)
            && (n == next || exists i :: 0 <= i < |rs| && Redoable(rs[i], committed) && PageIdOf(rs[i]) == n - 1)
  {
    hide Val;
    if rs != [] {
      var k := |rs| - 1;
      NextPageOf(next, rs[..k], committed);
      forall i | 0 <= i < k ensures rs[..k][i] == rs[i] {}
    }
  }

  lemma {:induction false} NextPageIs(next: nat, rs: seq<Record>)
    ensures BeyondAll(next, NextPage(next, rs, CommittedIn(rs)), rs)
  {
    hide CommittedIn, IsImage, NextPage, PageIdOf;
    NextPageOf(next, rs, CommittedIn(rs));
    forall i: nat, p: nat | IsImage(rs, i, p) ensures p < NextPage(next, rs, CommittedIn(rs)) { ImageIff(rs, i, p); }
    forall i | 0 <= i < |rs| && Redoable(rs[i], CommittedIn(rs)) ensures IsImage(rs, i, PageIdOf(rs[i])) {
      ImageIff(rs, i, PageIdOf(rs[i]));
    }
  }

  lemma {:induction false} MaxLsnIs(rs: seq<Record>)
    ensures rs != [] ==> IsLastLsn(rs, MaxLsn(rs))
  {
    if |rs| == 1 {
      assert MaxLsn(rs[..0]) == 0;
    } else if rs != [] {
      var k := |rs| - 1;
      MaxLsnIs(rs[..k]);
      forall i | 0 <= i < k ensures rs[..k][i] == rs[i] {}
    }
  }

  /** Where the image that redo leaves comes from. */
  lemma {:induction false} LastImageAt(rs: seq<Record>, committed: set<U64>, p: nat) returns (i: nat)
    ensures var im := LastImage(rs, committed, p);
            && (im.Untouched? ==> forall j :: 0 <= j < |rs| ==> !(Redoable(rs[j], committed) && PageIdOf(rs[j]) == p))
            && (im.Image? ==> i < |rs| && Redoable(rs[i], committed) && PageIdOf(rs[i]) == p
                                && im.data == rs[i].payload[8..]
                              && forall j :: i < j < |rs| ==> !(Redoable(rs[j], committed) && PageIdOf(rs[j]) == p))
  {
    hide Val;
    i := 0;
    if rs != [] {
      var k := |rs| - 1;
      if Redoable(rs[k], committed) && PageIdOf(rs[k]) == p {
        i := k;
      } else {
        i := LastImageAt(rs[..k], committed, p);
        forall j | 0 <= j < k ensures rs[..k][j] == rs[j] {}
      }
    }
  }

  lemma {:induction false} RedoMeans(disk: Disk, rs: seq<Record>, p: nat)
    ensures Recovered(disk, Redo(disk, rs, CommittedIn(rs)), rs, p)
  {
    hide CommittedIn, IsImage, Redo, LastImage, PageIdOf;
    var committed := CommittedIn(rs);
    RedoAt(disk, rs, committed, p);
    var i := LastImageAt(rs, committed, p);
    forall j: nat ensures IsImage(rs, j, p) <==> j < |rs| && Redoable(rs[j], committed) && PageIdOf(rs[j]) == p {
      ImageIff(rs, j, p);
    }
  }

  lemma {:induction false} NoRecords(crc: Checksum)
    ensures EncodeAll(crc, []) == []
  {
  }

  lemma {:induction false} NothingLogged(disk: Disk, next: nat)
    ensures CommittedIn([]) == {} && Redo(disk, [], {}) == disk && NextPage(next, [], {}) == next
  {
  }

  /** The next session: open the bytes a crash has left, recover, and go on.  The log is empty, unless the file
      holds bytes in which no record is found: these stay in front of it. */
  method Restart(crc: Checksum, bytes: Bytes, last: U64, lastTxn: U64, mode: SyncMode, store: Store)
    returns (manager: Manager)
    modifies store
    ensures fresh(manager) && fresh(manager.log) && manager.Valid() && manager.history == [] && !manager.open
    ensures manager.lastTxnID == lastTxn && manager.log.crc == crc && manager.syncMode == mode
            && manager.log.lastLSN == last
    ensures manager.log.torn == if Scan(crc, bytes) == [] then bytes else []
    ensures store.disk == Redo(old(store.disk), Scan(crc, bytes), CommittedIn(Scan(crc, bytes)))
  {
    hide Redo, CommittedIn, MaxLsn, NextPage, Scan, Log.Valid;
    var log := new Log.Open(crc, bytes, last);
    OpenedWell(log);
    var _, _ := Recover(log, store);
    manager := new Manager(log, mode, lastTxn);
  }

  lemma {:induction false} OpenedWell(log: Log)
    requires log.Valid()
    ensures log.durableLSN <= log.lastLSN && log.offset == |log.file|
  {
  }

  /** First pass: the transactions with a commit record, and the highest LSN. */
  method ScanCommits(records: seq<Record>) returns (committed: set<U64>, maxLSN: nat)
    ensures committed == CommittedIn(records) && maxLSN == MaxLsn(records)
  {
    committed, maxLSN := {}, 0;
    var i := 0;
    while i < |records|
      invariant 0 <= i <= |records| && committed == CommittedIn(records[..i]) && maxLSN == MaxLsn(records[..i])
    {
      var rec := records[i];
      assert records[..i + 1] == records[..i] + [rec];
      if rec.lsn > maxLSN { maxLSN := rec.lsn; }
      if rec.kind == TXN_COMMIT { committed := committed + {rec.txn}; }
      i := i + 1;
    }
    assert records[..i] == records;
  }

  /** Second pass: write the images of committed transactions, extending the file where they lie beyond it. */
  method RedoAll(store: Store, records: seq<Record>, committed: set<U64>)
    modifies store`disk, store`nextPageId
    ensures store.disk == Redo(old(store.disk), records, committed)
    ensures store.nextPageId == NextPage(old(store.nextPageId), records, committed)
  {
    hide Val;
    var i := 0;
    while i < |records|
      invariant 0 <= i <= |records| && store.disk == Redo(old(store.disk), records[..i], committed)
      invariant store.nextPageId == NextPage(old(store.nextPageId), records[..i], committed)
    {
      var rec := records[i];
      assert records[..i + 1][..i] == records[..i];
      if rec.kind == PAGE_UPDATE && rec.txn in committed && |rec.payload| == 8 + PAGE_SIZE {
        var pageId := Val(rec.payload[..8]);
        store.disk := store.disk[pageId := rec.payload[8..]];
        if pageId >= store.nextPageId {
          store.nextPageId := pageId + 1;
        }
      }
      i := i + 1;
    }
    assert records[..i] == records;
  }

  // ---------- What redo leaves in each page ----------

  datatype Image = Untouched | Image(data: Bytes)

  /** The last image of a page that a committed transaction logged. */
  function LastImage(rs: seq<Record>, committed: set<U64>, p: nat): Image {
    if rs == [] then Untouched
    else
      var r := rs[|rs| - 1];
      if Redoable(r, committed) && PageIdOf(r) == p then Image(r.payload[8..])
          else LastImage(rs[..|rs| - 1], committed, p)
  }

  /** A page holds its last committed image, or what it held before if there is none. */
  lemma {:induction false} RedoAt(disk: Disk, rs: seq<Record>, committed: set<U64>, p: nat)
    ensures var d, im := Redo(disk, rs, committed), LastImage(rs, committed, p);
            && (p in d <==> p in disk || im.Image?)
            && (im.Image? ==> d[p] == im.data)
            && (im.Untouched? && p in disk ==> d[p] == disk[p])
  {
    if rs != [] { RedoAt(disk, rs[..|rs| - 1], committed, p); }
  }

  /** Two disks that differ only on pages the log rewrites are the same after redo.  So recovery can be
      interrupted anywhere and started again, and recovering twice is recovering once. */
  lemma {:induction false} RedoForgets(a: Disk, b: Disk, rs: seq<Record>, committed: set<U64>)
    requires forall p :: LastImage(rs, committed, p).Untouched? ==> (p in a <==> p in b) && (p in a ==> a[p] == b[p])
    ensures Redo(a, rs, committed) == Redo(b, rs, committed)
  {
    hide Redo, LastImage;
    var x, y := Redo(a, rs, committed), Redo(b, rs, committed);
    forall p: nat ensures (p in x <==> p in y) && (p in x ==> x[p] == y[p]) {
      RedoAt(a, rs, committed, p);
      RedoAt(b, rs, committed, p);
    }
  }

  ghost predicate SamePage(a: Disk, b: Disk, p: nat) {
    (p in a <==> p in b) && (p in a ==> a[p] == b[p])
  }

  /** Two disks are the same after redo if and only if they agree on the pages the log does not rewrite. */
  lemma {:induction false} RedoSameIff(a: Disk, b: Disk, rs: seq<Record>, committed: set<U64>)
    ensures Redo(a, rs, committed) == Redo(b, rs, committed)
            <==> forall p :: LastImage(rs, committed, p).Untouched? ==> SamePage(a, b, p)
  {
    hide Redo, LastImage;
    if Redo(a, rs, committed) == Redo(b, rs, committed) {
      forall p | LastImage(rs, committed, p).Untouched? ensures SamePage(a, b, p) {
        RedoAt(a, rs, committed, p);
        RedoAt(b, rs, committed, p);
      }
    }
    if forall p :: LastImage(rs, committed, p).Untouched? ==> SamePage(a, b, p) {
      RedoForgets(a, b, rs, committed);
    }
  }

  lemma {:induction false} RedoTwice(disk: Disk, rs: seq<Record>, committed: set<U64>)
    ensures Redo(Redo(disk, rs, committed), rs, committed) == Redo(disk, rs, committed)
  {
    hide Redo, LastImage;
    var d := Redo(disk, rs, committed);
    forall p | LastImage(rs, committed, p).Untouched? ensures (p in d <==> p in disk) && (p in d ==> d[p] == disk[p]) {
      RedoAt(disk, rs, committed, p);
    }
    RedoForgets(d, disk, rs, committed);
  }

  // ---------- Transactions and their records ----------

  datatype Outcome = Commits | Aborts | Stops
  datatype Write = Write(page: U64, data: Bytes)
  datatype Txn = Txn(id: U64, writes: seq<Write>, outcome: Outcome)

  predicate TxnOk(t: Txn) {
    forall i :: 0 <= i < |t.writes| ==> |t.writes[i].data| == PAGE_SIZE
  }

  /** The image record Commit appends for one page. */
  function UpdateRecord(id: U64, w: Write): (r: Record)
    ensures r.kind == PAGE_UPDATE && r.txn == id && |r.payload| == 8 + |w.data|
  {
    Record(PAGE_UPDATE, 0, id, Be(8, w.page) + w.data)
  }

  function UpdateRecords(id: U64, ws: seq<Write>): (rs: seq<Record>)
    ensures |rs| == |ws| && forall i :: 0 <= i < |ws| ==> rs[i] == UpdateRecord(id, ws[i])
  {
    if ws == [] then [] else UpdateRecords(id, ws[..|ws| - 1]) + [UpdateRecord(id, ws[|ws| - 1])]
  }

  /** All records of one transaction; a commit record can only be the last. */
  function TxnRecords(t: Txn): seq<Record> {
    [Record(TXN_BEGIN, 0, t.id, [])] + UpdateRecords(t.id, t.writes) +
    match t.outcome
    case Commits => [Record(TXN_COMMIT, 0, t.id, [])]
    case Aborts => [Record(TXN_ABORT, 0, t.id, [])]
    case Stops => []
  }

  function RunRecords(ts: seq<Txn>): seq<Record> {
    if ts == [] then [] else RunRecords(ts[..|ts| - 1]) + TxnRecords(ts[|ts| - 1])
  }

  function ApplyWrites(disk: Disk, ws: seq<Write>): Disk {
    if ws == [] then disk else ApplyWrites(disk, ws[..|ws| - 1])[ws[|ws| - 1].page := ws[|ws| - 1].data]
  }

  /** The state after a run: committed transactions write all their pages, the others none. */
  function Apply(disk: Disk, ts: seq<Txn>): Disk {
    if ts == [] then disk
    else
      var d, t := Apply(disk, ts[..|ts| - 1]), ts[|ts| - 1];
      if t.outcome.Commits? then ApplyWrites(d, t.writes) else d
  }

  ghost predicate DistinctIds(ts: seq<Txn>) {
    forall i, j :: 0 <= i < j < |ts| ==> ts[i].id != ts[j].id
  }

  ghost predicate RunOk(ts: seq<Txn>) {
    DistinctIds(ts) && forall i :: 0 <= i < |ts| ==> TxnOk(ts[i])
  }

  // ---------- Redo of a run ----------

  lemma {:induction false} RedoConcat(disk: Disk, a: seq<Record>, b: seq<Record>, committed: set<U64>)
    ensures Redo(disk, a + b, committed) == Redo(Redo(disk, a, committed), b, committed)
  {
    if b == [] {
      assert a + b == a;
    } else {
      RedoConcat(disk, a, b[..|b| - 1], committed);
      assert (a + b)[..|a + b| - 1] == a + b[..|b| - 1];
    }
  }

  lemma {:induction false} RedoNothing(disk: Disk, rs: seq<Record>, committed: set<U64>)
    requires forall i :: 0 <= i < |rs| ==> rs[i].kind != PAGE_UPDATE || rs[i].txn !in committed
    ensures Redo(disk, rs, committed) == disk
  {
    if rs != [] { RedoNothing(disk, rs[..|rs| - 1], committed); }
  }

  lemma {:induction false} RedoUpdates(disk: Disk, id: U64, ws: seq<Write>, committed: set<U64>)
    requires id in committed && forall i :: 0 <= i < |ws| ==> |ws[i].data| == PAGE_SIZE
    ensures Redo(disk, UpdateRecords(id, ws), committed) == ApplyWrites(disk, ws)
  {
    if ws != [] {
      var n := |ws| - 1;
      RedoUpdates(disk, id, ws[..n], committed);
      var r := UpdateRecord(id, ws[n]);
      assert UpdateRecords(id, ws)[..n] == UpdateRecords(id, ws[..n]);
      assert r.payload[..8] == Be(8, ws[n].page) && r.payload[8..] == ws[n].data;
      Widths();
      ValOfBe(8, ws[n].page);
    }
  }

  /** Every record of a transaction carries its id, and only the last can commit. */
  lemma {:induction false} TxnRecordsShape(t: Txn)
    ensures forall i :: 0 <= i < |TxnRecords(t)| ==> TxnRecords(t)[i].txn == t.id
    ensures forall i :: 0 <= i < |TxnRecords(t)| - 1 ==> TxnRecords(t)[i].kind != TXN_COMMIT
    ensures |TxnRecords(t)| > 0
    ensures TxnRecords(t)[|TxnRecords(t)| - 1].kind == TXN_COMMIT <==> t.outcome.Commits?
  {
    hide UpdateRecords, UpdateRecord;
  }

  lemma {:induction false} RedoTxn(disk: Disk, t: Txn, committed: set<U64>)
    requires TxnOk(t)
    ensures Redo(disk, TxnRecords(t), committed) == if t.id in committed then ApplyWrites(disk, t.writes) else disk
  {
    TxnRecordsShape(t);
    if t.id in committed {
      var begin := [Record(TXN_BEGIN, 0, t.id, [])];
      var ups := UpdateRecords(t.id, t.writes);
      var end := TxnRecords(t)[|begin + ups|..];
      assert TxnRecords(t) == begin + ups + end;
      RedoConcat(disk, begin + ups, end, committed);
      RedoConcat(disk, begin, ups, committed);
      RedoNothing(disk, begin, committed);
      RedoUpdates(disk, t.id, t.writes, committed);
      RedoNothing(ApplyWrites(disk, t.writes), end, committed);
    } else {
      RedoNothing(disk, TxnRecords(t), committed);
    }
  }

  /** Redo of a run, when the committed set tells its transactions apart rightly. */
  lemma {:induction false} RedoRun(disk: Disk, ts: seq<Txn>, committed: set<U64>)
    requires forall i :: 0 <= i < |ts| ==> TxnOk(ts[i]) && (ts[i].id in committed <==> ts[i].outcome.Commits?)
    ensures Redo(disk, RunRecords(ts), committed) == Apply(disk, ts)
  {
    if ts != [] {
      var n := |ts| - 1;
      RedoRun(disk, ts[..n], committed);
      hide TxnRecords, Redo, ApplyWrites, TxnOk;
      RedoConcat(disk, RunRecords(ts[..n]), TxnRecords(ts[n]), committed);
      RedoTxn(Apply(disk, ts[..n]), ts[n], committed);
    } else {
      assert Redo(disk, RunRecords(ts), committed) == disk;
    }
  }

  // ---------- A run cut anywhere ----------

  /** How many transactions have all their records among the first k. */
  function Finished(ts: seq<Txn>, k: nat): (m: nat)
    ensures m <= |ts|
  {
    if ts == [] then 0
    else if k >= |RunRecords(ts)| then |ts|
    else Finished(ts[..|ts| - 1], k)
  }

  /** A prefix of the records is some whole transactions and a proper beginning of the next. */
  lemma {:induction false} PrefixOfRun(ts: seq<Txn>, k: nat) returns (part: seq<Record>)
    requires k <= |RunRecords(ts)|
    ensures var m := Finished(ts, k);
            && RunRecords(ts)[..k] == RunRecords(ts[..m]) + part
            && (m == |ts| ==> part == [])
            && (m < |ts| ==> |part| < |TxnRecords(ts[m])| && part == TxnRecords(ts[m])[..|part|])
  {
    hide TxnRecords;
    part := [];
    if ts != [] {
      var n := |ts| - 1;
      var init, last := RunRecords(ts[..n]), TxnRecords(ts[n]);
      if k >= |RunRecords(ts)| {
        assert ts[..|ts|] == ts;
      } else if k <= |init| {
        part := PrefixOfRun(ts[..n], k);
        var m := Finished(ts[..n], k);
        assert (init + last)[..k] == init[..k];
        assert ts[..n][..m] == ts[..m];
        if m == n {
          assert part == last[..0];
        }
      } else {
        part := last[..k - |init|];
        assert (init + last)[..k] == init + part;
        FinishedAll(ts[..n], k);
        assert ts[..n][..n] == ts[..n];
      }
    }
  }

  lemma {:induction false} FinishedAll(ts: seq<Txn>, k: nat)
    requires k >= |RunRecords(ts)|
    ensures Finished(ts, k) == |ts|
  {
  }

  lemma {:induction false} RunCommitted(ts: seq<Txn>)
    ensures CommittedIn(RunRecords(ts)) == set i | 0 <= i < |ts| && ts[i].outcome.Commits? :: ts[i].id
  {
    if ts != [] {
      var n := |ts| - 1;
      RunCommitted(ts[..n]);
      CommittedConcat(RunRecords(ts[..n]), TxnRecords(ts[n]));
      TxnCommitted(ts[n]);
      hide TxnRecords, CommittedIn, RunRecords;
      var a := set i | 0 <= i < n && ts[..n][i].outcome.Commits? :: ts[..n][i].id;
      var b := set i | 0 <= i < |ts| && ts[i].outcome.Commits? :: ts[i].id;
      assert b == a + if ts[n].outcome.Commits? then {ts[n].id} else {};
    }
  }

  lemma {:induction false} CommittedConcat(a: seq<Record>, b: seq<Record>)
    ensures CommittedIn(a + b) == CommittedIn(a) + CommittedIn(b)
  {
  }

  lemma {:induction false} TxnCommitted(t: Txn)
    ensures CommittedIn(TxnRecords(t)) == if t.outcome.Commits? then {t.id} else {}
  {
    TxnRecordsShape(t);
    hide TxnRecords;
    var rs := TxnRecords(t);
    if t.outcome.Commits? { assert rs[|rs| - 1] in rs; }
  }

  /** Redoing any prefix of a run's records gives the state after its finished transactions: each is there
      wholly or not at all. */
  lemma {:induction false} RedoPrefix(disk: Disk, ts: seq<Txn>, k: nat)
    requires RunOk(ts) && k <= |RunRecords(ts)|
    ensures var rs := RunRecords(ts)[..k];
            Redo(disk, rs, CommittedIn(rs)) == Apply(disk, ts[..Finished(ts, k)])
  {
    hide Redo, RunRecords, TxnRecords, Finished, CommittedIn, Apply, DistinctIds;
    var m := Finished(ts, k);
    var part := PrefixOfRun(ts, k);
    var committed := CommittedIn(RunRecords(ts)[..k]);
    PrefixCommitted(ts, m, part);
    RedoRun(disk, ts[..m], committed);
    RedoConcat(disk, RunRecords(ts[..m]), part, committed);
    if m < |ts| { TxnRecordsShape(ts[m]); }
    RedoNothing(Apply(disk, ts[..m]), part, committed);
  }

  lemma {:induction false} PrefixCommitted(ts: seq<Txn>, m: nat, part: seq<Record>)
    requires DistinctIds(ts) && m <= |ts| && (m == |ts| ==> part == [])
    requires m < |ts| ==> |part| < |TxnRecords(ts[m])| && part == TxnRecords(ts[m])[..|part|]
    ensures var committed := CommittedIn(RunRecords(ts[..m]) + part);
            && (forall i :: 0 <= i < m ==> (ts[..m][i].id in committed <==> ts[..m][i].outcome.Commits?))
            && (m < |ts| ==> ts[m].id !in committed)
  {
    hide RunRecords, TxnRecords;
    CommittedConcat(RunRecords(ts[..m]), part);
    RunCommitted(ts[..m]);
    assert CommittedIn(part) == {} by {
      if m < |ts| { NoCommit(ts[m], part); }
    }
    hide CommittedIn;
  }

  lemma {:induction false} NoCommit(t: Txn, part: seq<Record>)
    requires |part| < |TxnRecords(t)| && part == TxnRecords(t)[..|part|]
    ensures CommittedIn(part) == {}
  {
    TxnRecordsShape(t);
    hide TxnRecords;
    forall i | 0 <= i < |part| ensures part[i].kind != TXN_COMMIT {
      assert part[i] == TxnRecords(t)[i];
    }
  }

  // ---------- LSNs do not matter to redo ----------

  predicate SameButLsn(a: seq<Record>, b: seq<Record>) {
    |a| == |b| && forall i :: 0 <= i < |a| ==> a[i] == b[i].(lsn := 0)
  }

  lemma {:induction false} LsnIrrelevant(disk: Disk, a: seq<Record>, b: seq<Record>, committed: set<U64>)
    requires SameButLsn(a, b)
    ensures Redo(disk, a, committed) == Redo(disk, b, committed)
  {
    if a != [] {
      var n := |a| - 1;
      LsnIrrelevant(disk, a[..n], b[..n], committed);
      assert a[n] == b[n].(lsn := 0);
    }
  }

  lemma {:induction false} LsnIrrelevantCommits(a: seq<Record>, b: seq<Record>)
    requires SameButLsn(a, b)
    ensures CommittedIn(a) == CommittedIn(b)
  {
    forall x | x in CommittedIn(a) ensures x in CommittedIn(b) {
      var i :| 0 <= i < |a| && a[i].kind == TXN_COMMIT && a[i].txn == x;
      assert b[i] in b && b[i].kind == TXN_COMMIT;
    }
    forall x | x in CommittedIn(b) ensures x in CommittedIn(a) {
      var i :| 0 <= i < |b| && b[i].kind == TXN_COMMIT && b[i].txn == x;
      assert a[i] in a && a[i].kind == TXN_COMMIT;
    }
  }

  // ---------- The transaction manager ----------

  datatype SyncMode = SyncFull | SyncNormal | SyncOff

  /** Serial writers over one log. */
  class Manager {
    const log: Log
    const syncMode: SyncMode
    var lastTxnID: U64
    var open: bool              // the writer lock is held
    ghost var history: seq<Txn> // the open transaction, if any, is the last, with outcome Stops

    ghost predicate Valid()
      reads this, log
    {
      && log.Valid() && RunOk(history) && SameButLsn(RunRecords(history), log.records)
      && (forall i :: 0 <= i < |history| ==> history[i].id <= lastTxnID)
      && (open ==> |history| > 0 && history[|history| - 1] == Txn(history[|history| - 1].id, [], Stops)
                     && history[|history| - 1].id == lastTxnID)
    }

    constructor (log: Log, mode: SyncMode, last: U64)
      requires log.Valid() && log.records == []
      ensures Valid() && this.log == log && syncMode == mode && history == [] && !open && lastTxnID == last
    {
      this.log, syncMode, lastTxnID, open, history := log, mode, last, false, [];
    }

    method Begin() returns (id: U64)
      requires Valid() && !open && lastTxnID + 1 < U64_LIMIT && log.lastLSN + 1 < U64_LIMIT
      modifies this, log
      ensures Valid() && open && id == lastTxnID == old(lastTxnID) + 1
      ensures history == old(history) + [Txn(id, [], Stops)] && log.synced == old(log.synced)
              && log.torn == old(log.torn)
      ensures log.lastLSN == old(log.lastLSN) + 1
    {
      hide RunRecords, EncodeAll;
      lastTxnID := lastTxnID + 1;
      id := lastTxnID;
      var _ := log.Append(TXN_BEGIN, id, []);
      ExtendRun(history, Txn(id, [], Stops));
      history := history + [Txn(id, [], Stops)];
      open := true;
    }

    /** Commit logs every page image, then the commit record, then syncs as the mode says. */
    method Commit(writes: seq<Write>)
      requires Valid() && open && log.lastLSN + |writes| + 1 < U64_LIMIT
      requires forall i :: 0 <= i < |writes| ==> |writes[i].data| == PAGE_SIZE
      modifies this, log
      ensures Valid() && !open && lastTxnID == old(lastTxnID) && log.torn == old(log.torn)
      ensures history == old(history[..|history| - 1]) + [Txn(lastTxnID, writes, Commits)]
      ensures syncMode != SyncOff ==> SyncedUpTo(|history|)
      ensures old(log.file) <= log.file && forall n :: 0 <= n < |history| && old(SyncedUpTo(n))
                                             ==> LiesBefore(n, old(log.synced))
    {
      hide RunRecords, EncodeAll, Encode, UpdateRecords, Log.Valid, IncreasingLsn;
      ghost var before, n := log.records, |history| - 1;
      LogImages(writes);
      ghost var rs := log.records;
      var lsn := log.Append(TXN_COMMIT, lastTxnID, []);
      SyncCommit(lsn);
      open := false;
      assert log.records[|before|..] == rs[|before|..] + [log.records[|rs|]] && log.records[..|before|] == before;
      ghost var t := Txn(lastTxnID, writes, Commits);
      assert TxnRecords(t)[1..] == UpdateRecords(lastTxnID, writes) + [Record(TXN_COMMIT, 0, lastTxnID, [])];
      FinishRun(history, t, before, log.records);
      ghost var h := history;
      history := history[..n] + [t];
      assert log.records[..|log.records|] == log.records && history[..|history|] == history;
      forall x | 0 <= x < |history| && old(SyncedUpTo(x)) ensures LiesBefore(x, old(log.synced)) {
        assert history[..x] == h[..x] && log.records[..|RunRecords(h[..x])|] == before[..|RunRecords(h[..x])|];
      }
    }

    method SyncCommit(lsn: nat)
      requires log.Valid() && log.records != [] && lsn == log.lastLSN == log.records[|log.records| - 1].lsn
      modifies log
      ensures log.Valid() && log.records == old(log.records) && log.file == old(log.file) && log.torn == old(log.torn)
      ensures syncMode != SyncOff ==> |log.torn| + |EncodeAll(log.crc, log.records)| <= log.synced
    {
      hide EncodeAll, Encode;
      if syncMode == SyncFull {
        log.Flush(lsn);
        assert |log.torn| + EndOf(log.crc, log.records, |log.records| - 1) <= log.synced;
        assert log.records[..|log.records|] == log.records;
      } else if syncMode == SyncNormal {
        log.Sync();
      }
    }

    method LogImages(writes: seq<Write>)
      requires log.Valid() && log.lastLSN + |writes| < U64_LIMIT
      requires forall i :: 0 <= i < |writes| ==> |writes[i].data| == PAGE_SIZE
      modifies log
      ensures log.Valid() && log.lastLSN == old(log.lastLSN) + |writes| && log.torn == old(log.torn)
      ensures |log.records| >= old(|log.records|) && log.records[..old(|log.records|)] == old(log.records)
              && old(log.file) <= log.file
      ensures SameButLsn(UpdateRecords(lastTxnID, writes), log.records[old(|log.records|)..])
    {
      hide EncodeAll, Encode, Be, Log.Valid, SameButLsn, UpdateRecords;
      ghost var before := log.records;
      NoImages(lastTxnID, writes, before);
      var i := 0;
      while i < |writes|
        invariant 0 <= i <= |writes| && log.Valid() && log.lastLSN == old(log.lastLSN) + i && log.torn == old(log.torn)
        invariant |log.records| == |before| + i && log.records[..|before|] == before && old(log.file) <= log.file
        invariant SameButLsn(UpdateRecords(lastTxnID, writes[..i]), log.records[|before|..])
      {
        ghost var rs := log.records;
        var lsn := log.Append(PAGE_UPDATE, lastTxnID, Be(8, writes[i].page) + writes[i].data);
        OneImage(lastTxnID, writes, i, before, rs, Record(PAGE_UPDATE, lsn, lastTxnID,
            Be(8, writes[i].page) + writes[i].data));
        i := i + 1;
      }
      assert writes[..i] == writes;
    }

    method Rollback()
      requires Valid() && open && log.lastLSN + 1 < U64_LIMIT
      modifies this, log
      ensures Valid() && !open && lastTxnID == old(lastTxnID) && log.torn == old(log.torn)
      ensures history == old(history[..|history| - 1]) + [Txn(lastTxnID, [], Aborts)]
    {
      hide RunRecords, EncodeAll;
      ghost var before, n := log.records, |history| - 1;
      var _ := log.Append(TXN_ABORT, lastTxnID, []);
      open := false;
      ghost var t := Txn(lastTxnID, [], Aborts);
      FinishRun(history, t, before, log.records);
      history := history[..n] + [t];
    }

    /** After a crash that leaves any part of the log, Recover applies exactly a prefix of the history, each
        transaction whole or not at all; and the prefix has every transaction whose records lie before the cut,
        so with what was synced every synced transaction.  The appends of Commit only lengthen the file, so a
        crash between them leaves a part of the file Commit would have left. */
    lemma {:induction false} CrashRecovery(disk: Disk, cut: nat)
      requires Valid() && log.torn == [] && cut <= |log.file|
      ensures var rs := Scan(log.crc, log.file[..cut]);
              var m := Finished(history, |rs|);
              && Redo(disk, rs, CommittedIn(rs)) == Apply(disk, history[..m])
              && (forall n :: 0 <= n <= |history| && LiesBefore(n, cut) ==> n <= m)
              && (log.synced <= cut ==> forall n :: 0 <= n <= |history| && SyncedUpTo(n) ==> n <= m)
    {
      hide Redo, Apply, RunRecords, Scan, EncodeAll, CommittedIn;
      assert log.file == EncodeAll(log.crc, log.records);
      ScanOfCut(log.crc, log.records, cut);
      var k := Whole(log.crc, log.records, cut);
      var all := RunRecords(history);
      LsnIrrelevantCommits(all[..k], log.records[..k]);
      LsnIrrelevant(disk, all[..k], log.records[..k], CommittedIn(all[..k]));
      RedoPrefix(disk, history, k);
      forall n | 0 <= n <= |history| && LiesBefore(n, cut) ensures n <= Finished(history, k) {
        WholeAtLeast(log.crc, log.records, cut, |RunRecords(history[..n])|);
        FinishedAtLeast(history, n, k);
      }
      assert forall n :: 0 <= n <= |history| && SyncedUpTo(n) && log.synced <= cut ==> LiesBefore(n, cut);
    }

    /** From the disk at the start of the log to the state after a prefix of the history: recovery reaches it
        from the disk the crash has left if and only if that disk differs from the first only on pages of which
        a committed image survives.  A page of an open writer that was flushed breaks this. */
    lemma {:induction false} CrashFromStart(start: Disk, crashed: Disk, cut: nat)
      requires Valid() && log.torn == [] && cut <= |log.file|
      ensures var rs := Scan(log.crc, log.file[..cut]);
              var committed := CommittedIn(rs);
              Redo(crashed, rs, committed) == Apply(start, history[..Finished(history, |rs|)]) <==>
              forall p :: LastImage(rs, committed, p).Untouched? ==> SamePage(crashed, start, p)
    {
      hide Redo, Apply, Scan, CommittedIn, LastImage, SamePage;
      CrashRecovery(start, cut);
      var rs := Scan(log.crc, log.file[..cut]);
      RedoSameIff(crashed, start, rs, CommittedIn(rs));
    }

    /** The records of the first n transactions of the history lie before the cut. */
    ghost predicate LiesBefore(n: nat, cut: nat)
      requires n <= |history|
      reads this, log
    {
      && |RunRecords(history[..n])| <= |log.records|
      && |log.torn| + |EncodeAll(log.crc, log.records[..|RunRecords(history[..n])|])| <= cut
    }

    /** The first n transactions of the history lie in the synced part of the log. */
    ghost predicate SyncedUpTo(n: nat)
      requires n <= |history|
      reads this, log
    {
      LiesBefore(n, log.synced)
    }
  }

  lemma {:induction false} NoImages(id: U64, writes: seq<Write>, before: seq<Record>)
    ensures SameButLsn(UpdateRecords(id, writes[..0]), before[|before|..]) && before[..|before|] == before
  {
  }

  /** One more page image at the end of the log. */
  lemma {:induction false} OneImage(id: U64, writes: seq<Write>, i: nat, before: seq<Record>, rs: seq<Record>,
                                    r: Record)
    requires i < |writes| && |before| <= |rs| && rs[..|before|] == before
             && SameButLsn(UpdateRecords(id, writes[..i]), rs[|before|..])
    requires r.(lsn := 0) == UpdateRecord(id, writes[i])
    ensures (rs + [r])[..|before|] == before && SameButLsn(UpdateRecords(id, writes[..i + 1]), (rs + [r])[|before|..])
  {
    hide UpdateRecord;
    assert (rs + [r])[|before|..] == rs[|before|..] + [r];
    assert writes[..i + 1][..i] == writes[..i];
  }

  lemma {:induction false} ExtendRun(ts: seq<Txn>, t: Txn)
    ensures RunRecords(ts + [t]) == RunRecords(ts) + TxnRecords(t)
    ensures t.outcome.Stops? && t.writes == [] ==> TxnRecords(t) == [Record(TXN_BEGIN, 0, t.id, [])]
  {
    assert (ts + [t])[..|ts|] == ts;
  }

  /** The records that close the last transaction of a run. */
  lemma {:induction false} FinishRun(ts: seq<Txn>, t: Txn, before: seq<Record>, after: seq<Record>)
    requires ts != [] && ts[|ts| - 1] == Txn(t.id, [], Stops) && !t.outcome.Stops? && SameButLsn(RunRecords(ts), before)
    requires |after| >= |before| && after[..|before|] == before
    requires SameButLsn(TxnRecords(t)[1..], after[|before|..])
    ensures SameButLsn(RunRecords(ts[..|ts| - 1] + [t]), after)
  {
    hide RunRecords, TxnRecords;
    var n := |ts| - 1;
    var first, own := RunRecords(ts[..n]), TxnRecords(t);
    assert ts == ts[..n] + [ts[n]];
    ExtendRun(ts[..n], ts[n]);
    ExtendRun(ts[..n], t);
    BeginsFirst(t);
    Regroup(first, own, Record(TXN_BEGIN, 0, t.id, []));
    JoinSame(first + own, after, |before|);
  }

  lemma {:induction false} BeginsFirst(t: Txn)
    ensures |TxnRecords(t)| > 0 && TxnRecords(t)[0] == Record(TXN_BEGIN, 0, t.id, [])
  {
  }

  lemma {:induction false} Regroup(a: seq<Record>, b: seq<Record>, r: Record)
    requires b != [] && b[0] == r
    ensures (a + b)[..|a| + 1] == a + [r] && (a + b)[|a| + 1..] == b[1..]
  {
  }

  lemma {:induction false} JoinSame(a: seq<Record>, b: seq<Record>, k: nat)
    requires k <= |a| && k <= |b| && SameButLsn(a[..k], b[..k]) && SameButLsn(a[k..], b[k..])
    ensures SameButLsn(a, b)
  {
    assert a == a[..k] + a[k..] && b == b[..k] + b[k..];
    forall i | 0 <= i < |a| ensures a[i] == b[i].(lsn := 0) {
      if i < k {
        assert a[i] == a[..k][i] && b[i] == b[..k][i];
      } else {
        assert a[i] == a[k..][i - k] && b[i] == b[k..][i - k];
      }
    }
  }

  lemma {:induction false} FinishedAtLeast(ts: seq<Txn>, n: nat, k: nat)
    requires n <= |ts| && |RunRecords(ts[..n])| <= k
    ensures n <= Finished(ts, k)
  {
    if n == |ts| {
      assert ts[..n] == ts;
    } else {
      assert ts[..|ts| - 1][..n] == ts[..n];
      FinishedAtLeast(ts[..|ts| - 1], n, k);
    }
  }
}
