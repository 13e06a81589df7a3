/**
 Runs of the record store: transactions begin, write and commit, and readers read.

 Snapshot isolation is stated here over whole runs, and so is the one way in which it fails: a reader that
 begins while a writer is open.
 */
module Sessions {
  import opened ByteOrder
  import opened BigEndian
  import opened Options
  import opened RecordHeader
  import opened OverflowChain
  import opened Snapshots
  import opened VersionStore

  /** A record to write: a new one, one from before the run or with an id of the caller's own, or the k-th
      that the run has written. */
  datatype Target = New | Known(id: nat) | Made(k: nat)

  datatype Op =
    | StartWriter
    | CommitWriter
    | StartReader
    | EndReader(tx: Transaction)
    | Put(target: Target, payload: Option<Bytes>)
    | Remove(target: Target)

  /** The caller names only records there are, or uses an id below the generated ones. */
  ghost predicate TargetOk(t: Target, ids: set<nat>) {
    t.Known? ==> t.id in ids || t.id <= FIRST_ID || t.id == INVALID_ID
  }

  ghost predicate OpOk(op: Op, ids: set<nat>) {
    match op
    case EndReader(tx) => tx.readOnly
    case Put(t, _) => TargetOk(t, ids)
    case Remove(t) => TargetOk(t, ids)
    case _ => true
  }

  /** No caller has used an id that the store is still to generate. */
  ghost predicate Sound(store: Store)
    reads store, store.manager
  {
    store.Valid() && forall id :: id in store.directory ==> id <= store.nextID
  }

  /** The open writer, if there is one, is the manager's. */
  ghost predicate WriterOk(store: Store, writer: Option<Transaction>)
    reads store.manager
  {
    if writer.None? then !store.manager.writerOpen
    else
      && store.manager.writerOpen && !writer.value.readOnly
      && writer.value.id == store.manager.lastTxnID && writer.value.snapshot + 1 == writer.value.id
  }

  /** The writers still to come, and the open one, are above s. */
  ghost predicate Above(store: Store, writer: Option<Transaction>, s: nat)
    reads store.manager
  {
    s <= store.manager.lastTxnID && (writer.Some? ==> s < writer.value.id)
  }

  ghost predicate AllIn(made: seq<nat>, ids: set<nat>) {
    forall k :: 0 <= k < |made| ==> made[k] in ids
  }

  /** The counters of the store have room for one more write. */
  predicate RoomFor(store: Store, tx: Transaction, payload: Option<Bytes>)
    reads store
  {
    store.nextID + 2 < INVALID_ID && store.nextPage + PayloadSize(payload) + 1 < INVALID_PAGE && tx.id < U64_LIMIT
  }

  function IdOf(t: Target, made: seq<nat>): nat {
    match t
    case New => 0
    case Known(id) => id
    case Made(k) => if k < |made| then made[k] else 0
  }

  // ---------- What a run does to the chains ----------

  /** What an id stood for when the run began: its own versions, those of the record of which it has become an
      old version, or none. */
  ghost function Origin(c: Chains, aliases: map<nat, nat>, id: nat): seq<Version> {
    VersionsOf(c, if id in aliases then aliases[id] else id)
  }

  /** Every id has what it stood for, behind versions above s; the ids that are new and name no record are the
      aliases, each an old version of a record. */
  ghost predicate Follows(c: Chains, c': Chains, stable: set<nat>, aliases: map<nat, nat>, s: nat) {
    && c.Keys <= c'.Keys && aliases.Keys == c'.Keys - c.Keys - stable
    && (forall id :: id in c' ==> ChainGrown(Origin(c, aliases, id), c'[id], s))
    && forall f :: f in aliases ==> aliases[f] in stable
  }

  lemma {:induction false} FollowsSelf(c: Chains, stable: set<nat>, s: nat)
    ensures Follows(c, c, stable, map[], s)
  {
    forall id | id in c ensures ChainGrown(c[id], c[id], s) {
      assert IsNewer([], s) && c[id] == [] + c[id];
    }
  }

  lemma {:induction false} OneNewer(vs: seq<Version>, vs': seq<Version>, v: Version, s: nat)
    requires ChainGrown(vs, vs', s) && v.begin > s
    ensures ChainGrown(vs, [v] + vs', s)
  {
    var newer :| IsNewer(newer, s) && vs' == newer + vs;
    assert IsNewer([v] + newer, s) && [v] + vs' == ([v] + newer) + vs;
  }

  lemma {:induction false} FirstNewer(v: Version, s: nat)
    requires v.begin > s
    ensures ChainGrown([], [v] + [], s)
  {
    assert IsNewer([v], s) && [v] + [] == [v] + [];
  }

  /** One write. */
  lemma {:induction false} FollowsWrite(c: Chains, c1: Chains, stable: set<nat>, aliases: map<nat, nat>, s: nat,
                                        recID: nat, f: nat, id: nat, v: Version, c2: Chains)
    returns (aliases': map<nat, nat>)
    requires Follows(c, c1, stable, aliases, s) && f !in c1 && stable <= c1.Keys && v.begin > s
    requires id == (if Generated(recID) then f else recID) && (id in stable || id !in c1)
    requires c2 == Superseding(c1, recID, f)[id := [v] + Previous(c1, recID)]
    ensures Follows(c, c2, stable + {id}, aliases', s)
  {
    hide ChainGrown;
    aliases' := if id in c1 then aliases[f := id] else aliases;
    forall x | x in c2 ensures ChainGrown(Origin(c, aliases', x), c2[x], s) {
      if x == id {
        if id in c1 { OneNewer(Origin(c, aliases, id), c1[id], v, s); } else { FirstNewer(v, s); }
      } else if x == f {
        assert c2[x] == c1[id];
      } else {
        assert c2[x] == c1[x];
      }
    }
  }

  /** One operation.  A writer waits while another is open, a write needs an open writer; what cannot happen
      yet, or would run a 64-bit counter over, does not happen. */
  method Step(store: Store, op: Op, writer: Option<Transaction>, made: seq<nat>, ghost c: Chains, ghost ids: set<nat>,
              ghost aliases: map<nat, nat>, ghost s: nat)
    returns (writer': Option<Transaction>, made': seq<nat>, ghost aliases': map<nat, nat>)
    requires Sound(store) && WriterOk(store, writer) && Above(store, writer, s) && OpOk(op, ids)
    requires ids <= store.stable && AllIn(made, store.stable) && Follows(c, store.chains, store.stable, aliases, s)
    modifies store, store.manager
    ensures Sound(store) && WriterOk(store, writer') && Above(store, writer', s)
    ensures ids <= store.stable && AllIn(made', store.stable) && Follows(c, store.chains, store.stable, aliases', s)
  {
    hide ChainsOk, Store.SpaceOk, Follows;
    writer', made', aliases' := writer, made, aliases;
    match op {
      case StartWriter =>
        if writer.None? {
          var tx := store.manager.Begin(false);
          writer' := Some(tx);
        }
      case CommitWriter =>
        if writer.Some? {
          store.manager.Commit(writer.value);
          writer' := None;
        }
      case StartReader =>
        var tx := store.manager.Begin(true);
      case EndReader(tx) =>
        store.manager.Commit(tx);
      case Put(t, payload) =>
        if writer.Some? && RoomFor(store, writer.value, payload) {
          var r;
          r, aliases' := WriteOne(store, writer.value, payload, IdOf(t, made), c, aliases, s);
          made' := made + [r];
        }
      case Remove(t) =>
        if writer.Some? && RoomFor(store, writer.value, None) {
          var r;
          r, aliases' := WriteOne(store, writer.value, None, IdOf(t, made), c, aliases, s);
          made' := made + [r];
        }
    }
  }

  /** A write or a deletion by the open writer: the record has one more version, its old one an id of its own. */
  method WriteAs(store: Store, tx: Transaction, payload: Option<Bytes>, recID: nat) returns (id: nat)
    requires Sound(store) && Usable(store, recID) && WriterOk(store, Some(tx)) && RoomFor(store, tx, payload)
    modifies store
    ensures Sound(store) && WriterOk(store, Some(tx))
            && store.nextPage <= old(store.nextPage) + PayloadSize(payload) + 1
    ensures id == (if Generated(recID) then old(store.nextID) + 1 else recID)
            && store.stable == old(store.stable) + {id}
    ensures store.chains == Superseding(old(store.chains), recID,
                old(store.nextID) + 1)[id := [Version(tx.id, payload)] + Previous(old(store.chains), recID)]
    ensures old(store.nextID) + 1 !in old(store.chains) && old(store.stable) <= old(store.chains).Keys
    ensures id in old(store.stable) || id !in old(store.chains)
  {
    hide ChainsOk, Store.SpaceOk;
    Unused(store, recID);
    var r;
    if payload == None {
      r := store.DeleteRecord(tx, recID);
    } else {
      r := store.WriteRecord(tx, payload, recID);
    }
    id := r.id;
    assert old(store.stable) - {old(store.nextID) + 1} == old(store.stable);
  }

  /** A write in a run. */
  method WriteOne(store: Store, tx: Transaction, payload: Option<Bytes>, recID: nat, ghost c: Chains,
                  ghost aliases: map<nat, nat>, ghost s: nat)
    returns (id: nat, ghost aliases': map<nat, nat>)
    requires Sound(store) && Usable(store, recID) && WriterOk(store, Some(tx)) && RoomFor(store, tx, payload)
             && s < tx.id
    requires Follows(c, store.chains, store.stable, aliases, s)
    modifies store
    ensures Sound(store) && WriterOk(store, Some(tx)) && store.stable == old(store.stable) + {id}
    ensures Follows(c, store.chains, store.stable, aliases', s)
  {
    hide Store.Valid, Follows;
    ghost var c1, stable, f := store.chains, store.stable, store.nextID + 1;
    id := WriteAs(store, tx, payload, recID);
    aliases' := FollowsWrite(c, c1, stable, aliases, s, recID, f, id, Version(tx.id, payload), store.chains);
  }

  ghost predicate Usable(store: Store, recID: nat)
    reads store
  {
    Generated(recID) || recID in store.stable || recID <= FIRST_ID
  }

  lemma {:induction false} Unused(store: Store, recID: nat)
    requires Sound(store) && Usable(store, recID)
    ensures store.Writable(recID) && recID < U64_LIMIT && store.nextID + 1 !in store.chains
            && store.nextID + 1 !in store.stable
    ensures Generated(recID) || recID in store.stable || recID !in store.chains
    ensures forall id :: id in store.stable ==> !Generated(id) && id in store.directory
  {
    hide EntryOk, Store.SpaceOk;
    SameKeys(store.directory, store.pages, store.overflow, store.chains, store.stable);
  }

  /** Any run: every id has the versions it stood for, behind versions of writers above s. */
  method Run(store: Store, ops: seq<Op>, open: Option<Transaction>, ghost s: nat)
    returns (writer: Option<Transaction>, made: seq<nat>, ghost aliases: map<nat, nat>)
    requires Sound(store) && WriterOk(store, open) && Above(store, open, s)
    requires forall i :: 0 <= i < |ops| ==> OpOk(ops[i], store.stable)
    modifies store, store.manager
    ensures Sound(store) && WriterOk(store, writer) && Above(store, writer, s)
    ensures old(store.stable) <= store.stable && AllIn(made, store.stable)
    ensures Follows(old(store.chains), store.chains, store.stable, aliases, s)
  {
    hide ChainsOk, Store.SpaceOk, Follows, Sound;
    writer, made, aliases := open, [], map[];
    ghost var c, ids := store.chains, store.stable;
    FollowsSelf(c, ids, s);
    var i := 0;
    while i < |ops|
      invariant 0 <= i <= |ops| && Sound(store) && WriterOk(store, writer) && Above(store, writer, s)
      invariant ids <= store.stable && AllIn(made, store.stable) && Follows(c, store.chains, store.stable, aliases, s)
    {
      writer, made, aliases := Step(store, ops[i], writer, made, c, ids, aliases, s);
      i := i + 1;
    }
  }

  // ---------- Snapshot isolation ----------

  /** A reader that begins while no writer is open reads an id, any id, then any run follows, and it reads the
      id again.  An id that the run has not made an alias gives the same answer exactly while fewer than 1000
      versions are too new, and nothing stays nothing.  An alias, which gave nothing, now gives what the reader
      sees of the record behind it. */
  method ReaderOverRun(store: Store, ops: seq<Op>, recID: nat)
    returns (tx: Transaction, before: ReadResult, after: ReadResult, ghost aliases: map<nat, nat>)
    requires Sound(store) && !store.manager.writerOpen
    requires forall i :: 0 <= i < |ops| ==> OpOk(ops[i], store.stable)
    modifies store, store.manager
    ensures Sound(store) && tx.id == old(store.manager.metaLast) && old(store.stable) <= store.stable
    ensures aliases.Keys == store.chains.Keys - old(store.chains).Keys - store.stable
    ensures before == Reported(ValueAt(VersionsOf(old(store.chains), recID), tx.id))
    ensures after == if Newer(VersionsOf(store.chains, recID), tx.id) < MAX_VISITED
                     then Reported(ValueAt(Origin(old(store.chains), aliases, recID), tx.id)) else NotFound
    ensures recID !in aliases ==> (after == before <==> before == NotFound
                                                          || Newer(VersionsOf(store.chains, recID),
                                                              tx.id) < MAX_VISITED)
    ensures recID in aliases ==> before == NotFound && recID in store.chains && aliases[recID] in store.stable
  {
    hide ChainsOk, Store.SpaceOk, Follows;
    SameKeys(store.directory, store.pages, store.overflow, store.chains, store.stable);
    ghost var c := store.chains;
    tx := store.manager.Begin(true);
    before := store.ReadRecord(Some(tx), recID);
    FirstRead(VersionsOf(c, recID), tx.id);
    var _, _, al := Run(store, ops, None, tx.id);
    aliases := al;
    after := store.ReadRecord(Some(tx), recID);
    SameKeys(store.directory, store.pages, store.overflow, store.chains, store.stable);
    FollowedRead(c, store.chains, store.stable, aliases, tx.id, recID);
  }

  /** What is read of an id after a run. */
  lemma {:induction false} FollowedRead(c: Chains, c': Chains, stable: set<nat>, aliases: map<nat, nat>, s: nat,
                                        id: nat)
    requires Follows(c, c', stable, aliases, s)
    ensures c.Keys <= c'.Keys && aliases.Keys == c'.Keys - c.Keys - stable
            && (id in aliases ==> id !in c && aliases[id] in stable)
    ensures ValueAt(Reach(VersionsOf(c', id)), s) == if Newer(VersionsOf(c', id), s) < MAX_VISITED
                                                       then ValueAt(Origin(c, aliases, id), s) else None
  {
    if id in c' {
      GrownReads(Origin(c, aliases, id), c'[id], s);
    }
  }

  /** The failing run, in every store with room and for every record: a reader asks for the id that the store
      will generate next, and gets nothing; a writer rewrites the record, and the reader now gets, under that
      id, what it sees of the record. */
  method AliasAppears(store: Store, x: nat, payload: Option<Bytes>)
    returns (before: ReadResult, after: ReadResult, seen: ReadResult)
    requires Sound(store) && !store.manager.writerOpen && x in store.stable
    requires store.nextID + 2 < INVALID_ID && store.nextPage + PayloadSize(payload) + 1 < INVALID_PAGE
    requires store.manager.lastTxnID + 1 < U64_LIMIT
    modifies store, store.manager
    ensures before == NotFound && after == seen
    ensures seen == Reported(ValueAt(VersionsOf(old(store.chains), x), old(store.manager.metaLast)))
  {
    hide ChainsOk, Store.SpaceOk, ValueAt, Reach, Reported, Superseding;
    ghost var c, f := store.chains, store.nextID + 1;
    var id := store.nextID + 1;
    var tx;
    tx, before, seen := AskTwice(store, id, x);
    var w := store.manager.Begin(false);
    var _ := WriteAs(store, w, payload, x);
    AliasHas(c, x, f, [Version(w.id, payload)] + Previous(c, x));
    after := store.ReadRecord(Some(tx), id);
  }

  /** A reader begins and reads an unused id and a record. */
  method AskTwice(store: Store, id: nat, x: nat) returns (tx: Transaction, a: ReadResult, b: ReadResult)
    requires Sound(store) && !store.manager.writerOpen && x in store.stable && id > store.nextID
    modifies store.manager
    ensures Sound(store) && WriterOk(store, None) && Begun(Some(tx), store.manager)
            && tx.id == store.manager.lastTxnID == old(store.manager.metaLast)
    ensures a == NotFound && b == Reported(ValueAt(VersionsOf(store.chains, x), tx.id)) && x in store.chains
            && !Generated(x)
    ensures ValueAt(Reach(VersionsOf(store.chains, x)), tx.id) == ValueAt(VersionsOf(store.chains, x), tx.id)
  {
    hide ChainsOk, Store.SpaceOk;
    Unused(store, x);
    SameKeys(store.directory, store.pages, store.overflow, store.chains, store.stable);
    tx := store.manager.Begin(true);
    a := store.ReadRecord(Some(tx), id);
    b := store.ReadRecord(Some(tx), x);
    FirstRead(VersionsOf(store.chains, x), tx.id);
  }

  lemma {:induction false} AliasHas(c: Chains, x: nat, f: nat, vs: seq<Version>)
    requires !Generated(x) && x in c && f !in c
    ensures var c' := Superseding(c, x, f)[x := vs]; f in c' && c'[f] == c[x]
  {
  }

  /** Nothing is too new for a reader that has just begun. */
  lemma {:induction false} FirstRead(vs: seq<Version>, bound: nat)
    requires forall i :: 0 <= i < |vs| ==> vs[i].begin <= bound
    ensures ValueAt(Reach(vs), bound) == ValueAt(vs, bound) && Newer(vs, bound) == 0
  {
    ReachDecides(vs, bound);
  }

  /** A version by transaction w may still be written. */
  ghost predicate MayWrite(manager: TxnManager, w: nat)
    reads manager
  {
    w > manager.lastTxnID || (manager.writerOpen && w == manager.lastTxnID)
  }

  /** No version that may still be written changes what the reader sees, in any record. */
  ghost predicate Isolated(manager: TxnManager, tx: Transaction)
    reads manager
  {
    forall w, payload, vs :: MayWrite(manager, w) ==> ValueAt([Version(w, payload)] + vs, tx.id) == ValueAt(vs, tx.id)
  }

  /** A reader is isolated if and only if no writer is open when it begins. */
  method BeginReader(manager: TxnManager) returns (tx: Transaction)
    requires manager.Valid()
    modifies manager
    ensures manager.Valid() && tx.readOnly && tx.id == tx.snapshot == manager.lastTxnID
    ensures Isolated(manager, tx) <==> !old(manager.writerOpen)
  {
    tx := manager.Begin(true);
    IsolatedIff(manager, tx);
  }

  lemma {:induction false} IsolatedIff(manager: TxnManager, tx: Transaction)
    requires tx.id == manager.lastTxnID
    ensures Isolated(manager, tx) <==> !manager.writerOpen
  {
    if manager.writerOpen {
      var w, payload: Option<Bytes> := manager.lastTxnID, Some([]);
      assert MayWrite(manager, w);
      assert ValueAt([Version(w, payload)] + [], tx.id) == payload != ValueAt([], tx.id);
    } else {
      forall w, payload, vs | MayWrite(manager, w)
        ensures ValueAt([Version(w, payload)] + vs, tx.id) == ValueAt(vs, tx.id) {
        SnapshotStable([Version(w, payload)], vs, tx.id);
      }
    }
  }

  /** A reader begins, a writer writes a record, open before or opened since, and does not commit.  The reader
      gets the uncommitted payload exactly if the writer was open when it began; else what it got before. */
  method ReadAcrossWrite(store: Store, open: Option<Transaction>, recID: nat, payload: Bytes)
    returns (before: ReadResult, after: ReadResult)
    requires Sound(store) && WriterOk(store, open) && recID in store.stable
    requires store.nextID + 2 < INVALID_ID && store.nextPage + |payload| + 1 < INVALID_PAGE
             && store.manager.lastTxnID + 1 < U64_LIMIT
    modifies store, store.manager
    ensures Sound(store) && store.manager.writerOpen && store.manager.metaLast == old(store.manager.metaLast)
    ensures old(store.manager.writerOpen) ==> after == Found(Stored(payload))
    ensures !old(store.manager.writerOpen) ==> after == before
  {
    hide ChainsOk, Store.SpaceOk;
    SameKeys(store.directory, store.pages, store.overflow, store.chains, store.stable);
    ghost var vs := store.chains[recID];
    var tx := store.manager.Begin(true);
    before := store.ReadRecord(Some(tx), recID);
    var w;
    if open.Some? {
      w := open.value;
    } else {
      w := store.manager.Begin(false);
    }
    var _ := WriteAs(store, w, Some(payload), recID);
    NewestFirst(vs, Version(w.id, Some(payload)), tx.id);
    after := store.ReadRecord(Some(tx), recID);
  }

  lemma {:induction false} NewestFirst(vs: seq<Version>, v: Version, bound: nat)
    requires forall i :: 0 <= i < |vs| ==> vs[i].begin <= bound || vs[i].begin == v.begin
    ensures v.begin <= bound ==> ValueAt(Reach([v] + vs), bound) == v.payload
    ensures v.begin > bound && (forall i :: 0 <= i < |vs| ==> vs[i].begin <= bound)
            ==> ValueAt(Reach([v] + vs), bound) == ValueAt(Reach(vs), bound)
  {
    ReachDecides([v] + vs, bound);
    if v.begin > bound {
      NewerGrows([v], vs, bound);
      SnapshotStable([v], vs, bound);
      ReachDecides(vs, bound);
    } else {
      assert ([v] + vs)[0] == v;
    }
  }

  /** A writer opens, a reader begins, the writer writes: the reader sees what nobody has committed. */
  method DirtyRead() returns (seen: ReadResult, committed: ReadResult)
    ensures seen == Found([1]) && committed == NotFound
  {
    hide ChainsOk, Store.SpaceOk;
    var manager := new TxnManager(0);
    var store := new Store(manager, 2);
    var writer := manager.Begin(false);
    var reader := manager.Begin(true);
    var r := store.WriteRecord(writer, Some([1]), 0);
    seen := store.ReadRecord(Some(reader), r.id);
    committed := store.ReadRecord(None, r.id);
  }

  /** A caller uses an id that the store is still to generate: the next record without an id gets the same one,
      and the first is gone for everybody. */
  method OverwrittenByNew(store: Store, tx: Transaction, payload: Bytes, other: Bytes)
    returns (a: nat, b: nat, r: ReadResult)
    requires Sound(store) && WriterOk(store, Some(tx)) && tx.id < U64_LIMIT
    requires store.nextID + 3 < INVALID_ID && store.nextPage + |payload| + |other| + 3 < INVALID_PAGE
    modifies store
    ensures store.Valid() && a == b && r == Found(Stored(other))
            && VersionsOf(store.chains, a) == [Version(tx.id, Some(other))]
  {
    hide ChainsOk, Store.SpaceOk;
    Unused(store, 0);
    var first := store.WriteRecord(tx, Some(payload), store.nextID + 1);
    var second := store.WriteRecord(tx, Some(other), 0);
    a, b := first.id, second.id;
    r := store.ReadRecord(Some(tx), a);
  }

  // ---------- After a crash ----------

  /** Recovery brings pages back, but not the last transaction id: a manager starts from the id in the meta page.
      Of a version that redo has brought back, a reader sees nothing until the ids have caught up with it.  The
      first new writer, and every reader once it has committed, takes one with the same id for its own. */
  method AfterReopen(last: nat, h: Header) returns (atOnce: bool, byWriter: bool, afterCommit: bool)
    requires h.endTxn == 0 && h.beginTxn < U64_LIMIT
    ensures atOnce <==> h.beginTxn <= last
    ensures byWriter <==> h.beginTxn <= last + 1
    ensures afterCommit <==> h.beginTxn <= last + 1
  {
    hide IsVisible;
    var manager := new TxnManager(last);
    var reader := manager.Begin(true);
    VisibleIff(h, manager, Some(reader), reader.snapshot, reader.id);
    atOnce := IsVisible(h, reader.snapshot, CommitTest(manager.committed, manager.metaLast), reader.id);
    var writer := manager.Begin(false);
    VisibleIff(h, manager, Some(writer), writer.snapshot, writer.id);
    byWriter := IsVisible(h, writer.snapshot, CommitTest(manager.committed, manager.metaLast), writer.id);
    manager.Commit(writer);
    var later := manager.Begin(true);
    VisibleIff(h, manager, Some(later), later.snapshot, later.id);
    afterCommit := IsVisible(h, later.snapshot, CommitTest(manager.committed, manager.metaLast), later.id);
  }

  // ---------- A writer reads its own writes ----------

  datatype Write = Write(target: Target, payload: Option<Bytes>)

  /** The last of the writes to a record, if there is one; ids[i] is the record the i-th went to. */
  function LastWrite(ws: seq<Write>, ids: seq<nat>, id: nat): Option<Option<Bytes>>
    requires |ids| <= |ws|
  {
    if ids == [] then None
    else if ids[|ids| - 1] == id then Some(ws[|ids| - 1].payload)
    else LastWrite(ws, ids[..|ids| - 1], id)
  }

  /** The chain of an id after a writer's writes: with the last of them in front, or what it was. */
  ghost predicate OwnInFront(before: Chains, now: Chains, id: nat, last: Option<Option<Bytes>>, w: nat) {
    if last.Some? then id in now && now[id] != [] && now[id][0] == Version(w, last.value)
    else VersionsOf(now, id) == VersionsOf(before, id)
  }

  /** Ids that a write has not made an old version of a record. */
  ghost predicate Named(before: Chains, now: Chains, stable: set<nat>, id: nat) {
    id in before || id in stable || id !in now
  }

  ghost predicate AllOwn(before: Chains, now: Chains, stable: set<nat>, ws: seq<Write>, ids: seq<nat>, w: nat)
    requires |ids| <= |ws|
  {
    && before.Keys <= now.Keys && AllIn(ids, stable) && stable <= now.Keys
    && forall id :: Named(before, now, stable, id) ==> OwnInFront(before, now, id, LastWrite(ws, ids, id), w)
  }

  lemma {:induction false} OneMoreOwn(before: Chains, c1: Chains, stable: set<nat>, ws: seq<Write>, ids: seq<nat>,
                                      w: nat, recID: nat, f: nat, id: nat, c2: Chains)
    requires |ids| < |ws| && AllOwn(before, c1, stable, ws, ids, w) && f !in c1
    requires id == (if Generated(recID) then f else recID) && (id in stable || id !in c1)
    requires c2 == Superseding(c1, recID, f)[id := [Version(w, ws[|ids|].payload)] + Previous(c1, recID)]
    ensures AllOwn(before, c2, stable + {id}, ws, ids + [id], w)
  {
    var ids' := ids + [id];
    assert ids'[..|ids|] == ids;
    forall x | Named(before, c2, stable + {id}, x) ensures OwnInFront(before, c2, x, LastWrite(ws, ids', x), w) {
      if x != id {
        assert Named(before, c1, stable, x);
        assert LastWrite(ws, ids', x) == LastWrite(ws, ids, x);
      }
    }
  }

  /** Write records one after the other, as long as the counters have room. */
  method WriteAll(store: Store, tx: Transaction, ws: seq<Write>) returns (ids: seq<nat>)
    requires Sound(store) && WriterOk(store, Some(tx)) && forall i :: 0 <= i < |ws|
                                                            ==> TargetOk(ws[i].target, store.stable)
    modifies store
    ensures Sound(store) && WriterOk(store, Some(tx)) && |ids| <= |ws| && old(store.stable) <= store.stable
    ensures AllOwn(old(store.chains), store.chains, store.stable, ws, ids, tx.id)
  {
    hide ChainsOk, Store.SpaceOk, AllOwn;
    ghost var c, known := store.chains, store.stable;
    SameKeys(store.directory, store.pages, store.overflow, store.chains, store.stable);
    ids := [];
    NoneOwn(c, known, ws, tx.id);
    while |ids| < |ws| && RoomFor(store, tx, ws[|ids|].payload)
      invariant |ids| <= |ws| && Sound(store) && WriterOk(store, Some(tx)) && known <= store.stable
                && AllIn(ids, store.stable)
      invariant AllOwn(c, store.chains, store.stable, ws, ids, tx.id)
      decreases |ws| - |ids|
    {
      ghost var c1, stable, f := store.chains, store.stable, store.nextID + 1;
      var recID := IdOf(ws[|ids|].target, ids);
      var id := WriteAs(store, tx, ws[|ids|].payload, recID);
      OneMoreOwn(c, c1, stable, ws, ids, tx.id, recID, f, id, store.chains);
      ids := ids + [id];
    }
  }

  lemma {:induction false} NoneOwn(c: Chains, stable: set<nat>, ws: seq<Write>, w: nat)
    requires stable <= c.Keys
    ensures AllOwn(c, c, stable, ws, [], w)
  {
  }

  /** A writer writes records, old ones, new ones and its own, and then reads one: it gets its last write of that
      record, or what was there before if it has not written it. */
  method WriterReadsOwn(store: Store, tx: Transaction, ws: seq<Write>, recID: nat)
    returns (ids: seq<nat>, r: ReadResult)
    requires Sound(store) && WriterOk(store, Some(tx)) && forall i :: 0 <= i < |ws|
                                                            ==> TargetOk(ws[i].target, store.stable)
    modifies store
    ensures Sound(store) && |ids| <= |ws| && AllIn(ids, store.stable)
    ensures Named(old(store.chains), store.chains, store.stable, recID) ==>
              var last := LastWrite(ws, ids, recID);
              r == Reported(if last.Some? then last.value else ValueAt(Reach(VersionsOf(old(store.chains), recID)),
                              tx.id))
  {
    hide ChainsOk, Store.SpaceOk, LastWrite;
    ids := WriteAll(store, tx, ws);
    assert Named(old(store.chains), store.chains, store.stable, recID) ==>
             OwnInFront(old(store.chains), store.chains, recID, LastWrite(ws, ids, recID), tx.id);
    r := store.ReadRecord(Some(tx), recID);
  }
}
