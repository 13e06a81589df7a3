/**
 The record store: WriteRecord prepends a version to a record's chain, ReadRecord walks the chain to the
 first version the transaction may see.

 The directory is the map that its B+tree refines (see BTree), a record page is the list of records that
 its slotted page holds (records are never removed from one), and pages are numbered by a counter.
 */
module VersionStore {
  import opened ByteOrder
  import opened BigEndian
  import opened Options
  import opened RecordHeader
  import opened OverflowChain
  import opened Snapshots
  import SlottedPage
  import NodePages

  const MAX_INLINE := 4000
  const FIRST_ID := 1000
  const SLOT_SIZE := 4
  const PAGE_ROOM := 16384 - 64

  datatype Location = Location(page: nat, slot: nat)
  type Pages = map<nat, seq<Bytes>>

  predicate Present(pages: Pages, loc: Location) {
    loc.page in pages && loc.slot < |pages[loc.page]|
  }

  function At(pages: Pages, loc: Location): Bytes
    requires Present(pages, loc)
  {
    pages[loc.page][loc.slot]
  }

  /** Bytes taken by records and their slots. */
  function Used(records: seq<Bytes>): nat {
    if records == [] then 0 else Used(records[..|records| - 1]) + |records[|records| - 1]| + SLOT_SIZE
  }

  function FreeSpace(records: seq<Bytes>): nat {
    if Used(records) <= PAGE_ROOM then PAGE_ROOM - Used(records) else 0
  }

  /** The first of the pages with room for that much. */
  function FirstRoom(pages: Pages, active: seq<nat>, needed: nat, from: nat): (i: nat)
    requires from <= |active| && forall i :: 0 <= i < |active| ==> active[i] in pages
    ensures from <= i <= |active| && (i < |active| ==> FreeSpace(pages[active[i]]) >= needed)
    ensures forall k :: from <= k < i ==> FreeSpace(pages[active[k]]) < needed
    decreases |active| - from
  {
    if from == |active| || FreeSpace(pages[active[from]]) >= needed then from
        else FirstRoom(pages, active, needed, from + 1)
  }

  /** What FreeSpace says is what the slotted page says: a record page of these records takes one more. */
  lemma {:induction false} RoomIsRoom(records: seq<Bytes>, record: Bytes)
    requires Used(records) <= PAGE_ROOM
    ensures FreeSpace(records) >= |record| + SLOT_SIZE <==>
            SlottedPage.Fits(NodePages.Somes(records), |records|, |record|)
  {
    hide NodePages.Somes, NodePages.PackedSize, SlottedPage.Fits, Used;
    NodePages.RoomForNext(records, record);
    UsedIsPacked(records + [record]);
    UsedMore(records, record);
  }

  lemma {:induction false} UsedIsPacked(records: seq<Bytes>)
    ensures Used(records) == NodePages.PackedSize(records)
  {
    if records != [] { UsedIsPacked(records[..|records| - 1]); }
  }

  lemma {:induction false} NoneUsed()
    ensures Used([]) == 0
  {
  }

  lemma {:induction false} UsedMore(records: seq<Bytes>, record: Bytes)
    ensures Used(records + [record]) == Used(records) + |record| + SLOT_SIZE
  {
    assert (records + [record])[..|records|] == records;
  }

  ghost predicate Extends(pages: Pages, pages': Pages) {
    forall p :: p in pages ==> p in pages' && pages[p] <= pages'[p]
  }

  /** The length field is 32 bits wide: a longer payload comes back cut. */
  function Stored(payload: Bytes): (r: Bytes) {
    if |payload| > MAX_INLINE then payload[..|payload| % U32_LIMIT] else payload
  }

  /** A payload comes back whole if and only if its length fits the field. */
  lemma {:induction false} StoredWholeIff(payload: Bytes)
    ensures Stored(payload) == payload <==> |payload| < U32_LIMIT
  {
    if |payload| >= U32_LIMIT { assert |Stored(payload)| < |payload|; }
    if MAX_INLINE < |payload| < U32_LIMIT { assert payload[..|payload|] == payload; }
  }

  /** The stored record b is the version v. */
  ghost predicate Encodes(ov: Overflow, b: Bytes, v: Version) {
    && |b| >= HEADER_BYTES
    && var h := DecodeHeader(b);
    && h.beginTxn == v.begin && h.endTxn == 0 && h.payloadLength == PayloadSize(v.payload) % U32_LIMIT
    && match v.payload
       case None => IsDeleted(h) && |b| == HEADER_BYTES
       case Some(p) =>
         && !IsDeleted(h)
         && if |p| > MAX_INLINE then
              IsOverflow(h) && |b| == HEADER_BYTES + 12 && Val(b[48..52]) == |p| % U32_LIMIT
                  && HoldsAll(ov, Val(b[40..48]), p)
            else
              !IsOverflow(h) && b[HEADER_BYTES..] == p
  }

  type Directory = map<nat, Location>
  type Chains = map<nat, seq<Version>>

  /** The chain of a directory entry: its record is the newest version, and the rest hangs on the physical id
      the record's header names, which no later write of any record redirects. */
  ghost predicate EntryOk(dir: Directory, pages: Pages, ov: Overflow, chains: Chains, stable: set<nat>, id: nat) {
    && id in dir && id in chains && chains[id] != [] && Present(pages, dir[id])
    && Encodes(ov, At(pages, dir[id]), chains[id][0])
    && (id in stable ==> DecodeHeader(At(pages, dir[id])).recordId == id)
    && var prev := DecodeHeader(At(pages, dir[id])).prev;
    if |chains[id]| == 1 then prev == INVALID_ID
    else prev in dir && prev !in stable && prev in chains && chains[prev] == chains[id][1..]
  }

  ghost predicate ChainsOk(dir: Directory, pages: Pages, ov: Overflow, chains: Chains, stable: set<nat>) {
    && chains.Keys == dir.Keys && stable <= dir.Keys
    && forall id :: id in dir ==> EntryOk(dir, pages, ov, chains, stable, id)
  }

  lemma {:induction false} EncodesElsewhere(ov: Overflow, ov': Overflow, b: Bytes, v: Version)
    requires Encodes(ov, b, v) && ov.Keys <= ov'.Keys && forall p :: p in ov ==> ov'[p] == ov[p]
    ensures Encodes(ov', b, v)
  {
    if v.payload.Some? && |v.payload.value| > MAX_INLINE {
      HoldsElsewhere(ov, ov', Val(b[40..48]), v.payload.value);
    }
  }

  /** More pages and more overflow pages change no chain. */
  lemma {:induction false} ChainsElsewhere(dir: Directory, pages: Pages, pages': Pages, ov: Overflow, ov': Overflow,
                                           chains: Chains, stable: set<nat>)
    requires ChainsOk(dir, pages, ov, chains, stable) && Extends(pages, pages')
    requires ov.Keys <= ov'.Keys && forall p :: p in ov ==> ov'[p] == ov[p]
    ensures ChainsOk(dir, pages', ov', chains, stable)
  {
    hide Encodes;
    forall id | id in dir ensures EntryOk(dir, pages', ov', chains, stable, id) {
      assert EntryOk(dir, pages, ov, chains, stable, id);
      assert At(pages', dir[id]) == At(pages, dir[id]);
      EncodesElsewhere(ov, ov', At(pages, dir[id]), chains[id][0]);
    }
  }

  lemma {:induction false} EntryAt(dir: Directory, pages: Pages, ov: Overflow, chains: Chains, stable: set<nat>,
                                   id: nat)
    requires ChainsOk(dir, pages, ov, chains, stable) && id in dir
    ensures EntryOk(dir, pages, ov, chains, stable, id)
  {
  }

  /** An entry whose record and previous id are left alone stays as it is. */
  lemma {:induction false} EntryKept(dir: Directory, pages: Pages, ov: Overflow, chains: Chains, stable: set<nat>,
                                     id: nat,
                                     dir': Directory, chains': Chains, stable': set<nat>, id': nat)
    requires EntryOk(dir, pages, ov, chains, stable, id)
    requires id' in dir' && id' in chains' && dir'[id'] == dir[id] && chains'[id'] == chains[id]
    requires id' in stable' ==> id' == id && id in stable
    requires forall p :: p in dir && p !in stable && p in chains
               ==> p in dir' && p in chains' && p !in stable' && chains'[p] == chains[p]
    ensures EntryOk(dir', pages, ov, chains', stable', id')
  {
    hide Encodes;
  }

  /** The old version gets an id of its own. */
  lemma {:induction false} Superseded(dir: Directory, pages: Pages, ov: Overflow, chains: Chains, stable: set<nat>,
                                      x: nat, f: nat)
    requires ChainsOk(dir, pages, ov, chains, stable) && x in dir && (f in stable || f !in dir)
    ensures ChainsOk(dir[f := dir[x]], pages, ov, chains[f := chains[x]], stable - {f})
  {
    hide Encodes, EntryOk;
    var dir', chains', stable' := dir[f := dir[x]], chains[f := chains[x]], stable - {f};
    forall id | id in dir' ensures EntryOk(dir', pages, ov, chains', stable', id) {
      var from := if id == f then x else id;
      EntryKept(dir, pages, ov, chains, stable, from, dir', chains', stable', id);
    }
  }

  /** The record's own id moves to the new version. */
  lemma {:induction false} Prepended(dir: Directory, pages: Pages, ov: Overflow, chains: Chains, stable: set<nat>,
                                     x: nat, prev: nat, loc: Location, v: Version)
    requires ChainsOk(dir, pages, ov, chains, stable) && (x in stable || x !in dir)
    requires Present(pages, loc) && Encodes(ov, At(pages, loc), v) && DecodeHeader(At(pages, loc)).prev == prev
    requires DecodeHeader(At(pages, loc)).recordId == x
    requires prev == INVALID_ID || (x in dir && prev in dir && prev !in stable && chains[prev] == chains[x])
    ensures ChainsOk(dir[x := loc], pages, ov, chains[x := [v] + Behind(chains, x, prev)], stable + {x})
  {
    hide Encodes, EntryOk;
    var dir', chains', stable' := dir[x := loc], chains[x := [v] + Behind(chains, x, prev)], stable + {x};
    forall id | id in dir' ensures EntryOk(dir', pages, ov, chains', stable', id) {
      if id != x {
        EntryKept(dir, pages, ov, chains, stable, id, dir', chains', stable', id);
      } else {
        if x in dir { EntryAt(dir, pages, ov, chains, stable, x); NonEmpty(dir, pages, ov, chains, stable, x); }
        NewEntry(dir', pages, ov, chains', stable', x, prev, v);
      }
    }
  }

  /** The versions behind a new one: those of the record, if the new one is linked to them. */
  ghost function Behind(c: Chains, id: nat, prev: nat): seq<Version> {
    if prev == INVALID_ID then [] else VersionsOf(c, id)
  }

  lemma {:induction false} NonEmpty(dir: Directory, pages: Pages, ov: Overflow, chains: Chains, stable: set<nat>,
                                    id: nat)
    requires EntryOk(dir, pages, ov, chains, stable, id)
    ensures chains[id] != []
  {
  }

  lemma {:induction false} NewEntry(dir: Directory, pages: Pages, ov: Overflow, chains: Chains, stable: set<nat>,
                                    x: nat, prev: nat, v: Version)
    requires x in dir && x in chains && chains[x] != [] && chains[x][0] == v && Present(pages, dir[x])
             && Encodes(ov, At(pages, dir[x]), v)
    requires DecodeHeader(At(pages, dir[x])).prev == prev && DecodeHeader(At(pages, dir[x])).recordId == x
    requires if |chains[x]| == 1 then prev == INVALID_ID
             else prev in dir && prev !in stable && prev in chains && chains[prev] == chains[x][1..]
    ensures EntryOk(dir, pages, ov, chains, stable, x)
  {
    hide Encodes;
  }

  // ---------- The store ----------

  /** The caller passes no id, and the store is to generate one. */
  predicate Generated(recID: nat) {
    recID == 0 || recID == INVALID_ID
  }

  ghost function VersionsOf(c: Chains, id: nat): seq<Version> {
    if id in c then c[id] else []
  }

  /** The versions behind a new one: none behind that of a new record. */
  ghost function Previous(c: Chains, recID: nat): seq<Version> {
    if Generated(recID) then [] else VersionsOf(c, recID)
  }

  /** Before a record is rewritten its present version gets an id of its own. */
  ghost function Superseding(c: Chains, recID: nat, f: nat): Chains {
    if !Generated(recID) && recID in c then c[f := c[recID]] else c
  }

  datatype WriteResult = Written(id: nat) | ReadOnlyTransaction
  datatype ReadResult = Found(payload: Bytes) | NotFound | InvalidFormat

  /** How a read reports what it has found: deletions and missing records alike are "not found". */
  function Reported(v: Option<Bytes>): ReadResult {
    match v
    case None => NotFound
    case Some(p) => Found(Stored(p))
  }

  /** The id up to which a transaction sees versions. */
  function Bound(tx: Option<Transaction>, metaLast: nat): nat {
    if tx.Some? then tx.value.id else metaLast
  }

  /** A transaction handed out by this manager. */
  ghost predicate Begun(tx: Option<Transaction>, manager: TxnManager)
    reads manager
  {
    tx.Some? ==>
      && tx.value.id <= manager.lastTxnID
      && if tx.value.readOnly then tx.value.snapshot == tx.value.id else tx.value.snapshot + 1 == tx.value.id
  }

  ghost predicate OverflowGrows(ov: Overflow, ov': Overflow) {
    ov.Keys <= ov'.Keys && forall p :: p in ov ==> ov'[p] == ov[p]
  }

  class Store {
    const manager: TxnManager
    var directory: Directory
    var nextID: nat
    var activePages: seq<nat>
    var pages: Pages
    var overflow: Overflow
    var nextPage: nat
    ghost var chains: Chains       // for every id of the directory, the versions behind it, newest first
    ghost var stable: set<nat>     // the ids that name records

    ghost predicate Valid()
      reads this, manager
    {
      && manager.Valid() && manager.CommitOnly()
      && nextID >= FIRST_ID && nextID < INVALID_ID
      && (forall id :: id in directory ==> !Generated(id) && (id in stable || FIRST_ID < id <= nextID))
      && SpaceOk() && ChainsOk(directory, pages, overflow, chains, stable)
      && (forall id, i :: id in chains && 0 <= i < |chains[id]| ==> chains[id][i].begin <= manager.lastTxnID)
    }

    /** Page numbers in use are below the counter, and no record page is overfull. */
    ghost predicate SpaceOk()
      reads this`activePages, this`pages, this`overflow, this`nextPage
    {
      && (forall i :: 0 <= i < |activePages| ==> activePages[i] in pages)
      && (forall p :: p in pages || p in overflow ==> p < nextPage)
      && (forall p :: p in pages ==> Used(pages[p]) <= PAGE_ROOM)
    }

    constructor (manager: TxnManager, firstPage: nat)
      requires manager.Valid() && manager.CommitOnly()
      ensures Valid() && this.manager == manager && chains == map[] && stable == {}
      ensures directory == map[] && nextID == FIRST_ID && nextPage == firstPage
    {
      this.manager := manager;
      directory, nextID, activePages, pages, overflow, nextPage := map[], FIRST_ID, [], map[], map[], firstPage;
      chains, stable := map[], {};
    }

    method AllocateID() returns (id: nat)
      modifies this`nextID
      ensures id == nextID == old(nextID) + 1
    {
      nextID := nextID + 1;
      id := nextID;
    }

    /** A page number not in use. */
    method AllocatePage() returns (p: nat)
      requires forall q :: q in pages || q in overflow ==> q < nextPage
      modifies this`nextPage
      ensures p !in pages && p !in overflow && p == old(nextPage) && nextPage == p + 1
    {
      p := nextPage;
      nextPage := nextPage + 1;
    }

    /** One more chunk: a new page at the end of the chain ps, unless the transaction is read-only. */
    method AddChunk(tx: Transaction, prev: nat, chunk: Bytes, ghost ps: seq<nat>, ghost data: Bytes)
      returns (p: nat, ok: bool)
      requires nextPage < INVALID_PAGE && forall q :: q in pages || q in overflow ==> q < nextPage
      requires Holds(overflow, ps, data) && prev == (if ps == [] then INVALID_PAGE else ps[|ps| - 1])
      requires |ps| * MAX_CHUNK < |data| && chunk == Chunk(data, |ps|)
      modifies this`overflow, this`nextPage
      ensures p == old(nextPage) && nextPage == p + 1 && forall q :: q in pages || q in overflow ==> q < nextPage
      ensures overflow.Keys == old(overflow).Keys + {p} && p !in old(overflow)
      ensures forall q :: q in old(overflow) && q !in ps ==> overflow[q] == old(overflow)[q]
      ensures ok == !tx.readOnly && (ok ==> Holds(overflow, ps + [p], data))
    {
      hide Chunk, Distinct;
      p := AllocatePage();
      overflow := overflow[p := OverflowPage(INVALID_PAGE, chunk)];
      if tx.readOnly {
        return p, false;
      }
      if prev != INVALID_PAGE {
        overflow := overflow[prev := overflow[prev].(next := p)];
      }
      Appended(old(overflow), ps, data, p, overflow);
      ok := true;
    }

    /** writeOverflowChain: one page per chunk, each linked from the page before it.  A read-only transaction
        is turned away at its first page. */
    method WriteOverflow(tx: Transaction, data: Bytes) returns (first: nat, ok: bool)
      requires |data| > 0 && nextPage + |data| < INVALID_PAGE
               && forall q :: q in pages || q in overflow ==> q < nextPage
      modifies this`overflow, this`nextPage
      ensures OverflowGrows(old(overflow), overflow)
      ensures old(nextPage) <= nextPage <= old(nextPage) + |data|
              && forall q :: q in pages || q in overflow ==> q < nextPage
      ensures ok == !tx.readOnly && (ok ==> HoldsAll(overflow, first, data) && first < INVALID_PAGE)
    {
      first, ok := INVALID_PAGE, true;
      var prev := INVALID_PAGE;
      var remaining := data;
      ghost var ps: seq<nat> := [];
      hide Chunk, Holds, Rest, OverflowGrows, Apart;
      NothingHeld(overflow, data);
      while |remaining| > 0
        invariant remaining == Rest(data, |ps|) && (ps != [] ==> Rest(data, |ps| - 1) != [] && !tx.readOnly)
        invariant Holds(overflow, ps, data) && ok
        invariant prev == (if ps == [] then INVALID_PAGE else ps[|ps| - 1])
                  && first == (if ps == [] then INVALID_PAGE else ps[0])
        invariant OverflowGrows(old(overflow), overflow) && Apart(ps, old(overflow))
                  && (ps != [] ==> ps[0] < INVALID_PAGE)
        invariant old(nextPage) <= nextPage <= old(nextPage) + |data| - |remaining|
        invariant forall q :: q in pages || q in overflow ==> q < nextPage
        decreases |remaining|
      {
        var n := if |remaining| > MAX_CHUNK then MAX_CHUNK else |remaining|;
        ChunkOf(data, |ps|);
        var p;
        ghost var before := overflow;
        p, ok := AddChunk(tx, prev, remaining[..n], ps, data);
        GrowsFurther(old(overflow), before, overflow, ps, p);
        if !ok {
          return INVALID_PAGE, false;
        }
        remaining := remaining[n..];
        if first == INVALID_PAGE {
          first := p;
        }
        ps := ps + [p];
        prev := p;
      }
      AllWritten(overflow, ps, data);
    }

    /** allocateRecordSlot: the first active page with room, or a new one.  No stored record moves. */
    method AllocateSlot(tx: Transaction, record: Bytes) returns (loc: Location, ok: bool)
      requires HEADER_BYTES <= |record| <= HEADER_BYTES + MAX_INLINE
      requires SpaceOk()
      modifies this`pages, this`activePages, this`nextPage
      ensures SpaceOk() && nextPage <= old(nextPage) + 1
      ensures Extends(old(pages), pages) && Present(pages, loc) && At(pages, loc) == record && ok == !tx.readOnly
      ensures var i := FirstRoom(old(pages), old(activePages), |record| + SLOT_SIZE, 0);
              loc == if i < old(|activePages|) then Location(old(activePages[i]), |old(pages)[old(activePages[i])]|)
                       else Location(old(nextPage), 0)
      ensures var i := FirstRoom(old(pages), old(activePages), |record| + SLOT_SIZE, 0);
              var active := if i < old(|activePages|) then old(activePages) else old(activePages) + [old(nextPage)];
              activePages == if ok && FreeSpace(pages[loc.page]) < 44 then active[..i] + active[i + 1..] else active
    {
      hide Used, FirstRoom;
      var needed := |record| + SLOT_SIZE;
      NoneUsed();
      var i := FindRoom(needed);
      if i == |activePages| {
        var p := AllocatePage();
        pages := pages[p := []];
        activePages := activePages + [p];
      }
      var p := activePages[i];
      loc := Location(p, |pages[p]|);
      UsedMore(pages[p], record);
      pages := pages[p := pages[p] + [record]];
      if tx.readOnly {
        return loc, false;
      }
      if FreeSpace(pages[p]) < HEADER_BYTES + SLOT_SIZE {
        activePages := activePages[..i] + activePages[i + 1..];
      }
      ok := true;
    }

    /** The loop over the active pages. */
    method FindRoom(needed: nat) returns (i: nat)
      requires forall i :: 0 <= i < |activePages| ==> activePages[i] in pages
      ensures i == FirstRoom(pages, activePages, needed, 0)
    {
      i := 0;
      while i < |activePages| && FreeSpace(pages[activePages[i]]) < needed
        invariant 0 <= i <= |activePages| && FirstRoom(pages, activePages, needed, 0)
                  == FirstRoom(pages, activePages, needed, i)
      {
        i := i + 1;
      }
    }

    /** The bytes of a new version; a long payload goes to an overflow chain first. */
    method BuildRecord(tx: Transaction, payload: Option<Bytes>, id: nat, prev: nat) returns (record: Bytes, ok: bool)
      requires id < U64_LIMIT && prev < U64_LIMIT && tx.id < U64_LIMIT
      requires nextPage + PayloadSize(payload) < INVALID_PAGE && SpaceOk()
      modifies this`overflow, this`nextPage
      ensures SpaceOk() && OverflowGrows(old(overflow), overflow) && (!ok ==> tx.readOnly)
      ensures nextPage <= old(nextPage) + PayloadSize(payload)
      ensures ok ==> HEADER_BYTES <= |record| <= HEADER_BYTES + MAX_INLINE
                     && DecodeHeader(record).prev == prev && DecodeHeader(record).recordId == id
      ensures ok ==> Encodes(overflow, record, Version(tx.id, payload))
    {
      hide HoldsAll, DecodeHeader, EncodeHeader, Be, Val;
      var flags := if payload == None then FLAG_DELETED else 0;
      var length := PayloadSize(payload);
      if length > MAX_INLINE {
        flags := flags + FLAG_OVERFLOW;
        var first;
        first, ok := WriteOverflow(tx, payload.value);
        if !ok {
          return [], false;
        }
        var h := Header(id, tx.id, 0, prev, flags, length % U32_LIMIT);
        PointerRoundTrip(h, first, length % U32_LIMIT);
        record := EncodeHeader(h) + (Be(8, first) + Be(4, length % U32_LIMIT));
      } else {
        ok := true;
        var h := Header(id, tx.id, 0, prev, flags, length % U32_LIMIT);
        var body := if payload == None then [] else payload.value;
        HeaderRoundTrip(h, body);
        record := EncodeHeader(h) + body;
      }
    }

    /** Give the present version of a record a physical id of its own, so that older snapshots can reach it.
        A record that a caller has put under that id is lost. */
    method Supersede(x: nat) returns (prev: nat)
      requires Valid() && x in stable && x in directory && nextID + 1 < INVALID_ID && x != nextID + 1
      modifies this`nextID, this`directory, this`chains, this`stable
      ensures Valid() && prev == nextID == old(nextID) + 1 && stable == old(stable) - {prev}
      ensures directory.Keys == old(directory).Keys + {prev} && chains == old(chains)[prev := old(chains)[x]]
    {
      hide ChainsOk, Store.SpaceOk;
      SameKeys(directory, pages, overflow, chains, stable);
      prev := AllocateID();
      Superseded(directory, pages, overflow, chains, stable, x, prev);
      ghost var was := chains[x];
      directory, chains, stable := directory[prev := directory[x]], chains[prev := was], stable - {prev};
    }

    /** Ids a caller may pass: none, that of a record or an unused one; but not that of an old version, which
        belongs to another record, nor that of a record which the store is about to generate. */
    ghost predicate Writable(recID: nat)
      reads this
    {
      Generated(recID) || recID !in directory || (recID in stable && recID != nextID + 1)
    }

    /** Writing as the open writer, or as a reader, which is turned away. */
    ghost predicate MayTry(tx: Transaction)
      reads this, manager
    {
      && Begun(Some(tx), manager) && tx.id < U64_LIMIT
      && (tx.readOnly || (manager.writerOpen && tx.id == manager.lastTxnID))
    }

    /** The record gets one more version in front.  Of the others only the one under the generated id changes,
        if a caller has put one there. */
    method WriteRecord(tx: Transaction, payload: Option<Bytes>, recID: nat) returns (r: WriteResult)
      requires Valid() && Writable(recID) && MayTry(tx) && recID < U64_LIMIT
      requires nextID + 2 < INVALID_ID && nextPage + PayloadSize(payload) + 1 < INVALID_PAGE
      modifies this
      ensures Valid() && (r == ReadOnlyTransaction <==> tx.readOnly)
              && nextPage <= old(nextPage) + PayloadSize(payload) + 1
      ensures r.Written? ==> r.id == if Generated(recID) then old(nextID) + 1 else recID
      ensures old(chains).Keys == old(directory).Keys && old(stable) <= old(chains).Keys
              && chains.Keys == directory.Keys
      ensures nextID == if Generated(recID) || recID in old(directory) then old(nextID) + 1 else old(nextID)
      ensures var kept := if !Generated(recID) && recID in old(directory) then old(stable) - {nextID} else old(stable);
              stable == if r.Written? then kept + {r.id} else kept
      ensures var c := Superseding(old(chains), recID, old(nextID) + 1);
              chains == if r.Written? then c[r.id := [Version(tx.id, payload)] + Previous(old(chains), recID)] else c
    {
      hide ChainsOk, Store.SpaceOk;
      SameKeys(directory, pages, overflow, chains, stable);
      var prev, id := INVALID_ID, recID;
      if !Generated(recID) {
        if recID in directory {
          prev := Supersede(recID);
        }
      } else {
        id := AllocateID();
      }
      var ok := PutVersion(tx, payload, id, prev);
      r := if ok then Written(id) else ReadOnlyTransaction;
      SameKeys(directory, pages, overflow, chains, stable);
    }

    /** Store a version of record `id` in front of the chain that `prev` leads to. */
    method PutVersion(tx: Transaction, payload: Option<Bytes>, id: nat, prev: nat) returns (ok: bool)
      requires Valid() && tx.id <= manager.lastTxnID && tx.id < U64_LIMIT
               && nextPage + PayloadSize(payload) + 1 < INVALID_PAGE
      requires (id in stable || id !in directory) && !Generated(id) && id < U64_LIMIT && chains.Keys == directory.Keys
      requires prev == INVALID_ID || (id in directory && prev in directory && prev !in stable
                   && chains[prev] == chains[id])
      modifies this
      ensures Valid() && ok == !tx.readOnly && nextID == old(nextID)
              && nextPage <= old(nextPage) + PayloadSize(payload) + 1
      ensures !ok ==> stable == old(stable) && chains == old(chains)
      ensures ok ==> stable == old(stable) + {id}
      ensures ok ==> chains == old(chains)[id := [Version(tx.id, payload)] + Behind(old(chains), id, prev)]
    {
      hide ChainsOk, Encodes, DecodeHeader, Store.SpaceOk, FirstRoom, FreeSpace, Used;
      ghost var pages1, overflow1 := pages, overflow;
      var record;
      record, ok := BuildRecord(tx, payload, id, prev);
      ChainsElsewhere(directory, pages, pages, overflow1, overflow, chains, stable);
      if !ok {
        return;
      }
      var loc;
      loc, ok := AllocateSlot(tx, record);
      ChainsElsewhere(directory, pages1, pages, overflow, overflow, chains, stable);
      if ok {
        Place(id, prev, loc, Version(tx.id, payload));
      }
    }

    /** The directory entry of a record moves to its new version. */
    method Place(id: nat, prev: nat, loc: Location, ghost v: Version)
      requires Valid() && (id in stable || id !in directory) && !Generated(id) && v.begin <= manager.lastTxnID
      requires Present(pages, loc) && Encodes(overflow, At(pages, loc), v) && DecodeHeader(At(pages, loc)).prev == prev
      requires DecodeHeader(At(pages, loc)).recordId == id
      requires chains.Keys == directory.Keys
      requires prev == INVALID_ID || (id in directory && prev in directory && prev !in stable
                   && chains[prev] == chains[id])
      modifies this`directory, this`chains, this`stable
      ensures Valid() && directory == old(directory)[id := loc] && stable == old(stable) + {id}
      ensures chains == old(chains)[id := [v] + Behind(old(chains), id, prev)]
    {
      hide ChainsOk, Encodes, DecodeHeader, Store.SpaceOk;
      Prepended(directory, pages, overflow, chains, stable, id, prev, loc, v);
      ghost var vs := [v] + Behind(chains, id, prev);
      directory, chains, stable := directory[id := loc], chains[id := vs], stable + {id};
    }

    /** A read reports the newest version at or below the transaction's id, among the newest 1000. */
    method ReadRecord(tx: Option<Transaction>, recID: nat) returns (r: ReadResult)
      requires Valid() && Begun(tx, manager)
      ensures r == if recID in chains then Reported(ValueAt(Reach(chains[recID]), Bound(tx, manager.metaLast)))
                     else NotFound
    {
      hide ChainsOk, Encodes, DecodeHeader, Store.SpaceOk, IsVisible;
      SameKeys(directory, pages, overflow, chains, stable);
      var cur, visited := recID, 0;
      var snapshot, active := if tx.Some? then tx.value.snapshot else MAX_TXN, if tx.Some? then tx.value.id else 0;
      ghost var vs, bound := if recID in chains then chains[recID] else [], Bound(tx, manager.metaLast);
      while cur != INVALID_ID && cur != 0 && visited < MAX_VISITED
        invariant 0 <= visited <= |vs| && (visited == 0 ==> cur == recID) && visited <= MAX_VISITED
        invariant visited < |vs| ==> cur in directory && chains[cur] == vs[visited..] && cur != INVALID_ID
        invariant visited == |vs| > 0 ==> cur == INVALID_ID
        invariant forall j :: 0 <= j < visited ==> vs[j].begin > bound
        decreases MAX_VISITED - visited
      {
        if cur !in directory {
          assert visited == 0 && recID !in chains;
          return NotFound;
        }
        Entry(cur);
        var record := At(pages, directory[cur]);
        var h := DecodeHeader(record);
        VersionHeader(overflow, record, vs[visited]);
        VisibleIff(h, manager, tx, snapshot, active);
        if IsVisible(h, snapshot, CommitTest(manager.committed, manager.metaLast), active) {
          assert SeenAt(Reach(vs), bound, visited);
          ValueOfSeen(Reach(vs), bound, visited);
          r := Body(record, h, vs[visited]);
          return;
        }
        visited := visited + 1;
        cur := h.prev;
      }
      if vs != [] {
        NothingSeen(Reach(vs), bound);
      }
      r := NotFound;
    }

    /** What hangs on an entry of the directory. */
    lemma {:induction false} Entry(id: nat)
      requires Valid() && id in directory
      ensures id in chains && chains[id] != [] && Present(pages, directory[id])
              && Encodes(overflow, At(pages, directory[id]), chains[id][0])
      ensures |At(pages, directory[id])| >= HEADER_BYTES
      ensures var prev := DecodeHeader(At(pages, directory[id])).prev;
              if |chains[id]| == 1 then prev == INVALID_ID
              else prev in directory && prev in chains && chains[prev] == chains[id][1..]
    {
      assert EntryOk(directory, pages, overflow, chains, stable, id);
    }

    /** The payload of a visible version, from the record itself or from its overflow chain. */
    method Body(record: Bytes, h: Header, ghost v: Version) returns (r: ReadResult)
      requires Encodes(overflow, record, v) && |record| >= HEADER_BYTES && h == DecodeHeader(record)
      ensures r == Reported(v.payload)
    {
      hide HoldsAll, DecodeHeader, Val;
      if IsDeleted(h) {
        return NotFound;
      }
      var raw := record[HEADER_BYTES..];
      if IsOverflow(h) {
        if |raw| < 12 {
          return InvalidFormat;
        }
        assert raw[0..8] == record[40..48] && raw[8..12] == record[48..52];
        var data := ReadChain(overflow, Val(raw[0..8]), Val(raw[8..12]), v.payload.value);
        return Found(data);
      }
      r := Found(raw);
    }

    /** A deletion is a version without payload. */
    method DeleteRecord(tx: Transaction, recID: nat) returns (r: WriteResult)
      requires Valid() && Writable(recID) && MayTry(tx) && recID < U64_LIMIT
      requires nextID + 2 < INVALID_ID && nextPage + 0 + 1 < INVALID_PAGE
      modifies this
      ensures Valid() && (r == ReadOnlyTransaction <==> tx.readOnly) && nextPage <= old(nextPage) + 0 + 1
      ensures r.Written? ==> r.id == if Generated(recID) then old(nextID) + 1 else recID
      ensures old(chains).Keys == old(directory).Keys && old(stable) <= old(chains).Keys
              && chains.Keys == directory.Keys
      ensures nextID == if Generated(recID) || recID in old(directory) then old(nextID) + 1 else old(nextID)
      ensures var kept := if !Generated(recID) && recID in old(directory) then old(stable) - {nextID} else old(stable);
              stable == if r.Written? then kept + {r.id} else kept
      ensures var c := Superseding(old(chains), recID, old(nextID) + 1);
              chains == if r.Written? then c[r.id := [Version(tx.id, None)] + Previous(old(chains), recID)] else c
    {
      hide ChainsOk, Store.SpaceOk;
      r := WriteRecord(tx, None, recID);
    }
  }

  /** The versions there were, behind versions of transactions above s only. */
  ghost predicate ChainGrown(vs: seq<Version>, vs': seq<Version>, s: nat) {
    exists newer :: IsNewer(newer, s) && vs' == newer + vs
  }

  ghost predicate IsNewer(newer: seq<Version>, s: nat) {
    forall j :: 0 <= j < |newer| ==> newer[j].begin > s
  }

  /** What a reader at s gets after later writers: the same value, exactly while fewer than 1000 versions are
      too new for it; one that got nothing gets nothing. */
  lemma {:induction false} GrownReads(vs: seq<Version>, vs': seq<Version>, s: nat)
    requires ChainGrown(vs, vs', s)
    ensures ValueAt(vs', s) == ValueAt(vs, s)
    ensures ValueAt(Reach(vs), s).Some?
            ==> (ValueAt(Reach(vs'), s) == ValueAt(Reach(vs), s) <==> Newer(vs', s) < MAX_VISITED)
    ensures ValueAt(Reach(vs'), s) == if Newer(vs', s) < MAX_VISITED then ValueAt(vs, s) else None
  {
    var newer :| IsNewer(newer, s) && vs' == newer + vs;
    SnapshotStable(newer, vs, s);
    NewerGrows(newer, vs, s);
    if ValueAt(Reach(vs), s).Some? { ReadStable(newer, vs, s); }
    ReachDecides(vs', s);
  }

  /** A version is visible if it was begun by then and had not ended before the snapshot; a version that has not
      ended has end 0. */
  lemma {:induction false} VisibleIff(h: Header, manager: TxnManager, tx: Option<Transaction>, snapshot: nat,
                                      active: nat)
    requires manager.Valid() && manager.CommitOnly() && Begun(tx, manager)
    requires h.beginTxn < U64_LIMIT && h.endTxn < U64_LIMIT
    requires snapshot == (if tx.Some? then tx.value.snapshot else MAX_TXN)
             && active == (if tx.Some? then tx.value.id else 0)
    ensures IsVisible(h, snapshot, CommitTest(manager.committed, manager.metaLast), active) <==>
              && h.beginTxn <= Bound(tx, manager.metaLast)
              && !(0 < h.endTxn <= if tx.Some? then tx.value.snapshot else manager.metaLast)
  {
  }

  lemma {:induction false} VersionHeader(ov: Overflow, b: Bytes, v: Version)
    requires Encodes(ov, b, v)
    ensures |b| >= HEADER_BYTES && DecodeHeader(b).beginTxn == v.begin < U64_LIMIT && DecodeHeader(b).endTxn == 0
  {
    ValBound(b[8..16]);
    Widths();
  }

  const MAX_TXN := 0xFFFF_FFFF_FFFF_FFFF

  function PayloadSize(payload: Option<Bytes>): nat {
    if payload.Some? then |payload.value| else 0
  }

  lemma {:induction false} SameKeys(dir: Directory, pages: Pages, ov: Overflow, chains: Chains, stable: set<nat>)
    requires ChainsOk(dir, pages, ov, chains, stable)
    ensures chains.Keys == dir.Keys && stable <= dir.Keys
  {
  }

  lemma {:induction false} PointerRoundTrip(h: Header, first: nat, total: nat)
    requires InRange(h) && first < U64_LIMIT && total < U32_LIMIT
    ensures var b := EncodeHeader(h) + (Be(8, first) + Be(4, total));
            |b| == HEADER_BYTES + 12 && DecodeHeader(b) == h && Val(b[40..48]) == first && Val(b[48..52]) == total
  {
    hide Be, Val, Pow256, DecodeHeader, EncodeHeader;
    HeaderRoundTrip(h, Be(8, first) + Be(4, total));
    var b := EncodeHeader(h) + (Be(8, first) + Be(4, total));
    assert b[40..48] == Be(8, first) && b[48..52] == Be(4, total);
    Widths();
    ValOfBe(8, first);
    ValOfBe(4, total);
  }

  /** None of these pages was in use. */
  ghost predicate Apart(ps: seq<nat>, ov: Overflow) {
    forall i :: 0 <= i < |ps| ==> ps[i] !in ov
  }

  lemma {:induction false} GrowsFurther(ov: Overflow, ov1: Overflow, ov2: Overflow, ps: seq<nat>, p: nat)
    requires OverflowGrows(ov, ov1) && Apart(ps, ov) && ov2.Keys == ov1.Keys + {p} && p !in ov1
    requires forall q :: q in ov1 && q !in ps ==> ov2[q] == ov1[q]
    ensures OverflowGrows(ov, ov2) && Apart(ps + [p], ov)
  {
  }

  lemma {:induction false} NothingHeld(ov: Overflow, data: Bytes)
    ensures Holds(ov, [], data) && Rest(data, 0) == data && OverflowGrows(ov, ov) && Apart([], ov)
  {
  }

  /** What is left after i chunks. */
  ghost function Rest(data: Bytes, i: nat): Bytes {
    if i * MAX_CHUNK < |data| then data[i * MAX_CHUNK..] else []
  }

  lemma {:induction false} ChunkOf(data: Bytes, i: nat)
    requires Rest(data, i) != []
    ensures var rest := Rest(data, i);
            var n := if |rest| > MAX_CHUNK then MAX_CHUNK else |rest|;
            i * MAX_CHUNK < |data| && 0 < n && rest[..n] == Chunk(data, i) && rest[n..] == Rest(data, i + 1)
  {
  }

  lemma {:induction false} AllWritten(ov: Overflow, ps: seq<nat>, data: Bytes)
    requires Holds(ov, ps, data) && ps != [] && Rest(data, |ps| - 1) != [] && Rest(data, |ps|) == []
    ensures HoldsAll(ov, ps[0], data)
  {
    assert IsChain(ov, ps, ps[0], data);
  }
}
