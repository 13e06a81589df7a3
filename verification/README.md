# CoCoDB in Dafny

A Dafny model of the storage kernel of CoCoDB, an embedded database written in Go, and of the engines
directly above it, with proofs that they keep what they promise. `dafny verify dfyconfig.toml` checks
everything.

| component | modules |
|---|---|
| byte strings, big-endian numbers, heaps | `ByteOrder`, `BigEndian`, `PageBytes`, `Options`, `Heaps` |
| paged B+tree | `Cells`, `BTreeLevels`, `BTreeSteps`, `BTreeContents`, `BTreeWay`, `BTreeUniform`, `BTreeLookup`, `BTreeLosses`, `BTree`, `Cursor` |
| slotted pages | `SlottedLayout`, `Compaction`, `SlottedPage`, `NodePages`, `InternalPages` |
| write-ahead log and recovery | `WalRecords`, `Wal`, `Recovery`, `TornLog` |
| versioned records | `RecordHeader`, `OverflowChain`, `Snapshots`, `VersionStore`, `Sessions` |
| vector index | `BeamSearch`, `Pruning`, `GreedyWalk`, `HnswGraph`, `Hnsw`, `Connectivity`, `ExactSearch` |
| codecs | `KeyCodec`, `CsonLayout`, `Cson`, `CsonEncoder`, `CsonView`, `CsonErrors`, `MessageCodec` |
| queue engine | `QueueEngine`, `QueueRuns`, `QueueRestore` |
| pager support | `PageAllocator`, `MetaPages`, `CacheShard`, `PagerCache`, `HashRing` |

Objects that the program changes in place are classes whose methods state their whole new state through a
specification function or a ghost field; loops are loops with invariants. The checksum, the distance
function, the hash function, random levels and the clock are parameters.

## Main results

* **B+tree.** A tree is a map of pages. `WellFormed` lists the levels of the tree from the leaves up and
  says that each level expands to the one beneath, that fences bound what lies under them, and that the
  leaf chain is the leaf level. `Tree.Insert` succeeds if and only if the sizes are legal and `InsertFits`
  holds, a condition on the tree before the call that follows the split up the descent path; it then
  updates the map the tree stands for. `BTree.Run` carries this over every run of insertions and deletions.
  After a refusal the pages form no tree; `BTreeLookup` says of every key what a search still finds, and
  `BTreeLosses` that a stored key is lost.
* **Cursor.** The cursor's views `Ahead` and `Behind` are sequences of cells. A scan from the first leaf
  yields every cell if and only if no empty leaf is followed by a cell; `Seek` likewise for the cells from
  its target on, and a scan back from the last leaf. Range and prefix scans visit the matching run of cells,
  until the callback stops, if and only if no cell of the run itself is hidden behind an empty leaf.
* **Slotted page.** At byte level: the page stands for a list of optional records, every operation is a
  change of that list, `Insert` reports a full page exactly when the packed records would not fit, and so
  the `SetItems` of leaves and internal pages succeed exactly when what they are given fits.
* **Log and recovery.** A log cut at any byte yields the whole records before the cut, and redo of them
  applies a prefix of the history to the disk, whole transactions only. `Manager.Commit` only appends, so a
  crash between two of its appends leaves a prefix of the file that the finished commit would have left: it
  is one of the cuts. The prefix has every transaction whose last record lies before the cut, hence every
  synced one. A session's log reads back as appended if and only if no torn bytes stand before it.
* **Versions.** A read returns the newest version at or below the transaction's id among the newest 1000
  of the chain. `Sessions.ReaderOverRun` runs any sequence of Begin, Commit, WriteRecord and DeleteRecord
  after a reader has begun with no writer open, and reads any id: the answer stays the same exactly while
  fewer than 1000 versions are too new, for every id, used or not, that the run has not given to an old
  version of a record. A writer reads its own last write, also of records it has made itself.
* **HNSW.** `SearchLayer` terminates, returns only nodes reachable from the entry and, with a beam as wide as
  these, all of them; `Search` gives the first k of what the beam finds from where the greedy walks of the upper
  levels end, which is one node only; `Insert` keeps the graph sound and says which lists change and how; `Search` is exact
  where the graph is connected and the beam wide enough, and then agrees with `ExactTopK`. An insert that
  cuts no list keeps the graph connected, so every index of at most one node more than a list may have is.
* **CSON.** Decoding an encoded value gives `Norm(v)`, for every value whose lengths fit their fields and
  every later dictionary; `Norm` is the identity exactly on values in which no array ends in an item that
  encodes to no bytes.
* **Keys.** The byte order of composite keys is the order of the tuples; on finite floats it is the
  numeric order, with minus zero just below zero.
* **Queue.** In every run (`QueueRuns.Run`) what is handed out is a message that was enqueued, with its payload
  and priority, not past its time limit, and the first time not before it is to be visible. Every accepted message is in exactly one of five places and is handed out at most as often as
  its retries allow; the store holds the encodings of the live messages. A restart brings back what a cursor
  meets in the stored tree.
* **Pager.** No run of the allocator hands out a page in use; reopening a file finds the last saved meta
  page or a later attempt, after any run of saves and crashes; every cached page stays pinned, so that nothing dirty is ever evicted, also
  where a page is put over a cached one.

## Where the code falls short of its promise

Each of these is kept as it is in the code and has a lemma or an exact condition.

* A split divides cells by count. With very different sizes one half may not fit, and the insert is refused
  although key and value are legal (`BTree.SkewedInsertRefused`); with one size it never is
  (`BTree.Tree.Insert`, last clause).
* A refused insert destroys stored data. The left page has been rewritten, the new right page is reached
  from nowhere. Search then finds exactly the keys `BTreeLookup.Kept` (`BTree.Tree.Insert`): where the leaf
  refuses, all cells of its upper half are gone, at least one stored key among them
  (`BTreeLookup.UpperHalfLost`), while the refused key itself may be found. At whatever level it is refused,
  a stored key is lost if no leaf is empty (`BTreeLosses.RefusalLoses`).
* Delete leaves empty leaves, and the cursor stops at one (`Cursor.EmptyLeafHidesKeys`, `Cursor.ScanComplete`,
  `Cursor.SeekMeaning`, `Cursor.ScanAheadIff`).
* A reader begun while a writer is open shares the writer's id and sees its uncommitted versions; it is
  isolated if and only if no writer is open at its Begin (`Sessions.BeginReader`, `Sessions.ReadAcrossWrite`,
  `Sessions.DirtyRead`). A snapshot loses a record once 1000 newer versions exist (`RecordHeader.ReadStable`).
* WriteRecord puts the superseded version into the directory under the next generated id. A reader that got
  nothing under that id then gets what it sees of the record (`Sessions.AliasAppears`): nothing does not stay
  nothing exactly for such ids (`Sessions.ReaderOverRun`).
* A record that a caller writes under an id the store is still to generate is overwritten by the next new
  record (`Sessions.OverwrittenByNew`).
* A transaction that was rolled back counts as committed once a later one commits (`Snapshots.AbortedCounts`).
* Recovery does not restore the last transaction id. Versions above the id in the meta page are brought back but
  not visible, until new writers have used the same ids again (`Sessions.AfterReopen`).
* The search for the oldest snapshot uses 0 for "none yet". It is right in every order of the reader table if
  and only if no reader is at 0 or no other reader is (`Snapshots.OldestIff`, `Snapshots.ZeroForgets`); it
  only decides which ids are pruned, and pruning never changes the commit test.
* A payload comes back cut to its length modulo 2^32, whole exactly below 4 GiB (`VersionStore.StoredWholeIff`).
* Recovery that finds no whole record leaves the file as it is, and the next session appends behind it
  (`Recovery.Restart`). Its log does not read back, whatever the bytes are (`TornLog.ReadsBackIff`): behind
  bytes that are wrong, or behind one byte of a record, a synced commit is not recovered
  (`TornLog.InvalidBlocks`, `TornLog.SyncedCommitLost`), and a torn header can be completed by the next record
  to one that nobody has written (`TornLog.Spliced`).
* Redo rewrites only pages that have an image in the log. Recovery gives the state after a prefix of the
  history, seen from the disk at the start of the log, if and only if all other pages are as they were then
  (`Recovery.Manager.CrashFromStart`); flushing the pages of an open writer breaks that.
* An array whose last item encodes to no bytes does not decode (`Cson.NormIsIdentityIff`).
* A restart of the queue stops at the first empty leaf of the stored tree, which acknowledging messages leaves
  behind: all stored messages come back if and only if no empty leaf is followed by a cell
  (`QueueRestore.Restore`, `QueueRestore.WalksAllIff`).
* Enqueue accepts the id of a live message, after which no set of messages fits heap and leases any more
  (`QueueEngine.AcceptableIff`). What is rejected after Close is neither stored nor a dead letter
  (`QueueEngine.Engine.RejectedAfterClose`).
* Cutting a neighbour list can leave a node to which nothing leads (`Connectivity.CutOffByInsert`).
* A delayed message of high priority holds up due messages behind it (`QueueEngine.DelayedHeadBlocks`).
* A free-list node that has been emptied while others follow it is never used again
  (`PageAllocator.Allocator.Allocate`, `PageAllocator.Run`), and a new empty root hides the entries of older
  nodes: the next allocation extends the file (`PageAllocator.HiddenEntries`).
* The pager drops what the cache evicts; only the pins keep dirty pages from being lost (`PagerCache.PlacedCoherent`).
* In `findLeftmostLeaf` the fallback to the rightmost child is never taken: an internal node always has an item.

## Model

| member | source | states |
|---|---|---|
| `ByteOrder.RankIsOrderEmbedding` | internal/btree/node.go:154-172 | the order of bytes.Compare embeds in the reals |
| `Cells.OverflowCounts` | internal/btree/tree.go:144-151 | an overfull leaf has at least 3 cells and an overfull internal node at least 8 items, so no half of a split is empty |
| `BTree.BinarySearch` | internal/btree/node.go:154-172 | the index is the lower bound of the key in the leaf, and found says whether the key is there |
| `BTree.RouteChild` | internal/btree/node.go:273-301 | the child is the one whose fences enclose the key |
| `BTree.Tree.Descend` | internal/btree/tree.go:104-118 | the path from the root to the covering leaf, one page per level |
| `BTree.Tree.Search` | internal/btree/tree.go:42-68 | finds what the descent leads to, in a tree and after a refused insert alike; in a tree it agrees with the map the tree stands for, for every key |
| `BTreeLookup.TreeAnswers` | internal/btree/tree.go:42-68 | the descent of a well-formed tree finds exactly the pairs of its map |
| `BTree.Tree.Delete` | internal/btree/tree.go:269-295 | the map without the key; the tree stays well formed |
| `BTree.Tree.StepUp` | internal/btree/tree.go:184-252 | one parent absorbs a split or splits itself; the pending split moves up a level |
| `BTree.Tree.Propagate` | internal/btree/tree.go:184-266 | the pending split is carried to a parent with room or to a new root |
| `BTree.Tree.Insert` | internal/btree/tree.go:71-266 | done if and only if the sizes are legal and both halves fit at every split on the way; then the map with the key updated; with cells of one size always done; when refused, every search finds the updated map's answer for the kept keys and nothing for the others |
| `BTreeLookup.LeafRefuses` | internal/btree/tree.go:151-173 | when a half of the leaf does not fit, exactly the keys outside the leaf and those left in its page are found |
| `BTreeLookup.RefusedAbove` | internal/btree/tree.go:227-252 | when a half of a parent does not fit, exactly the keys that its truncated page still leads to are found |
| `BTreeLookup.UpperHalfLost` | internal/btree/tree.go:144-173 | after a refusal at the leaf no key of its upper half is found, and at least one of them was stored |
| `BTreeLosses.RefusalLoses` | internal/btree/tree.go:144-252 | where no leaf is empty, every insertion refused for want of room, at a leaf or at any level above, loses a stored key |
| `BTree.Run` | internal/btree/tree.go:42-295 | any run of insertions and deletions without error ends in a well-formed tree holding what a plain map holds after the same run; with one cell size there is no error; whatever happens, a search can run |
| `BTree.SkewedInsertRefused` | internal/btree/tree.go:151-173 | a concrete well-formed tree and a legal cell that cannot be inserted; the refusal loses four of five stored keys |
| `BTreeContents.LeafDecides` | internal/btree/tree.go:120-142 | the whole map depends on a key through its covering leaf alone |
| `BTreeSteps.LeafSplit` | internal/btree/tree.go:144-182 | splitting a leaf keeps order, bounds and the leaf chain, with one split pending |
| `BTreeWay.SplitMovesUp` | internal/btree/tree.go:227-252 | splitting a parent keeps the invariant of the pending split one level up |
| `BTreeUniform.UniformFits` | internal/record/directory.go:37-51 | with keys and values of one size every split fits |
| `Cursor.ScanComplete` | internal/btree/cursor.go:61-83 | a scan from the first leaf lists all cells if and only if no empty leaf comes before a cell |
| `Cursor.BackScanComplete` | internal/btree/cursor.go:86-108 | a scan back from the last leaf lists all cells if and only if no cell comes before an empty leaf |
| `Cursor.EmptyLeafHidesKeys` | internal/btree/cursor.go:74-79 | a concrete tree with a key that First does not find |
| `Cursor.SeekMeaning` | internal/btree/cursor.go:111-154 | what Seek lands on is the least key not below its target; it misses such a key exactly if the covering leaf has none and the next leaf is empty; it leads on to all that follow if and only if no empty leaf after the covering one comes before a cell |
| `Cursor.ScanAheadIff` | internal/btree/cursor.go:260-276 | from a start key or from the first cell, a scan meets all cells from there on if and only if no empty leaf intervenes |
| `Cursor.VisitUntil` | internal/btree/cursor.go:240-284 | the callback sees the cells in order, up to and with the first for which it answers no |
| `Cursor.FindLeftmostLeaf` | internal/btree/tree.go:314-335 | the first leaf of the chain |
| `Cursor.FindRightmostLeaf` | internal/btree/tree.go:338-354 | the last leaf of the chain |
| `Cursor.Cursor.First` | internal/btree/cursor.go:61-83 | everything up to the first empty leaf lies ahead; behind lies only the current cell |
| `Cursor.Cursor.Last` | internal/btree/cursor.go:86-108 | everything back to the last empty leaf lies behind; ahead lies only the current cell |
| `Cursor.Cursor.Next` | internal/btree/cursor.go:157-188 | the view ahead loses its first cell, and the view behind gains the new one |
| `Cursor.Cursor.Prev` | internal/btree/cursor.go:191-222 | the view behind loses its last cell, and the view ahead gains the new one |
| `Cursor.Cursor.Seek` | internal/btree/cursor.go:111-154 | the view ahead is what SeekMeaning describes |
| `Cursor.RangeScanExact` | internal/btree/cursor.go:260-284 | for bounds given or left open and any callback, the scan is that of the run of cells between the bounds, until the callback stops, if no cell of the run is hidden behind an empty leaf; and only then if the callback does not stop it |
| `Cursor.PrefixScanExact` | internal/btree/cursor.go:240-257 | for any callback, the scan is that of the run of cells with the prefix, until the callback stops, if no cell of the run is hidden behind an empty leaf; and only then if the callback does not stop it |
| `SlottedPage.Page.Insert` | internal/storage/slotted.go:73-112 | full exactly when directory and live bytes with the new record exceed the page; else the first free slot holds the record and no other slot changes |
| `SlottedPage.Page.Get` | internal/storage/slotted.go:115-129 | the record of the slot, or none |
| `SlottedPage.Page.Update` | internal/storage/slotted.go:147-180 | the slot holds the new record, or the page is reported full with its records unchanged |
| `SlottedPage.Page.Delete` | internal/storage/slotted.go:183-213 | the slot is empty and trailing empty slots are dropped |
| `SlottedPage.TrimIs` | internal/storage/slotted.go:193-204 | what is cut off are empty slots, and what is left ends in a record |
| `SlottedPage.Page.Compact` | internal/storage/slotted.go:216-252 | the same records, packed against the end of the page |
| `Compaction.MoveRecord` | internal/storage/slotted.go:237-245 | moving one record keeps those already moved and those still to move |
| `Compaction.SortCorrect` | internal/storage/slotted.go:229-231 | the active slots sorted by offset are the same slots |
| `NodePages.CellRoundTrip` | internal/btree/node.go:72-87 | a cell is read back from its payload |
| `NodePages.SetItems` | internal/btree/node.go:114-151 | succeeds exactly when the cells fit; Items then returns them; the chain links survive |
| `NodePages.Items` | internal/btree/node.go:91-111 | the cells of the page in slot order |
| `InternalPages.ItemRoundTrip` | internal/btree/node.go:206-225 | an item is read back from its payload |
| `InternalPages.SetItems` | internal/btree/node.go:228-263 | succeeds exactly when the items fit; Items then returns them, and the rightmost child is read back |
| `InternalPages.Items` | internal/btree/node.go:206-225 | the items of the page in slot order |
| `WalRecords.RecordRoundTrip` | internal/wal/record.go:75-154 | a record followed by anything decodes to itself |
| `WalRecords.CutRecordIsTorn` | internal/wal/record.go:95-154 | a record cut anywhere is recognised as torn |
| `WalRecords.DecodedIs` | internal/wal/record.go:95-154 | what decodes has the bytes of its record, checksum included, but for the version |
| `WalRecords.ReadAll` | internal/wal/wal.go:116-149 | the records before the first that does not decode |
| `WalRecords.ScanOfCut` | internal/wal/wal.go:116-149 | a log cut at any byte yields exactly the whole records before the cut |
| `Wal.Log.Append` | internal/wal/wal.go:60-73 | the log is the old records and the new one with the next LSN |
| `Wal.Log.Flush` | internal/wal/wal.go:76-89 | every record up to the target, which may be above the last LSN, is on stable storage |
| `Wal.Log.CrashKeepsDurable` | internal/wal/wal.go:76-101 | what survives a crash has every durable record |
| `Recovery.Recover` | internal/wal/recovery.go:17-88 | each page holds the last whole-page image of a transaction with a commit record, or what it held; the next page id is not lowered, lies beyond every such page and no farther than it must; the last LSN is the highest scanned; without a record disk, meta fields and file are as they were |
| `Recovery.Restart` | db.go:109-139 | opening the surviving bytes and recovering starts a session with an empty log, or one behind the bytes if no record is found in them |
| `TornLog.ReadsBackIff` | internal/wal/wal.go:22-35 | the log of a session reads back as appended, for every cut, if and only if no torn bytes stand before it; for begin records of ids below 2^32 other than the magic number, and a checksum that is 0 on nothing |
| `TornLog.FirstRecordLost` | internal/wal/record.go:95-154 | behind torn bytes of any kind the first record of a session is not read back |
| `TornLog.InvalidBlocks` | internal/wal/wal.go:133-146 | behind bytes with a wrong magic number or checksum nothing is read |
| `TornLog.SyncedCommitLost` | internal/wal/recovery.go:27-29 | behind one byte of a torn record a session commits and syncs, and no cut of the file yields a record |
| `TornLog.Spliced` | internal/wal/record.go:95-154 | a begin record cut behind 16 bytes and the next one decode as a record with LSN 0x434F43 |
| `Recovery.RedoAt` | internal/wal/recovery.go:46-68 | each page holds its last image from a committed transaction, or what it held |
| `Recovery.RedoForgets` | internal/wal/recovery.go:46-68 | pages with an image do not depend on the disk before |
| `Recovery.RedoSameIff` | internal/wal/recovery.go:46-68 | two disks are the same after redo if and only if they agree on the pages without an image |
| `Recovery.RedoTwice` | internal/wal/recovery.go:46-68 | redoing the same log again changes nothing |
| `Recovery.RedoPrefix` | internal/txn/manager.go:147-167 | redo of a log cut anywhere is the state after a prefix of the transactions: all or nothing for each |
| `Recovery.Manager.Begin` | internal/txn/manager.go:96-122 | the log has the begin record of the next id |
| `Recovery.Manager.Commit` | internal/txn/manager.go:125-181 | the log has every page image and the commit record behind the old file, synced as the mode says |
| `Recovery.Manager.Rollback` | internal/txn/manager.go:200-232 | the log has the abort record |
| `Recovery.Manager.CrashRecovery` | internal/wal/recovery.go:17-88 | for every cut of a file without torn bytes in front, a cut inside a commit included, recovery applies a prefix of the history to the disk, with every transaction that lies before the cut; if nothing synced is cut off, with every synced one |
| `Recovery.Manager.CrashFromStart` | internal/wal/recovery.go:17-88 | recovery gives the state after that prefix seen from the disk at the start of the log if and only if the crash-time disk agrees with it on every page the surviving log does not rewrite |
| `RecordHeader.HeaderRoundTrip` | internal/record/record.go:29-59 | a header is read back whatever follows it |
| `RecordHeader.SnapshotStable` | internal/record/version.go:132-199 | versions of later transactions do not change what a snapshot sees |
| `RecordHeader.BoundedReadExact` | internal/record/version.go:143-197 | a read of at most 1000 versions is right if and only if fewer than 1000 are too new or there is nothing to see |
| `RecordHeader.ReadStable` | internal/record/version.go:143-197 | a reader keeps seeing a value exactly while fewer than 1000 versions are newer than it |
| `OverflowChain.ReadChain` | internal/record/version.go:349-367 | the first bytes of the payload the chain holds |
| `OverflowChain.Appended` | internal/record/version.go:322-343 | adding a page and linking it from the last keeps the chain |
| `Snapshots.OldestActive` | internal/txn/reader_table.go:42-57 | in the order the table is visited, the scan that takes 0 for none yet; the fallback if there is no reader |
| `Snapshots.OldestIff` | internal/txn/reader_table.go:42-57 | the scan finds the lowest snapshot in every order if and only if none is at 0 or no other is |
| `Snapshots.ZeroForgets` | internal/txn/reader_table.go:42-57 | a reader met right after one at 0 comes out as the oldest |
| `Snapshots.TxnManager.IsCommitted` | internal/txn/manager.go:75-79 | the commit test is the comparison with the last committed id, whatever has been pruned |
| `Snapshots.TxnManager.Begin` | internal/txn/manager.go:82-122 | a reader takes the newest id handed out, a writer the next |
| `Snapshots.TxnManager.Commit` | internal/txn/manager.go:125-197 | a writer's id becomes the last committed, the set keeps the ids above the oldest snapshot found, and the reader table loses the transaction |
| `Snapshots.AbortedCounts` | internal/txn/manager.go:75-79 | a transaction rolled back counts as committed once a later one commits |
| `VersionStore.Store.WriteRecord` | internal/record/version.go:39-130 | the record has one more version in front and its old one the next generated id; no other record changes but one that a caller has put under that id; a read-only transaction is refused but still uses up an id |
| `VersionStore.Store.ReadRecord` | internal/record/version.go:132-199 | the newest version at or below the transaction's id among the newest 1000, from the record or its overflow chain |
| `VersionStore.Store.DeleteRecord` | internal/record/version.go:269-272 | as a write, of a deletion |
| `VersionStore.Store.AllocateSlot` | internal/record/version.go:274-316 | the record goes to the first active page with room, or a new one, and a page that is full is no longer active; no stored record moves and no page is overfull |
| `VersionStore.RoomIsRoom` | internal/storage/slotted.go:65-71 | the free space counted is that of the slotted page |
| `VersionStore.Store.WriteOverflow` | internal/record/version.go:318-347 | a chain holds the payload, and no overflow page in use changes |
| `VersionStore.StoredWholeIff` | internal/record/version.go:318-367 | a payload is stored whole if and only if its length fits 32 bits |
| `VersionStore.GrownReads` | internal/record/version.go:132-199 | when only versions above a snapshot have been added, its value is the same, and a read finds it exactly while fewer than 1000 versions are too new |
| `Sessions.Run` | internal/record/version.go:39-130 | any run of begins, commits, writes and deletions, of old records, new ones and ids of the caller's own up to 1000: every id has the versions it stood for behind newer ones, and the ids that have become old versions are exactly the new ones that name no record |
| `Sessions.ReaderOverRun` | internal/record/version.go:132-199 | what a reader begun with no writer open gets for any id before and after any such run: the same, exactly while fewer than 1000 versions are too new, unless the run has made the id an old version of a record; then what it sees of that record |
| `Sessions.AliasAppears` | internal/record/version.go:54-68 | in every store with room and for every record: a reader gets nothing for the next generated id, and after a later write of the record what it sees of the record |
| `Sessions.OverwrittenByNew` | internal/record/version.go:34-37 | a record under an id still to be generated is overwritten by the next new record |
| `Sessions.BeginReader` | internal/txn/manager.go:82-94 | a reader is isolated from every later write if and only if no writer is open at its Begin |
| `Sessions.ReadAcrossWrite` | internal/txn/manager.go:82-122 | a reader's answer across a write of the open or next writer: the same if no writer was open at its Begin, the uncommitted payload if one was |
| `Sessions.DirtyRead` | internal/txn/manager.go:84-91 | a concrete run in which a reader gets what no transaction has committed |
| `Sessions.WriterReadsOwn` | internal/record/version.go:39-199 | after any writes of a transaction, to old and new records and its own ids, it reads of each record its own last write, or else the value before |
| `Sessions.AfterReopen` | internal/txn/manager.go:40-79 | a recovered version above the saved transaction id is not visible at once; the first new writer, and all readers once it has committed, see the one that has the same id |
| `VersionStore.VisibleIff` | internal/record/record.go:62-80 | in commit-only runs a version is visible exactly if its transaction id is at most the reader's and it had not ended at the reader's snapshot |
| `Heaps.Push` | internal/vector/distance.go:161-172 | the heap order holds and the element is added |
| `Heaps.Pop` | internal/vector/distance.go:174-199 | the top is removed and the heap order holds |
| `Hnsw.Index.SearchLayer` | internal/vector/hnsw.go:257-298 | at most ef distinct nodes reachable from the entry, by ascending distance; neighbours of results are in the result or beaten by it; with a beam as wide as the reachable nodes, exactly those |
| `BeamSearch.ReachableIs` | internal/vector/hnsw.go:257-298 | the nodes reachable from an entry are the least closed set around it |
| `Pruning.Prune` | internal/vector/hnsw.go:312-345 | at most m of the neighbours, none farther than one left out |
| `HnswGraph.SetListSound` | internal/vector/hnsw.go:146-158 | replacing one neighbour list by a legal one keeps the graph sound |
| `HnswGraph.Degrees` | internal/vector/hnsw.go:133-158 | no list is longer than M0 on level 0 and M above, and links lead to other nodes of the level |
| `Hnsw.Index.Greedy` | internal/vector/hnsw.go:117-131 | each pass moves to the first of the nearest neighbours, while that is nearer; the walk ends at a node no neighbour of which is nearer |
| `GreedyWalk.DescendsUnique` | internal/vector/hnsw.go:182-198 | the walks from level to level down end at one node only |
| `GreedyWalk.DescentNearer` | internal/vector/hnsw.go:182-198 | they end no farther than the entry point and, if there are upper levels, than each of its neighbours on the highest |
| `Hnsw.Index.Insert` | internal/vector/hnsw.go:83-171 | the graph stays sound and the entry point at the top level; on shared levels the new node links to the nearest that a beam search finds, on the highest from where the greedy walks end and below that from the nearest node of the level above, and they link back, cut to the nearest; no other list changes |
| `Hnsw.Index.Search` | internal/vector/hnsw.go:174-213 | the first k of what the beam search on level 0 finds from where the greedy walks end, nearest first, and so none or the first at least as near as the entry point and its neighbours on the highest level; the k nearest of all if level 0 is connected and the beam as wide as the graph |
| `Connectivity.StaysConnected` | internal/vector/hnsw.go:146-158 | where no neighbour list is cut, an insert keeps level 0 connected |
| `Connectivity.Build` | internal/vector/hnsw.go:83-171 | any run of insertions of at most one node more than a list may have leaves a connected index |
| `Connectivity.CutOffByInsert` | internal/vector/hnsw.go:146-158 | three insertions after which the search from the entry point cannot reach the second node |
| `ExactSearch.ExactTopK` | internal/vector/distance.go:202-225 | the k nearest eligible candidates, nearest first |
| `ExactSearch.EligibleIff` | internal/vector/distance.go:202-210 | a match is a candidate as often as its id is, if that has a vector of the query's dimension at that distance |
| `ExactSearch.EligibleIsMatches` | internal/vector/distance.go:202-225 | for ids that list the index once, the candidates of the exhaustive search are its nodes at their distances |
| `ExactSearch.SearchAgrees` | internal/vector/hnsw.go:174-213 | where level 0 is connected and the beam wide enough, Search and ExactTopK return the same number of matches at the same distances |
| `KeyCodec.EncodeEscaped` | internal/btree/encoding.go:104-137 | tag, escaped bytes and terminator |
| `KeyCodec.ComponentCode` | internal/btree/encoding.go:26-146 | codes of different values differ at a position both have, and compare as the values do |
| `KeyCodec.FloatsAsNumbers` | internal/btree/encoding.go:75-86 | on finite floats code order is numeric order, with minus zero below zero |
| `KeyCodec.NumberRoundTrip` | internal/btree/encoding.go:41-100 | the decoders give numbers back and refuse other types |
| `KeyCodec.CutNumberRefused` | internal/btree/encoding.go:41-100 | a code cut short is refused |
| `KeyCodec.EncodeComposite` | internal/btree/encoding.go:149-155 | the concatenation of the parts |
| `KeyCodec.CompositeOrder` | internal/btree/encoding.go:149-155 | byte order, prefixes and equality of composite keys are those of the tuples |
| `KeyCodec.RecordIdRoundTrip` | internal/btree/encoding.go:158-172 | key and record id are recovered |
| `KeyCodec.IndexKeyOrder` | internal/index/secondary.go:53-83 | entries of an index sort by fields, then by record id |
| `KeyCodec.IndexPrefix` | internal/index/secondary.go:53-83 | an entry starts with the code of a field prefix exactly if its first fields are those |
| `CsonLayout.DocRoundTrip` | internal/cson/encode.go:66-93 | every field is found where the directory says |
| `Cson.RoundTrip` | internal/cson/decode.go:22-99 | decoding an encoded value gives its normal form, under any later dictionary |
| `Cson.NormIsIdentityIff` | internal/cson/decode.go:69-95 | nothing is lost exactly if no array ends in an item of no bytes |
| `CsonEncoder.FieldDictionary.GetOrAssignID` | internal/cson/types.go:54-73 | a known name keeps its id, a new one gets an unused id |
| `CsonEncoder.Encode` | internal/cson/encode.go:25-96 | the bytes are those of the dictionary it leaves, in whatever order fields are visited |
| `CsonEncoder.EncodeValue` | internal/cson/encode.go:98-182 | the bytes of each kind of value |
| `CsonEncoder.BodyStable` | internal/cson/types.go:54-73 | names added later do not change the bytes of a value |
| `CsonEncoder.DocumentRoundTrip` | internal/cson/decode.go:14-20 | a document comes back whole if and only if it is clean |
| `CsonView.FindField` | internal/cson/view.go:49-78 | a hit is right, and on a sorted directory a miss too |
| `CsonView.Get` | internal/cson/view.go:225-239 | on a sorted directory of known ids, the same as looking the field up in the decoded document |
| `CsonView.ToMap` | internal/cson/view.go:242-264 | the fields that decode, by name |
| `CsonView.EncodedIsView` | internal/cson/encode.go:61-93 | what Encode writes has a sorted directory of known ids |
| `CsonErrors.NotADocument` | internal/cson/view.go:25-47 | bytes too short, without the magic number or with a directory past their end are refused |
| `CsonErrors.CutItemPadded` | internal/cson/decode.go:85-88 | a last item with fewer bytes than announced is filled up with zero bytes |
| `CsonErrors.UnnamedField` | internal/cson/view.go:250-254 | a field without a name is called field_ and its id in decimal |
| `MessageCodec.MessageRoundTrip` | internal/queue/message.go:94-200 | a stored message is read back whole |
| `MessageCodec.CutMessageRefused` | internal/queue/message.go:136-200 | a stored message cut anywhere is refused |
| `MessageCodec.WrongMagicRefused` | internal/queue/message.go:136-142 | bytes that do not begin with QM are refused |
| `QueueEngine.Engine.CheckOrSet` | internal/queue/dedup.go:27-54 | an id is refused exactly while its entry has not run out; cleaning up changes no answer |
| `QueueEngine.Engine.Enqueue` | internal/queue/queue.go:109-159 | a message is accepted as ready, with the payload, priority, time limit and retry count it came with, its visibility time and retry budget if positive and now and the default if not, stored and accounted for, under any id that is not live; or refused as duplicate or closed |
| `QueueEngine.AcceptableIff` | internal/queue/queue.go:109-159 | heap and leases stand for some set of messages after one is pushed if and only if its id was not live |
| `QueueEngine.Engine.Dequeue` | internal/queue/queue.go:162-225 | what is dropped has a time limit that is reached; the message handed out has none or has not reached it, is due, outranked by none and as it came, with one more retry and a lease that ends at now and the lease time; nothing is handed out only if nothing is ready or a foremost message is delayed |
| `QueueRuns.Run` | internal/queue/queue.go:109-300 | over any run every hand-out is of a message that was enqueued, with its payload and priority, in time, and the first time not before it is to be visible; only messages with a time limit are dropped for their age |
| `QueueEngine.Engine.Ack` | internal/queue/queue.go:243-261 | an in-flight message is acknowledged and gone |
| `QueueEngine.Engine.Nack` | internal/queue/queue.go:264-300 | an in-flight message is ready again, or dead if not requeued or out of retries, and then a dead letter unless the engine is closed |
| `QueueEngine.Engine.RejectedAfterClose` | internal/queue/queue.go:343-360 | a message rejected after Close is neither stored nor a dead letter |
| `QueueEngine.Engine.Extend` | internal/queue/queue.go:303-317 | only the lease of the message changes |
| `QueueEngine.Engine.ExpireLeases` | internal/queue/queue.go:374-416 | every lease that has run out is returned or ends in the dead-letter queue with its letter; a lease that has not stays; no other message changes |
| `QueueEngine.LetterIs` | internal/queue/queue.go:276-284 | a dead letter is the message, ready at once in the dead-letter queue, with its payload and counts |
| `QueueEngine.StorableIff` | internal/queue/queue.go:147-152 | a message is stored if and only if the tree takes its key and bytes |
| `QueueEngine.Engine.EveryMessageAccounted` | internal/queue/queue.go:109-300 | an accepted message is in exactly one place, within its hand-outs, and stored exactly while it lives and fits |
| `QueueEngine.DueOrDelayed` | internal/queue/queue.go:189-193 | a message that may be handed out and a head that holds the queue up exclude each other |
| `QueueEngine.DelayedHeadBlocks` | internal/queue/queue.go:189-193 | a delayed message of higher priority keeps a due one waiting |
| `QueueEngine.HeapKeyOrder` | internal/queue/queue.go:447-454 | priority first, then visibility, as an order of numbers |
| `QueueRestore.Restore` | internal/queue/queue.go:418-441 | the stored messages that the cursor meets from the first leaf on are ready again; these are all if and only if no empty leaf is followed by a cell, and none if the first leaf is empty |
| `QueueEngine.RestoredIs` | internal/queue/queue.go:428-436 | a ready message comes back as it was, a leased one ready at once, both with their retries |
| `QueueRestore.WalksAllIff` | internal/queue/queue.go:418-441 | the walk meets every stored key if and only if no empty leaf is followed by a cell |
| `PageAllocator.Allocator.Allocate` | internal/storage/allocator.go:23-61 | the page is an entry of the root if it has one, else the next page of the file; it becomes live, a root emptied by this is retired exactly if it has a successor, and no other page changes its role |
| `PageAllocator.Run` | internal/storage/allocator.go:23-103 | over any run, pages handed out and not yet released are distinct and were not in use, and a retired page stays retired |
| `PageAllocator.HiddenEntries` | internal/storage/allocator.go:72-101 | a page freed into a full list becomes an empty root, and the next allocation extends the file although free entries exist |
| `PageAllocator.Allocator.Free` | internal/storage/allocator.go:64-103 | the page becomes an entry of the root if it has room, else a list node |
| `PageAllocator.PopEntry` | internal/storage/freelist.go:60-70 | the last entry leaves the list and only it |
| `MetaPages.MetaRoundTrip` | internal/storage/page.go:185-250 | a meta page written whole is read back |
| `MetaPages.MetaStore.SaveMeta` | internal/storage/pager.go:251-273 | the slot not in use is written; the other keeps the last saved page |
| `MetaPages.DecodeIff` | internal/storage/page.go:208-250 | a page opens if and only if it has the magic bytes, version 1, a power of two for its page size and the right checksum, and then it has the bytes of the page found |
| `MetaPages.MetaStore.Reopen` | internal/storage/pager.go:91-128 | the last saved meta page or a later attempt, never an older one and never none, where a torn page is one whose checksum does not match |
| `MetaPages.Run` | internal/storage/pager.go:251-273 | after any run of edits, saves that complete or fail, and crashes, the page found is no older than any saved or found in the run |
| `CacheShard.Shard.Unlink` | internal/storage/shard.go:157-170 | the pointers spell the list without the entry |
| `CacheShard.Shard.AddToHead` | internal/storage/shard.go:145-155 | the pointers spell the list with the entry in front |
| `CacheShard.Shard.Get` | internal/storage/shard.go:28-39 | a hit is pinned and moved to the front |
| `CacheShard.Shard.Put` | internal/storage/shard.go:42-71 | the page is in front and pinned; a full shard gives up its victim |
| `CacheShard.Shard.FindVictim` | internal/storage/shard.go:132-143 | the least recently used entry nobody holds, or all are held |
| `CacheShard.Shard.Unpin` | internal/storage/shard.go:85-93 | one pin less, not below zero |
| `PagerCache.Pager.Get` | internal/storage/pager.go:151-190 | the page as it was last written |
| `PagerCache.Pager.Allocate` | internal/storage/allocator.go:23-61 | a page put under a new or a reused id is cached and dirty, and nothing is evicted |
| `PagerCache.Pager.Write` | internal/storage/pager.go:200-203 | the page changes in the cache and is dirty |
| `PagerCache.Pager.Flush` | internal/storage/pager.go:206-234 | the page is current on disk and stays pinned |
| `PagerCache.PlacedCoherent` | internal/storage/shard.go:42-71 | where all pages are pinned, putting a page under any id evicts nothing and keeps every page as last written |
| `HashRing.Ring.AddNode` | internal/cluster/ring.go:40-59 | the ring holds exactly the tokens of the members, the new one among them |
| `HashRing.Ring.RemoveNode` | internal/cluster/ring.go:79-97 | the ring holds exactly the tokens of the remaining members |
| `HashRing.Ring.GetNode` | internal/cluster/ring.go:100-120 | the member whose token follows the hash; none only if there is no member |
| `HashRing.RoutesUnique` | internal/cluster/ring.go:100-120 | routing depends on the members alone |
| `HashRing.OwnToken` | internal/cluster/ring.go:100-120 | a key that hashes to a token of a member goes to that member |
| `HashRing.WrapsAround` | internal/cluster/ring.go:100-120 | a key behind all tokens goes to the member with the least one |
| `HashRing.JoinMovesOnlyToNewcomer` | internal/cluster/ring.go:40-59 | a node that joins takes keys only for itself |
| `HashRing.LeaveMovesOnlyOwnKeys` | internal/cluster/ring.go:79-97 | a node that leaves gives up only its own keys |

## Left out

- Errors of the file system and the pager (failed reads and writes outside SaveMeta), encryption, and checksums of data pages.
- Goroutines, mutexes and channels: each locked operation is one step; waiting in Dequeue is left to the caller.
- Byte layout of overflow pages and free-list pages; B+tree pages, record headers, messages, meta pages and documents are modelled to the byte.
- Page numbers and LSNs running out of 64 bits; the 32-bit stamp of searchLayer wrapping around.
- Rollback of stored versions and savepoints: pages are dropped from the cache, so what remains depends on what was flushed.
- Statistics (hits, misses, pages redone), the readers' direct access to page memory (GetDirect, ReadRecordDirect, KeyAt, ItemAt).
- Sharding of the page cache by page number: one shard is modelled.
- FlushAll, VerifyTree and Members: they only repeat or list what other operations do.
- Rounding of floating-point distances, and the metrics themselves: distances are exact numbers given by a parameter.
- FieldDictionary.Encode and Decode, the typed readers of DocumentView, and SecondaryIndex beyond its keys.
- The dead-letter queue as an engine of its own: the model keeps the messages it was handed.
- Cluster client and server, backup, text search, time series, pub/sub, documents, the query engine and the user interfaces.
- Cson.Decode: the nesting of objects and arrays is bounded by a parameter; a directory entry that points back at its own document, on which the code does not end, is cut off there.
- CsonLayout.FieldAt: an offset and length whose 32-bit sum wraps around count as outside the document.
- VersionStore.Store.WriteRecord: the id of an old version must not be passed, since it belongs to another record, nor that of a record which the store is about to generate, since the new version would be linked to itself.
- VersionStore.Store.DeleteRecord: as WriteRecord.
- Sessions.Run: callers use ids of their own only up to 1000; above that a generated id could overwrite the record.
- VersionStore.Store.ReadRecord: covers one session of committing writers; ids restart when a store is reopened.
- QueueEngine.Engine.Enqueue: a message id must not be that of a live message; errors of the stored tree other than size limits are left out.
- Recovery.Recover: the cached pages and the result's count of redone pages are left out.
- WalRecords.Decode: the version field is read and ignored, as in the code.
- MetaPages.MetaStore.SaveMeta: a torn write is taken to fail the checksum.
- HashRing.Ring.AddNode: tokens of the members must not collide.
- ExactSearch.ExactTopK: needs k of at least 1, as the code does.
- Hnsw.Index.Insert: needs an id that is not in the index.
- PageAllocator.Allocator.Free: callers free only live pages.
