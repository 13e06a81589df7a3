/**
 The transaction manager as version visibility sees it: ids, snapshots, the set of committed ids and its
 pruning, and the table of active readers.  What Begin, Commit and Rollback write to the log is in Recovery.
 */
module Snapshots {

  datatype Transaction = Transaction(id: nat, snapshot: nat, readOnly: bool)

  /** The commit test that version visibility is handed. */
  function CommitTest(committed: set<nat>, metaLast: nat): nat -> bool {
    x => x in committed || x <= metaLast
  }

  /** No other id in s is lower. */
  ghost predicate IsLeast(s: set<nat>, x: nat) {
    x in s && forall y :: y in s ==> x <= y
  }

  /** How many transactions read at a snapshot. */
  function Count(readers: map<nat, nat>, snapshot: nat): nat {
    if snapshot in readers then readers[snapshot] else 0
  }

  /** The sequence lists the set, each member once. */
  ghost predicate Lists(order: seq<nat>, s: set<nat>) {
    (forall i, j :: 0 <= i < j < |order| ==> order[i] != order[j]) && forall x :: x in order <==> x in s
  }

  /** What OldestActiveSnapshot makes of the snapshots in the order it meets them: 0 doubles as "none yet". */
  function OldestIn(order: seq<nat>): nat {
    if order == [] then 0
    else
      var oldest, x := OldestIn(order[..|order| - 1]), order[|order| - 1];
      if oldest == 0 || x < oldest then x else oldest
  }

  /** The loop over the reader table, in the order Go ranges over it. */
  method OldestActive(order: seq<nat>, fallback: nat) returns (oldest: nat)
    ensures oldest == if order == [] then fallback else OldestIn(order)
  {
    if |order| == 0 {
      return fallback;
    }
    oldest := 0;
    var i := 0;
    while i < |order|
      invariant 0 <= i <= |order| && oldest == OldestIn(order[..i])
    {
      assert order[..i + 1][..i] == order[..i];
      if oldest == 0 || order[i] < oldest {
        oldest := order[i];
      }
      i := i + 1;
    }
    assert order[..i] == order;
  }

  /** Go ranges over a map in any order. */
  method AnyOrder(readers: map<nat, nat>) returns (order: seq<nat>)
    ensures Lists(order, readers.Keys)
  {
    order := [];
    var todo := readers.Keys;
    while todo != {}
      invariant todo <= readers.Keys && Lists(order, readers.Keys - todo)
      decreases todo
    {
      var x :| x in todo;
      order := order + [x];
      todo := todo - {x};
    }
  }

  /** Without a reader at 0 the order does not matter. */
  lemma {:induction false} OldestIsLeast(order: seq<nat>)
    requires order != [] && 0 !in order
    ensures OldestIn(order) in order && forall x :: x in order ==> OldestIn(order) <= x
  {
    var n := |order| - 1;
    var rest := order[..n];
    assert order == rest + [order[n]];
    if rest != [] {
      OldestIsLeast(rest);
    }
  }

  lemma {:induction false} SomeOrder(s: set<nat>) returns (order: seq<nat>)
    ensures Lists(order, s)
    decreases |s|
  {
    order := [];
    if s != {} {
      var x :| x in s;
      var front := SomeOrder(s - {x});
      order := front + [x];
    }
  }

  /** A reader at 0 and another one met after it: the other one comes out. */
  lemma {:induction false} ZeroForgets(front: seq<nat>, x: nat)
    requires x != 0
    ensures OldestIn(front + [0, x]) == x
  {
    var a := front + [0];
    assert (front + [0, x])[..|a|] == a && a[..|front|] == front;
    assert OldestIn(a) == 0;
  }

  /** The oldest snapshot is found in every order if and only if no reader is at 0, or no other reader is. */
  lemma {:induction false} OldestIff(s: set<nat>)
    requires s != {}
    ensures (forall order :: Lists(order, s) ==> IsLeast(s, OldestIn(order))) <==> 0 !in s || s == {0}
  {
    if 0 !in s {
      forall order | Lists(order, s) ensures IsLeast(s, OldestIn(order)) {
        assert order != [] by { var x :| x in s; assert x in order; }
        OldestIsLeast(order);
      }
    } else if s == {0} {
      forall order | Lists(order, s) ensures IsLeast(s, OldestIn(order)) {
        forall i | 0 <= i < |order| ensures order[i] == 0 {
          assert order[i] in order;
        }
        OnlyZero(order);
      }
    } else {
      var x :| x in s && x != 0;
      var front := SomeOrder(s - {0, x});
      var order := front + [0, x];
      assert Lists(order, s);
      ZeroForgets(front, x);
    }
  }

  lemma {:induction false} OnlyZero(order: seq<nat>)
    requires forall i :: 0 <= i < |order| ==> order[i] == 0
    ensures OldestIn(order) == 0
  {
    if order != [] {
      OnlyZero(order[..|order| - 1]);
    }
  }

  /** The reader table with one transaction less at a snapshot. */
  function Deregistered(readers: map<nat, nat>, snapshot: nat): (r: map<nat, nat>)
    ensures forall s :: Count(r, s) == if s == snapshot && Count(readers, s) > 0 then Count(readers, s) - 1
                                       else if s == snapshot then 0 else Count(readers, s)
  {
    if Count(readers, snapshot) <= 1 then readers - {snapshot}
    else readers[snapshot := Count(readers, snapshot) - 1]
  }

  /** The ids kept in the set are those above what the loop over the reader table makes the oldest snapshot. */
  ghost predicate Pruned(before: set<nat>, after: set<nat>, snapshots: set<nat>, fallback: nat) {
    exists order :: Lists(order, snapshots)
                    && after == AboveOnly(before, if order == [] then fallback else OldestIn(order))
  }

  ghost function AboveOnly(s: set<nat>, oldest: nat): (r: set<nat>)
    ensures forall x :: x in r <==> x in s && x > oldest
  {
    set x | x in s && x > oldest
  }

  class TxnManager {
    var lastTxnID: nat
    var metaLast: nat            // LastTxnID of the meta page
    var committed: set<nat>
    var readers: map<nat, nat>
    var writerOpen: bool         // the writer lock is held

    ghost predicate Valid()
      reads this
    {
      && metaLast <= lastTxnID && (writerOpen ==> metaLast < lastTxnID)
      && (forall x :: x in committed ==> x <= metaLast)
    }

    /** No transaction has been rolled back: every id up to the newest has committed, but for the open writer. */
    ghost predicate CommitOnly()
      reads this
    {
      metaLast == if writerOpen then lastTxnID - 1 else lastTxnID
    }

    constructor (last: nat)
      ensures Valid() && CommitOnly() && lastTxnID == metaLast == last && !writerOpen
    {
      lastTxnID, metaLast, committed, readers, writerOpen := last, last, {}, map[], false;
    }

    /** IsCommitted.  Pruning the set never matters: the test is the same as the one on the meta page alone. */
    function IsCommitted(x: nat): (r: bool)
      requires Valid()
      reads this
      ensures r <==> x <= metaLast
    {
      CommitTest(committed, metaLast)(x)
    }

    method Register(snapshot: nat)
      modifies this`readers
      ensures readers == old(readers)[snapshot := Count(old(readers), snapshot) + 1]
    {
      readers := readers[snapshot := if snapshot in readers then readers[snapshot] + 1 else 1];
    }

    method Deregister(snapshot: nat)
      modifies this`readers
      ensures readers == Deregistered(old(readers), snapshot)
    {
      if snapshot in readers {
        readers := if readers[snapshot] <= 1 then readers - {snapshot} else readers[snapshot := readers[snapshot] - 1];
      }
    }

    /** A reader takes the newest id handed out, a writer a new one; the writer lock is free for a writer. */
    method Begin(readOnly: bool) returns (tx: Transaction)
      requires Valid() && (readOnly || !writerOpen)
      modifies this
      ensures Valid() && metaLast == old(metaLast) && (old(CommitOnly()) ==> CommitOnly())
      ensures tx.readOnly == readOnly && writerOpen == (old(writerOpen) || !readOnly)
      ensures readers == old(readers)[tx.snapshot := Count(old(readers), tx.snapshot) + 1]
      ensures tx.id == lastTxnID == (if readOnly then old(lastTxnID) else old(lastTxnID) + 1)
              && tx.snapshot == old(lastTxnID)
    {
      if readOnly {
        Register(lastTxnID);
        return Transaction(lastTxnID, lastTxnID, true);
      }
      writerOpen := true;
      lastTxnID := lastTxnID + 1;
      Register(lastTxnID - 1);
      tx := Transaction(lastTxnID, lastTxnID - 1, false);
    }

    /** Only a writer's commit changes what counts as committed, and it adds its own id and all below. */
    method Commit(tx: Transaction)
      requires Valid() && (tx.readOnly || (writerOpen && tx.id == lastTxnID))
      modifies this
      ensures Valid() && lastTxnID == old(lastTxnID) && (old(CommitOnly()) ==> CommitOnly())
      ensures metaLast == (if tx.readOnly then old(metaLast) else tx.id)
      ensures writerOpen == (tx.readOnly && old(writerOpen))
      ensures readers == Deregistered(old(readers), tx.snapshot)
      ensures if tx.readOnly then committed == old(committed)
              else Pruned(old(committed) + {tx.id}, committed, old(readers).Keys, lastTxnID)
    {
      if tx.readOnly {
        Deregister(tx.snapshot);
        return;
      }
      committed := committed + {tx.id};
      metaLast := tx.id;
      var order := AnyOrder(readers);
      var oldest := OldestActive(order, lastTxnID);
      assert (set x | x in committed && x > oldest) == AboveOnly(committed, oldest);
      committed := set x | x in committed && x > oldest;
      writerOpen := false;
      Deregister(tx.snapshot);
    }

    method Rollback(tx: Transaction)
      requires Valid() && (tx.readOnly || (writerOpen && tx.id == lastTxnID))
      modifies this
      ensures Valid() && lastTxnID == old(lastTxnID) && metaLast == old(metaLast)
      ensures writerOpen == (tx.readOnly && old(writerOpen))
      ensures readers == Deregistered(old(readers), tx.snapshot) && committed == old(committed)
    {
      if !tx.readOnly {
        writerOpen := false;
      }
      Deregister(tx.snapshot);
    }
  }

  /** A transaction that is rolled back counts as committed once a later one commits. */
  method AbortedCounts(manager: TxnManager) returns (aborted: nat, before: bool, after: bool)
    requires manager.Valid() && !manager.writerOpen
    modifies manager
    ensures manager.Valid() && aborted == old(manager.lastTxnID) + 1 && !before && after
  {
    var tx := manager.Begin(false);
    aborted := tx.id;
    manager.Rollback(tx);
    before := manager.IsCommitted(aborted);
    tx := manager.Begin(false);
    manager.Commit(tx);
    after := manager.IsCommitted(aborted);
  }
}
