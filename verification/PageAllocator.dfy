/**
 Allocation of pages: the free-list chain and the end of the file.

 Every page number below the end of the file has one role.  A role map is a function, so that live pages,
 free entries, list nodes and retired nodes are disjoint and together all of [2, nextPageID) by its type.
 */
module PageAllocator {

  const INVALID_PAGE := 0xFFFF_FFFF_FFFF_FFFF
  const FIRST_PAGE := 2
  const MAX_ENTRIES := 2042

  datatype FreeList = FreeList(next: nat, entries: seq<nat>)

  datatype Role =
    | Live               // handed out and not freed since
    | Entry(node: nat)   // free, listed in that node of the free-list chain
    | Node               // a node of the free-list chain
    | Retired            // a node that was emptied and left behind

  ghost predicate Distinct(s: seq<nat>) {
    forall i, j :: 0 <= i < j < |s| ==> s[i] != s[j]
  }

  ghost function After(chain: seq<nat>, i: nat): nat {
    if i + 1 < |chain| then chain[i + 1] else INVALID_PAGE
  }

  /** The chain of free-list nodes, from the root. */
  ghost predicate IsChain(root: nat, lists: map<nat, FreeList>, chain: seq<nat>) {
    && Distinct(chain)
    && root == (if chain == [] then INVALID_PAGE else chain[0])
    && (forall i :: 0 <= i < |chain| ==> chain[i] in lists && chain[i] != INVALID_PAGE)
    && forall i :: 0 <= i < |chain| ==> lists[chain[i]].next == After(chain, i)
  }

  ghost predicate RolesOk(lists: map<nat, FreeList>, chain: seq<nat>, roles: map<nat, Role>) {
    && (forall p :: p in roles && roles[p] == Node <==> p in chain)
    && (forall p :: p in roles && roles[p].Entry? ==> roles[p].node in chain)
    && forall n :: n in chain ==> n in lists && EntriesOk(lists[n], n, roles)
  }

  /** The node lists exactly the pages whose role says so, each once. */
  ghost predicate EntriesOk(l: FreeList, n: nat, roles: map<nat, Role>) {
    && Distinct(l.entries) && |l.entries| <= MAX_ENTRIES
    && forall p :: p in l.entries <==> p in roles && roles[p] == Entry(n)
  }

  lemma {:induction false} EntriesElsewhere(l: FreeList, n: nat, roles: map<nat, Role>, roles': map<nat, Role>)
    requires EntriesOk(l, n, roles) && forall p :: (p in roles && roles[p] == Entry(n))
                                         <==> (p in roles' && roles'[p] == Entry(n))
    ensures EntriesOk(l, n, roles')
  {
  }

  lemma {:induction false} PopEntry(l: FreeList, n: nat, roles: map<nat, Role>)
    requires EntriesOk(l, n, roles) && l.entries != []
    ensures var k := |l.entries| - 1;
            var p := l.entries[k];
            p in roles && roles[p] == Entry(n) && EntriesOk(l.(entries := l.entries[..k]), n, roles[p := Live])
  {
    var k := |l.entries| - 1;
    var p := l.entries[k];
    assert l.entries == l.entries[..k] + [p];
    assert p in l.entries && p !in l.entries[..k];
  }

  lemma {:induction false} PushEntry(l: FreeList, n: nat, roles: map<nat, Role>, p: nat)
    requires EntriesOk(l, n, roles) && |l.entries| < MAX_ENTRIES && p in roles && roles[p] == Live
    ensures EntriesOk(l.(entries := l.entries + [p]), n, roles[p := Entry(n)])
  {
    assert p !in l.entries;
  }

  // ---------- Steps of the chain ----------

  lemma {:induction false} RootOf(root: nat, lists: map<nat, FreeList>, chain: seq<nat>, roles: map<nat, Role>)
    requires IsChain(root, lists, chain) && RolesOk(lists, chain, roles)
    ensures root == INVALID_PAGE <==> chain == []
    ensures Distinct(chain) && (chain != [] ==> root == chain[0] && root in chain && root in lists
                                                  && EntriesOk(lists[root], root, roles) && root in roles
                                                      && roles[root] == Node)
    ensures chain != [] ==> (lists[root].next == INVALID_PAGE <==> |chain| == 1)
  {
    if chain != [] { assert lists[chain[0]].next == After(chain, 0); }
  }

  lemma {:induction false} SameChain(root: nat, lists: map<nat, FreeList>, chain: seq<nat>, l: FreeList)
    requires IsChain(root, lists, chain) && root in lists && l.next == lists[root].next
    ensures IsChain(root, lists[root := l], chain)
  {
  }

  lemma {:induction false} TailChain(root: nat, lists: map<nat, FreeList>, chain: seq<nat>)
    requires IsChain(root, lists, chain) && chain != []
    ensures root in lists && IsChain(lists[root].next, lists, chain[1..])
  {
    var tail := chain[1..];
    forall i | 0 <= i < |tail| ensures lists[tail[i]].next == After(tail, i) {
      assert tail[i] == chain[i + 1] && After(tail, i) == After(chain, i + 1);
    }
    assert lists[chain[0]].next == After(chain, 0);
  }

  lemma {:induction false} ConsChain(root: nat, lists: map<nat, FreeList>, chain: seq<nat>, id: nat)
    requires IsChain(root, lists, chain) && id !in chain && id != INVALID_PAGE
    ensures IsChain(id, lists[id := FreeList(root, [])], [id] + chain)
  {
    var lists', chain' := lists[id := FreeList(root, [])], [id] + chain;
    forall i | 0 <= i < |chain'| ensures chain'[i] in lists' && lists'[chain'[i]].next == After(chain', i) {
      if i > 0 { assert chain'[i] == chain[i - 1] && chain[i - 1] in chain && After(chain', i) == After(chain, i - 1); }
    }
  }

  // ---------- Steps of the roles ----------

  lemma {:induction false} NewPage(lists: map<nat, FreeList>, chain: seq<nat>, roles: map<nat, Role>, id: nat)
    requires RolesOk(lists, chain, roles) && id !in roles
    ensures RolesOk(lists, chain, roles[id := Live])
  {
    hide EntriesOk;
    forall n | n in chain ensures n in lists && EntriesOk(lists[n], n, roles[id := Live]) {
      EntriesElsewhere(lists[n], n, roles, roles[id := Live]);
    }
  }

  /** A page goes between the live ones and the entries of one node. */
  lemma {:induction false} EntryMoves(lists: map<nat, FreeList>, chain: seq<nat>, roles: map<nat, Role>, n: nat,
                                      l: FreeList, id: nat, role: Role)
    requires RolesOk(lists, chain, roles) && n in chain && id in roles && roles[id] in {Live, Entry(n)}
             && role in {Live, Entry(n)}
    requires EntriesOk(l, n, roles[id := role])
    ensures RolesOk(lists[n := l], chain, roles[id := role])
  {
    hide EntriesOk;
    var lists', roles' := lists[n := l], roles[id := role];
    forall x | x in chain ensures x in lists' && EntriesOk(lists'[x], x, roles') {
      if x != n { EntriesElsewhere(lists[x], x, roles, roles'); }
    }
  }

  lemma {:induction false} TailMembers(chain: seq<nat>)
    requires Distinct(chain) && chain != []
    ensures chain[0] !in chain[1..] && forall p :: p in chain <==> p == chain[0] || p in chain[1..]
  {
    assert chain == [chain[0]] + chain[1..];
  }

  lemma {:induction false} NoEntryOf(l: FreeList, n: nat, roles: map<nat, Role>)
    requires EntriesOk(l, n, roles) && l.entries == []
    ensures forall p :: p in roles ==> roles[p] != Entry(n)
  {
  }

  lemma {:induction false} RootRetires(lists: map<nat, FreeList>, chain: seq<nat>, roles: map<nat, Role>)
    requires Distinct(chain) && RolesOk(lists, chain, roles) && chain != [] && chain[0] in lists
             && lists[chain[0]].entries == []
    ensures RolesOk(lists, chain[1..], roles[chain[0] := Retired])
  {
    hide EntriesOk, Distinct;
    var root, tail := chain[0], chain[1..];
    var roles' := roles[root := Retired];
    TailMembers(chain);
    NoEntryOf(lists[root], root, roles);
    forall n | n in tail ensures n in lists && EntriesOk(lists[n], n, roles') {
      EntriesElsewhere(lists[n], n, roles, roles');
    }
  }

  lemma {:induction false} NodeAdded(root: nat, lists: map<nat, FreeList>, chain: seq<nat>, roles: map<nat, Role>,
                                     id: nat)
    requires RolesOk(lists, chain, roles) && id in roles && roles[id] == Live
    ensures id !in chain && RolesOk(lists[id := FreeList(root, [])], [id] + chain, roles[id := Node])
  {
    var lists', chain', roles' := lists[id := FreeList(root, [])], [id] + chain, roles[id := Node];
    assert EntriesOk(lists'[id], id, roles');
    hide EntriesOk;
    assert forall p :: p in chain' <==> p == id || p in chain;
    forall n | n in chain' ensures n in lists' && EntriesOk(lists'[n], n, roles') {
      if n != id { EntriesElsewhere(lists[n], n, roles, roles'); }
    }
  }

  class Allocator {
    var freeListRoot: nat
    var nextPageID: nat
    var lists: map<nat, FreeList>
    ghost var chain: seq<nat>
    ghost var roles: map<nat, Role>

    ghost predicate Valid()
      reads this
    {
      && FIRST_PAGE <= nextPageID <= INVALID_PAGE && (forall p :: p in roles <==> FIRST_PAGE <= p < nextPageID)
      && IsChain(freeListRoot, lists, chain) && RolesOk(lists, chain, roles)
    }

    constructor ()
      ensures Valid() && nextPageID == FIRST_PAGE && roles == map[]
    {
      freeListRoot, nextPageID, lists, chain, roles := INVALID_PAGE, FIRST_PAGE, map[], [], map[];
    }

    ghost predicate IsLive(p: nat)
      reads this
    {
      p in roles && roles[p] == Live
    }

    /** A free entry of the root is taken. */
    ghost predicate RootHasEntry()
      reads this
    {
      freeListRoot != INVALID_PAGE && freeListRoot in lists && lists[freeListRoot].entries != []
    }

    ghost predicate RootHasRoom()
      reads this
    {
      freeListRoot != INVALID_PAGE && freeListRoot in lists && |lists[freeListRoot].entries| < MAX_ENTRIES
    }

    /** The root has its last entry, and other nodes follow. */
    ghost predicate RootIsSpent()
      reads this
    {
      RootHasEntry() && |chain| > 1 && |lists[freeListRoot].entries| == 1
    }

    /** A page that was not live, not a list node and not retired becomes live; no other page changes hands,
        but for the root of the list, which is retired when its last entry goes and other nodes follow. */
    method Allocate() returns (id: nat)
      requires Valid() && nextPageID < INVALID_PAGE
      modifies this
      ensures Valid() && nextPageID == (if old(RootHasEntry()) then old(nextPageID) else old(nextPageID) + 1)
      ensures if old(RootHasEntry()) then id in old(roles) && old(roles)[id] == Entry(old(freeListRoot))
                else id == old(nextPageID) && id !in old(roles)
      ensures roles == if old(RootIsSpent()) then old(roles)[id := Live][old(freeListRoot) := Retired]
                         else old(roles)[id := Live]
    {
      hide EntriesOk, IsChain, RolesOk;
      RootOf(freeListRoot, lists, chain, roles);
      if freeListRoot != INVALID_PAGE {
        var fl := lists[freeListRoot];
        if |fl.entries| > 0 {
          id := Reuse(fl);
          return;
        }
      }
      id := nextPageID;
      NewPage(lists, chain, roles, id);
      nextPageID := nextPageID + 1;
      roles := roles[id := Live];
    }

    /** Take the last entry of the root; an emptied root that others follow leaves the chain, and its page is
        not reused. */
    method Reuse(fl: FreeList) returns (id: nat)
      requires Valid() && chain != [] && freeListRoot in lists && fl == lists[freeListRoot] && fl.entries != []
      modifies this`freeListRoot, this`lists, this`chain, this`roles
      ensures Valid() && id in old(roles) && old(roles)[id] == Entry(old(freeListRoot))
      ensures roles == if old(|chain|) > 1 && |fl.entries| == 1
                         then old(roles)[id := Live][old(freeListRoot) := Retired] else old(roles)[id := Live]
    {
      hide EntriesOk, IsChain, RolesOk;
      RootOf(freeListRoot, lists, chain, roles);
      var k := |fl.entries| - 1;
      id := fl.entries[k];
      PopEntry(fl, freeListRoot, roles);
      var rest := fl.(entries := fl.entries[..k]);
      EntryMoves(lists, chain, roles, freeListRoot, rest, id, Live);
      SameChain(freeListRoot, lists, chain, rest);
      lists := lists[freeListRoot := rest];
      roles := roles[id := Live];
      RootOf(freeListRoot, lists, chain, roles);
      if |rest.entries| == 0 && rest.next != INVALID_PAGE {
        RootRetires(lists, chain, roles);
        TailChain(freeListRoot, lists, chain);
        roles, chain := roles[freeListRoot := Retired], chain[1..];
        freeListRoot := rest.next;
      }
    }

    /** A live page is listed in the root, or becomes a list node itself if there is no root with room. */
    method Free(id: nat)
      requires Valid() && IsLive(id)
      modifies this
      ensures Valid() && nextPageID == old(nextPageID)
      ensures roles == old(roles)[id := if old(RootHasRoom()) then Entry(old(freeListRoot)) else Node]
      ensures !old(RootHasRoom()) ==> freeListRoot == id && !RootHasEntry()
    {
      hide EntriesOk, IsChain, RolesOk;
      RootOf(freeListRoot, lists, chain, roles);
      if freeListRoot == INVALID_PAGE {
        AddNode(id);
        return;
      }
      var fl := lists[freeListRoot];
      if |fl.entries| < MAX_ENTRIES {
        PushEntry(fl, freeListRoot, roles, id);
        var more := fl.(entries := fl.entries + [id]);
        EntryMoves(lists, chain, roles, freeListRoot, more, id, Entry(freeListRoot));
        SameChain(freeListRoot, lists, chain, more);
        lists := lists[freeListRoot := more];
        roles := roles[id := Entry(freeListRoot)];
        return;
      }
      AddNode(id);
    }

    /** The root of the list is a list node, so neither live nor an entry nor retired. */
    lemma {:induction false} RootIsNode()
      requires Valid()
      ensures RootHasEntry() ==> freeListRoot in roles && roles[freeListRoot] == Node
    {
      RootOf(freeListRoot, lists, chain, roles);
    }

    lemma {:induction false} FullRoot() returns (x: nat)
      requires Valid() && freeListRoot != INVALID_PAGE && !RootHasRoom()
      ensures x in roles && roles[x] == Entry(freeListRoot)
    {
      RootOf(freeListRoot, lists, chain, roles);
      x := lists[freeListRoot].entries[0];
      assert x in lists[freeListRoot].entries;
    }

    /** The freed page becomes the root of the chain. */
    method AddNode(id: nat)
      requires Valid() && IsLive(id)
      modifies this`freeListRoot, this`lists, this`chain, this`roles
      ensures Valid() && roles == old(roles)[id := Node] && freeListRoot == id && !RootHasEntry()
    {
      hide EntriesOk, IsChain, RolesOk;
      NodeAdded(freeListRoot, lists, chain, roles, id);
      ConsChain(freeListRoot, lists, chain, id);
      lists, chain, roles := lists[id := FreeList(freeListRoot, [])], [id] + chain, roles[id := Node];
      freeListRoot := id;
    }
  }

  // ---------- Runs ----------

  /** Allocate a page, or free the k-th of those the run holds. */
  datatype Op = Alloc | Release(k: nat)

  /** Any run: the pages it holds are different from each other, live, and were not live before; a page that
      was live before stays so, and a retired page is never seen again. */
  method Run(a: Allocator, ops: seq<Op>) returns (held: seq<nat>)
    requires a.Valid()
    modifies a
    ensures a.Valid() && Distinct(held) && forall i :: 0 <= i < |held| ==> a.IsLive(held[i]) && !old(a.IsLive(held[i]))
    ensures forall p :: old(a.IsLive(p)) ==> a.IsLive(p)
    ensures forall p :: p in old(a.roles) && old(a.roles)[p] == Retired ==> p in a.roles && a.roles[p] == Retired
  {
    hide IsChain, RolesOk;
    held := [];
    var i := 0;
    while i < |ops|
      invariant 0 <= i <= |ops| && a.Valid() && Distinct(held)
                && forall k :: 0 <= k < |held| ==> a.IsLive(held[k]) && !old(a.IsLive(held[k]))
      invariant forall p :: old(a.IsLive(p)) ==> a.IsLive(p)
      invariant forall p :: p in old(a.roles) && old(a.roles)[p] == Retired ==> p in a.roles && a.roles[p] == Retired
    {
      match ops[i] {
        case Alloc =>
          if a.nextPageID < INVALID_PAGE {
            a.RootIsNode();
            var id := a.Allocate();
            held := held + [id];
          }
        case Release(k) =>
          if k < |held| {
            a.Free(held[k]);
            held := held[..k] + held[k + 1..];
          }
      }
      i := i + 1;
    }
  }

  /** A page freed onto a full root becomes a new, empty root, and hides the entries of the old one: the next
      allocation extends the file although free pages are listed. */
  method HiddenEntries(a: Allocator, p: nat) returns (q: nat)
    requires a.Valid() && a.IsLive(p) && a.freeListRoot != INVALID_PAGE && !a.RootHasRoom()
             && a.nextPageID < INVALID_PAGE
    modifies a
    ensures a.Valid() && q == old(a.nextPageID) && a.nextPageID == q + 1
    ensures exists x :: x in a.roles && a.roles[x] == Entry(old(a.freeListRoot))
  {
    hide IsChain, RolesOk;
    ghost var root := a.freeListRoot;
    ghost var x := a.FullRoot();
    a.Free(p);
    q := a.Allocate();
    assert a.roles[x] == Entry(root);
  }
}
