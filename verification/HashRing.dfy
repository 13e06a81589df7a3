/**
 The consistent hash ring: AddNode, RemoveNode and GetNode.

 Where the tokens of a node lie is a parameter.  Tokens of different nodes, or of one node, must not
 collide: the ring remembers one owner per token.
 */
module HashRing {
  import opened ByteOrder
  import opened Options

  type Name = Bytes
  type Token = (Name, nat) -> nat

  /** The tokens of these nodes are all different. */
  ghost predicate CollisionFree(token: Token, vNodes: nat, names: set<Name>) {
    forall a, i: nat, b, j: nat :: a in names && b in names && i < vNodes && j < vNodes && token(a, i) == token(b, j)
        ==> a == b && i == j
  }

  ghost function TokensOf(token: Token, vNodes: nat, n: Name): set<nat> {
    set i | 0 <= i < vNodes :: token(n, i)
  }

  ghost function Tokens(token: Token, vNodes: nat, members: set<Name>): set<nat> {
    set n, i | n in members && 0 <= i < vNodes :: token(n, i)
  }

  /** t is the first token at or after h, going round the ring. */
  ghost predicate Follows(tokens: set<nat>, h: nat, t: nat) {
    && t in tokens
    && (if t >= h then forall u :: u in tokens && u >= h ==> t <= u
        else forall u :: u in tokens ==> u < h && t <= u)
  }

  lemma {:induction false} FollowsUnique(tokens: set<nat>, h: nat, t: nat, u: nat)
    requires Follows(tokens, h, t) && Follows(tokens, h, u)
    ensures t == u
  {
  }

  /** More tokens take over a key only by themselves. */
  lemma {:induction false} FollowsMore(tokens: set<nat>, more: set<nat>, h: nat, t: nat, u: nat)
    requires Follows(tokens, h, t) && Follows(tokens + more, h, u)
    ensures u == t || u in more
  {
    if u !in more {
      assert Follows(tokens, h, u);
      FollowsUnique(tokens, h, t, u);
    }
  }

  lemma {:induction false} FollowsFewer(tokens: set<nat>, fewer: set<nat>, h: nat, t: nat)
    requires Follows(tokens, h, t) && fewer <= tokens && t in fewer
    ensures Follows(fewer, h, t)
  {
  }

  // ---------- Routing by membership ----------

  /** The node whose token follows the hash of the key. */
  ghost predicate Routes(token: Token, vNodes: nat, members: set<Name>, h: nat, n: Name) {
    n in members && exists t :: t in TokensOf(token, vNodes, n) && Follows(Tokens(token, vNodes, members), h, t)
  }

  /** Routing depends on the members alone. */
  lemma {:induction false} RoutesUnique(token: Token, vNodes: nat, members: set<Name>, h: nat, n: Name, n': Name)
    requires CollisionFree(token, vNodes, members) && Routes(token, vNodes, members, h, n)
             && Routes(token, vNodes, members, h, n')
    ensures n == n'
  {
    var t :| t in TokensOf(token, vNodes, n) && Follows(Tokens(token, vNodes, members), h, t);
    var u :| u in TokensOf(token, vNodes, n') && Follows(Tokens(token, vNodes, members), h, u);
    FollowsUnique(Tokens(token, vNodes, members), h, t, u);
  }

  /** A node that joins takes keys only for itself. */
  lemma {:induction false} JoinMovesOnlyToNewcomer(token: Token, vNodes: nat, members: set<Name>, x: Name, h: nat,
                                                   n: Name, n': Name)
    requires CollisionFree(token, vNodes, members + {x})
    requires Routes(token, vNodes, members, h, n) && Routes(token, vNodes, members + {x}, h, n')
    ensures n' == n || n' == x
  {
    var all, old' := Tokens(token, vNodes, members + {x}), Tokens(token, vNodes, members);
    var t :| t in TokensOf(token, vNodes, n) && Follows(old', h, t);
    var u :| u in TokensOf(token, vNodes, n') && Follows(all, h, u);
    assert all == old' + TokensOf(token, vNodes, x);
    FollowsMore(old', TokensOf(token, vNodes, x), h, t, u);
  }

  /** A node that leaves gives up only its own keys. */
  lemma {:induction false} LeaveMovesOnlyOwnKeys(token: Token, vNodes: nat, members: set<Name>, x: Name, h: nat,
                                                 n: Name)
    requires Routes(token, vNodes, members, h, n) && n != x
    ensures Routes(token, vNodes, members - {x}, h, n)
  {
    var t :| t in TokensOf(token, vNodes, n) && Follows(Tokens(token, vNodes, members), h, t);
    FollowsFewer(Tokens(token, vNodes, members), Tokens(token, vNodes, members - {x}), h, t);
  }

  // ---------- The ring ----------

  /** A key that hashes to a token of a member goes to that member. */
  lemma {:induction false} OwnToken(token: Token, vNodes: nat, members: set<Name>, n: Name, i: nat)
    requires n in members && i < vNodes
    ensures Routes(token, vNodes, members, token(n, i), n)
  {
    var t := token(n, i);
    assert t in TokensOf(token, vNodes, n) && t in Tokens(token, vNodes, members);
    assert Follows(Tokens(token, vNodes, members), t, t);
  }

  /** A key behind all tokens goes to the member with the least one. */
  lemma {:induction false} WrapsAround(token: Token, vNodes: nat, members: set<Name>, h: nat, n: Name, i: nat)
    requires n in members && i < vNodes && forall u :: u in Tokens(token, vNodes, members) ==> token(n, i) <= u < h
    ensures Routes(token, vNodes, members, h, n)
  {
    var t := token(n, i);
    assert t in TokensOf(token, vNodes, n) && t in Tokens(token, vNodes, members);
    assert Follows(Tokens(token, vNodes, members), h, t);
  }

  ghost predicate Sorted(ring: seq<nat>) {
    forall i, j :: 0 <= i < j < |ring| ==> ring[i] < ring[j]
  }

  class Ring {
    const vNodes: nat
    const token: Token
    var ring: seq<nat>
    var owner: map<nat, Name>
    var members: set<Name>

    ghost predicate Valid()
      reads this
    {
      && vNodes >= 1 && CollisionFree(token, vNodes, members) && Sorted(ring)
      && (forall t :: t in ring <==> t in Tokens(token, vNodes, members))
      && (forall t :: t in owner <==> t in ring)
      && OwnersOk(token, vNodes, owner, members)
    }

    constructor (token: Token, vNodes: int)
      ensures Valid() && members == {} && this.token == token && this.vNodes == if vNodes <= 0 then 256 else vNodes
    {
      this.vNodes := if vNodes <= 0 then 256 else vNodes;
      this.token := token;
      ring, owner, members := [], map[], {};
    }

    /** A member is added with all its tokens. */
    method AddNode(n: Name)
      requires Valid() && CollisionFree(token, vNodes, members + {n})
      modifies this
      ensures Valid() && members == old(members) + {n}
    {
      hide Sorted, CollisionFree;
      if n in members {
        assert members + {n} == members;
        return;
      }
      SortedDistinct(ring);
      var all, owners := AddTokens(token, vNodes, ring, owner, members, n);
      TokensJoined(token, vNodes, members, n);
      members := members + {n};
      owner := owners;
      ring := SortTokens(all);
    }

    /** A member is removed with its tokens, and they with their owner. */
    method RemoveNode(n: Name)
      requires Valid()
      modifies this
      ensures Valid() && members == old(members) - {n}
    {
      hide Sorted, Tokens;
      if n !in members {
        return;
      }
      TokensLeft(token, vNodes, owner, members, n);
      members := members - {n};
      ring, owner := DropTokens(ring, owner, n);
    }

    /** A key goes to the node whose token follows its hash; only an empty ring has none. */
    method GetNode(h: nat) returns (r: Option<Name>)
      requires Valid()
      ensures r == None <==> members == {}
      ensures r.Some? ==> Routes(token, vNodes, members, h, r.value)
    {
      if |ring| == 0 {
        assert forall n :: n in members ==> token(n, 0) in Tokens(token, vNodes, members);
        return None;
      }
      var lo, hi := 0, |ring|;
      while lo < hi
        invariant 0 <= lo <= hi <= |ring|
        invariant (forall i :: 0 <= i < lo ==> ring[i] < h) && forall i :: hi <= i < |ring| ==> ring[i] >= h
      {
        var mid := (lo + hi) / 2;
        if ring[mid] >= h { hi := mid; } else { lo := mid + 1; }
      }
      var idx := if lo == |ring| then 0 else lo;
      var t := ring[idx];
      assert t in ring;
      FollowsAt(ring, Tokens(token, vNodes, members), h, lo);
      OwnerOf(token, vNodes, owner, members, t);
      r := Some(owner[t]);
    }
  }

  /** Every token of a member is known to be its own. */
  ghost predicate OwnersOk(token: Token, vNodes: nat, owner: map<nat, Name>, members: set<Name>) {
    forall n, i :: n in members && 0 <= i < vNodes ==> token(n, i) in owner && owner[token(n, i)] == n
  }

  lemma {:induction false} NewToken(token: Token, vNodes: nat, members: set<Name>, n: Name, i: nat)
    requires CollisionFree(token, vNodes, members + {n}) && n !in members && i < vNodes
    ensures token(n, i) !in Tokens(token, vNodes, members) && token(n, i) !in TokensOf(token, i, n)
  {
  }

  lemma {:induction false} OwnerOf(token: Token, vNodes: nat, owner: map<nat, Name>, members: set<Name>, t: nat)
    requires OwnersOk(token, vNodes, owner, members) && t in Tokens(token, vNodes, members)
    ensures t in owner && owner[t] in members && t in TokensOf(token, vNodes, owner[t])
  {
  }

  lemma {:induction false} TokensLeft(token: Token, vNodes: nat, owner: map<nat, Name>, members: set<Name>, n: Name)
    requires OwnersOk(token, vNodes, owner, members)
    ensures forall t :: t in Tokens(token, vNodes, members - {n})
              <==> t in Tokens(token, vNodes, members) && owner[t] != n
  {
    forall t ensures t in Tokens(token, vNodes, members - {n})
        <==> t in Tokens(token, vNodes, members) && owner[t] != n {
      if t in Tokens(token, vNodes, members) { OwnerOf(token, vNodes, owner, members, t); }
    }
  }

  lemma {:induction false} FollowsAt(ring: seq<nat>, tokens: set<nat>, h: nat, lo: nat)
    requires Sorted(ring) && lo <= |ring| && |ring| > 0 && forall t :: t in ring <==> t in tokens
    requires (forall i :: 0 <= i < lo ==> ring[i] < h) && forall i :: lo <= i < |ring| ==> ring[i] >= h
    ensures Follows(tokens, h, ring[if lo == |ring| then 0 else lo])
  {
    var idx := if lo == |ring| then 0 else lo;
    assert ring[idx] in ring;
    forall u | u in tokens ensures if lo == |ring| then u < h && ring[idx] <= u else u >= h ==> ring[idx] <= u {
      var k :| 0 <= k < |ring| && ring[k] == u;
    }
  }

  lemma {:induction false} OneToken(token: Token, n: Name, i: nat)
    ensures TokensOf(token, i + 1, n) == TokensOf(token, i, n) + {token(n, i)}
  {
  }

  lemma {:induction false} TokensJoined(token: Token, vNodes: nat, members: set<Name>, n: Name)
    ensures Tokens(token, vNodes, members + {n}) == Tokens(token, vNodes, members) + TokensOf(token, vNodes, n)
  {
  }

  ghost predicate Distinct(s: seq<nat>) {
    forall i, j :: 0 <= i < j < |s| ==> s[i] != s[j]
  }

  lemma {:induction false} SortedDistinct(s: seq<nat>)
    requires Sorted(s)
    ensures Distinct(s)
  {
  }

  /** The tokens of the first i virtual nodes of n are in the ring, beside those of the members. */
  ghost predicate Joining(token: Token, vNodes: nat, ring: seq<nat>, owner: map<nat, Name>, members: set<Name>, n: Name,
                          i: nat) {
    && Distinct(ring) && (forall t :: t in owner <==> t in ring)
    && (forall t :: t in ring <==> t in Tokens(token, vNodes, members) || t in TokensOf(token, i, n))
    && OwnersOk(token, vNodes, owner, members) && forall j :: 0 <= j < i
                                                    ==> token(n, j) in owner && owner[token(n, j)] == n
  }

  lemma {:induction false} OneJoins(token: Token, vNodes: nat, ring: seq<nat>, owner: map<nat, Name>,
                                    members: set<Name>, n: Name, i: nat)
    requires CollisionFree(token, vNodes, members + {n}) && n !in members && i < vNodes
             && Joining(token, vNodes, ring, owner, members, n, i)
    ensures Joining(token, vNodes, ring + [token(n, i)], owner[token(n, i) := n], members, n, i + 1)
  {
    var h := token(n, i);
    NewToken(token, vNodes, members, n, i);
    OneToken(token, n, i);
    hide CollisionFree;
    forall m, j | m in members && 0 <= j < vNodes ensures token(m, j) in owner && token(m, j) != h {
      assert token(m, j) in Tokens(token, vNodes, members);
    }
    assert forall t :: t in ring + [h] <==> t in ring || t == h;
  }

  method AddTokens(token: Token, vNodes: nat, ring: seq<nat>, owner: map<nat, Name>, members: set<Name>, n: Name)
    returns (all: seq<nat>, owners: map<nat, Name>)
    requires CollisionFree(token, vNodes, members + {n}) && n !in members
             && Joining(token, vNodes, ring, owner, members, n, 0)
    ensures Joining(token, vNodes, all, owners, members, n, vNodes)
  {
    hide CollisionFree, Joining;
    all, owners := ring, owner;
    var i := 0;
    while i < vNodes
      invariant 0 <= i <= vNodes && Joining(token, vNodes, all, owners, members, n, i)
    {
      OneJoins(token, vNodes, all, owners, members, n, i);
      var h := token(n, i);
      all := all + [h];
      owners := owners[h := n];
      i := i + 1;
    }
  }

  /** The ring without the tokens of one owner. */
  method DropTokens(ring: seq<nat>, owner: map<nat, Name>, n: Name) returns (r: seq<nat>, left: map<nat, Name>)
    requires Sorted(ring) && forall t :: t in ring ==> t in owner
    ensures Sorted(r) && forall t :: t in r <==> t in ring && owner[t] != n
    ensures (forall t :: t in left <==> t in owner && (t in ring ==> owner[t] != n))
            && forall t :: t in left ==> left[t] == owner[t]
  {
    r, left := [], owner;
    var i := 0;
    while i < |ring|
      invariant 0 <= i <= |ring| && Sorted(r) && (forall t :: t in r <==> t in ring[..i] && owner[t] != n)
      invariant forall t :: t in left <==> t in owner && (t in ring[..i] ==> owner[t] != n)
      invariant forall t :: t in left ==> left[t] == owner[t]
    {
      var h := ring[i];
      Prefix(ring, i);
      if left[h] == n {
        left := left - {h};
      } else {
        Appended(r, h);
        r := r + [h];
      }
      i := i + 1;
    }
    assert ring[..i] == ring;
  }

  lemma {:induction false} Prefix(ring: seq<nat>, i: nat)
    requires Sorted(ring) && i < |ring|
    ensures ring[i] in ring && (forall t :: t in ring[..i] ==> t < ring[i])
            && forall t :: t in ring[..i + 1] <==> t in ring[..i] || t == ring[i]
  {
    assert ring[..i + 1] == ring[..i] + [ring[i]];
  }

  lemma {:induction false} Appended(r: seq<nat>, h: nat)
    requires Sorted(r) && forall t :: t in r ==> t < h
    ensures Sorted(r + [h])
  {
    assert forall i :: 0 <= i < |r| ==> r[i] in r;
  }

  /** sort.Slice */
  method SortTokens(s: seq<nat>) returns (r: seq<nat>)
    requires Distinct(s)
    ensures Sorted(r) && forall t :: t in r <==> t in s
  {
    hide Sorted;
    r := [];
    NoneSorted();
    var i := 0;
    while i < |s|
      invariant 0 <= i <= |s| && Sorted(r) && forall t :: t in r <==> t in s[..i]
    {
      assert s[i] !in s[..i];
      assert s[..i + 1] == s[..i] + [s[i]];
      r := InsertSorted(r, s[i]);
      i := i + 1;
    }
    assert s[..i] == s;
  }

  lemma {:induction false} NoneSorted()
    ensures Sorted([])
  {
  }

  method InsertSorted(ring: seq<nat>, h: nat) returns (r: seq<nat>)
    requires Sorted(ring) && h !in ring
    ensures Sorted(r) && forall t :: t in r <==> t == h || t in ring
  {
    var i := 0;
    while i < |ring| && ring[i] < h
      invariant 0 <= i <= |ring| && forall k :: 0 <= k < i ==> ring[k] < h
    {
      i := i + 1;
    }
    assert i < |ring| ==> ring[i] in ring;
    InsertedAt(ring, h, i);
    r := ring[..i] + [h] + ring[i..];
  }

  lemma {:induction false} InsertedAt(ring: seq<nat>, h: nat, i: nat)
    requires Sorted(ring) && i <= |ring| && (forall k :: 0 <= k < i ==> ring[k] < h) && (i < |ring| ==> ring[i] > h)
    ensures Sorted(ring[..i] + [h] + ring[i..]) && forall t :: t in ring[..i] + [h] + ring[i..] <==> t == h || t in ring
  {
    assert ring == ring[..i] + ring[i..];
    assert forall k :: i <= k < |ring| ==> ring[k] > h;
  }
}
