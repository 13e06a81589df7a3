/**
 Overflow chains: payloads too long for a slotted page, cut into chunks on linked pages.
 */
module OverflowChain {
  import opened ByteOrder
  import opened BigEndian
  import opened Options
  import opened RecordHeader

  const MAX_CHUNK := 16340
  const INVALID_PAGE := INVALID_ID

  datatype OverflowPage = OverflowPage(next: nat, chunk: Bytes)
  type Overflow = map<nat, OverflowPage>

  ghost function Min(a: nat, b: nat): nat {
    if a < b then a else b
  }

  ghost function Chunk(data: Bytes, i: nat): (c: Bytes)
    requires i * MAX_CHUNK <= |data|
  {
    data[i * MAX_CHUNK..Min((i + 1) * MAX_CHUNK, |data|)]
  }

  ghost predicate Distinct(ps: seq<nat>) {
    forall i, j :: 0 <= i < j < |ps| ==> ps[i] != ps[j]
  }

  /** The pages ps hold the first |ps| chunks of data, each pointing at the next; the last at none. */
  ghost predicate Holds(ov: Overflow, ps: seq<nat>, data: Bytes) {
    && Distinct(ps)
    && forall i :: 0 <= i < |ps| ==>
      && ps[i] in ov && ps[i] != INVALID_PAGE && i * MAX_CHUNK < |data|
      && ov[ps[i]] == OverflowPage(if i + 1 < |ps| then ps[i + 1] else INVALID_PAGE, Chunk(data, i))
  }

  ghost predicate HoldsAll(ov: Overflow, first: nat, data: Bytes) {
    exists ps: seq<nat> :: IsChain(ov, ps, first, data)
  }

  ghost predicate IsChain(ov: Overflow, ps: seq<nat>, first: nat, data: Bytes) {
    Holds(ov, ps, data) && 0 < |ps| && ps[0] == first && (|ps| - 1) * MAX_CHUNK < |data| <= |ps| * MAX_CHUNK
  }

  lemma {:induction false} HoldsElsewhere(ov: Overflow, ov': Overflow, first: nat, data: Bytes)
    requires HoldsAll(ov, first, data) && ov.Keys <= ov'.Keys && forall p :: p in ov ==> ov'[p] == ov[p]
    ensures HoldsAll(ov', first, data)
  {
    hide Chunk;
    var ps :| IsChain(ov, ps, first, data);
    assert IsChain(ov', ps, first, data);
  }

  /** The chain grows by a page, and the page before it learns its number. */
  lemma {:induction false} Appended(ov: Overflow, ps: seq<nat>, data: Bytes, p: nat, ov': Overflow)
    requires Holds(ov, ps, data) && p !in ov && p != INVALID_PAGE && |ps| * MAX_CHUNK < |data|
    requires ov'.Keys == ov.Keys + {p} && ov'[p] == OverflowPage(INVALID_PAGE, Chunk(data, |ps|))
    requires forall q :: q in ov ==> ov'[q] == if ps != [] && q == ps[|ps| - 1] then ov[q].(next := p) else ov[q]
    ensures Holds(ov', ps + [p], data)
  {
    hide Chunk;
    var ps' := ps + [p];
    forall i | 0 <= i < |ps'|
      ensures ps'[i] in ov' && i * MAX_CHUNK < |data| && ov'[ps'[i]]
              == OverflowPage(if i + 1 < |ps'| then ps'[i + 1] else INVALID_PAGE, Chunk(data, i))
    {
      if i < |ps| {
        assert ov[ps[i]] == OverflowPage(if i + 1 < |ps| then ps[i + 1] else INVALID_PAGE, Chunk(data, i));
      }
    }
  }

  /** readOverflowChain: follow the chain until enough bytes are there, then cut. */
  method ReadChain(ov: Overflow, first: nat, total: nat, ghost data: Bytes) returns (r: Bytes)
    requires HoldsAll(ov, first, data) && total <= |data|
    ensures r == data[..total]
  {
    hide Holds;
    ghost var ps :| IsChain(ov, ps, first, data);
    r := [];
    var cur := first;
    ghost var i := 0;
    ChainPage(ov, ps, first, data, 0);
    while cur != INVALID_PAGE && |r| < total
      invariant 0 <= i <= |ps| && (i < |ps| ==> cur == ps[i] != INVALID_PAGE) && (i == |ps| ==> cur == INVALID_PAGE)
      invariant r == data[..Min(i * MAX_CHUNK, |data|)]
      decreases |ps| - i
    {
      ChainPage(ov, ps, first, data, i);
      r := r + ov[cur].chunk;
      cur := ov[cur].next;
      i := i + 1;
      if i < |ps| { ChainPage(ov, ps, first, data, i); }
    }
    if |r| > total {
      r := r[..total];
    }
  }

  lemma {:induction false} ChainPage(ov: Overflow, ps: seq<nat>, first: nat, data: Bytes, i: nat)
    requires IsChain(ov, ps, first, data) && i < |ps|
    ensures ps[i] in ov && ps[i] != INVALID_PAGE && i * MAX_CHUNK < |data|
    ensures ov[ps[i]].next == (if i + 1 < |ps| then ps[i + 1] else INVALID_PAGE)
    ensures data[..Min(i * MAX_CHUNK, |data|)] + ov[ps[i]].chunk == data[..Min((i + 1) * MAX_CHUNK, |data|)]
  {
    var page := ov[ps[i]];
    assert page == OverflowPage(if i + 1 < |ps| then ps[i + 1] else INVALID_PAGE, Chunk(data, i));
    assert page.chunk == Chunk(data, i);
    var a, b := i * MAX_CHUNK, Min((i + 1) * MAX_CHUNK, |data|);
    assert data[..a] + data[a..b] == data[..b];
  }
}
