/**
 The 40-byte header before every stored record version, and the visibility rule.
 */
module RecordHeader {
  import opened ByteOrder
  import opened BigEndian
  import opened Options

  const HEADER_BYTES := 40
  const FLAG_DELETED := 1
  const FLAG_OVERFLOW := 2
  const INVALID_ID := 0xFFFF_FFFF_FFFF_FFFF

  datatype Header = Header(recordId: nat, beginTxn: nat, endTxn: nat, prev: nat, flags: nat, payloadLength: nat)

  ghost predicate InRange(h: Header) {
    && h.recordId < U64_LIMIT && h.beginTxn < U64_LIMIT && h.endTxn < U64_LIMIT && h.prev < U64_LIMIT
    && h.flags < 0x1_0000 && h.payloadLength < U32_LIMIT
  }

  function EncodeHeader(h: Header): (b: Bytes)
    ensures |b| == HEADER_BYTES
  {
    Be(8, h.recordId) + Be(8, h.beginTxn) + Be(8, h.endTxn) + Be(8, h.prev) + Be(2, h.flags) + Be(2, 0) + Be(4,
        h.payloadLength)
  }

  /** The error of DecodeHeader is a buffer shorter than the header. */
  function DecodeHeader(b: Bytes): Header
    requires |b| >= HEADER_BYTES
  {
    Header(Val(b[0..8]), Val(b[8..16]), Val(b[16..24]), Val(b[24..32]), Val(b[32..34]), Val(b[36..40]))
  }

  /** A header is read back whatever follows it. */
  lemma {:induction false} HeaderRoundTrip(h: Header, body: Bytes)
    requires InRange(h)
    ensures DecodeHeader(EncodeHeader(h) + body) == h
    ensures (EncodeHeader(h) + body)[HEADER_BYTES..] == body
  {
    hide Be, Val, Pow256;
    var b := EncodeHeader(h) + body;
    assert b[0..8] == Be(8, h.recordId) && b[8..16] == Be(8, h.beginTxn) && b[16..24] == Be(8, h.endTxn);
    assert b[24..32] == Be(8, h.prev) && b[32..34] == Be(2, h.flags) && b[36..40] == Be(4, h.payloadLength);
    Widths();
    ValOfBe(8, h.recordId);
    ValOfBe(8, h.beginTxn);
    ValOfBe(8, h.endTxn);
    ValOfBe(8, h.prev);
    ValOfBe(2, h.flags);
    ValOfBe(4, h.payloadLength);
  }

  predicate IsDeleted(h: Header) {
    h.flags % 2 == 1
  }

  predicate IsOverflow(h: Header) {
    h.flags / 2 % 2 == 1
  }

  /** IsVisible, with the commit test as a function. */
  predicate IsVisible(h: Header, snapshot: nat, committed: nat -> bool, active: nat) {
    && (h.beginTxn <= snapshot || h.beginTxn == active)
    && (h.beginTxn == active || committed(h.beginTxn))
    && !(h.endTxn != 0 && h.endTxn <= snapshot && (committed(h.endTxn) || h.endTxn == active))
  }

  // ---------- Version histories ----------

  /** One write of a record: None is a deletion. */
  datatype Version = Version(begin: nat, payload: Option<Bytes>)

  /** What a snapshot should see: the newest version written by a transaction at or below the bound. */
  function ValueAt(vs: seq<Version>, bound: nat): Option<Bytes> {
    if vs == [] then None
    else if vs[0].begin <= bound then vs[0].payload
    else ValueAt(vs[1..], bound)
  }

  /** A version at or below the bound, after only versions above it. */
  ghost predicate SeenAt(vs: seq<Version>, bound: nat, i: nat) {
    i < |vs| && vs[i].begin <= bound && forall j :: 0 <= j < i ==> vs[j].begin > bound
  }

  lemma {:induction false} ValueOfSeen(vs: seq<Version>, bound: nat, i: nat)
    requires SeenAt(vs, bound, i)
    ensures ValueAt(vs, bound) == vs[i].payload
  {
    if i > 0 { ValueOfSeen(vs[1..], bound, i - 1); }
  }

  lemma {:induction false} NothingSeen(vs: seq<Version>, bound: nat)
    requires forall j :: 0 <= j < |vs| ==> vs[j].begin > bound
    ensures ValueAt(vs, bound) == None
  {
    if vs != [] { NothingSeen(vs[1..], bound); }
  }

  /** Versions of later transactions do not change what a snapshot sees. */
  lemma {:induction false} SnapshotStable(newer: seq<Version>, vs: seq<Version>, bound: nat)
    requires forall j :: 0 <= j < |newer| ==> newer[j].begin > bound
    ensures ValueAt(newer + vs, bound) == ValueAt(vs, bound)
  {
    if newer == [] {
      assert newer + vs == vs;
    } else {
      assert (newer + vs)[1..] == newer[1..] + vs;
      SnapshotStable(newer[1..], vs, bound);
    }
  }

  // ---------- Reads that give up ----------

  const MAX_VISITED := 1000

  function Reach(vs: seq<Version>): (r: seq<Version>) {
    if |vs| > MAX_VISITED then vs[..MAX_VISITED] else vs
  }

  function Newer(vs: seq<Version>, bound: nat): (n: nat)
    ensures n <= |vs|
    ensures forall j :: 0 <= j < n ==> vs[j].begin > bound
    ensures n < |vs| ==> vs[n].begin <= bound
  {
    if vs == [] || vs[0].begin <= bound then 0 else 1 + Newer(vs[1..], bound)
  }

  /** A read that follows at most 1000 versions is right if and only if fewer than 1000 are too new, or there
      is nothing to see. */
  lemma {:induction false} BoundedReadExact(vs: seq<Version>, bound: nat)
    ensures ValueAt(Reach(vs), bound) == ValueAt(vs, bound)
            <==> (Newer(vs, bound) < MAX_VISITED || ValueAt(vs, bound) == None)
  {
    ReachDecides(vs, bound);
  }

  lemma {:induction false} ReachDecides(vs: seq<Version>, bound: nat)
    ensures ValueAt(Reach(vs), bound) == if Newer(vs, bound) < MAX_VISITED then ValueAt(vs, bound) else None
  {
    var n := Newer(vs, bound);
    if n < |vs| {
      ValueOfSeen(vs, bound, n);
      if n < MAX_VISITED { ValueOfSeen(Reach(vs), bound, n); } else { NothingSeen(Reach(vs), bound); }
    } else {
      NothingSeen(vs, bound);
      NothingSeen(Reach(vs), bound);
    }
  }

  lemma {:induction false} NewerGrows(newer: seq<Version>, vs: seq<Version>, bound: nat)
    requires forall j :: 0 <= j < |newer| ==> newer[j].begin > bound
    ensures Newer(newer + vs, bound) == |newer| + Newer(vs, bound)
  {
    if newer == [] {
      assert newer + vs == vs;
    } else {
      assert (newer + vs)[1..] == newer[1..] + vs;
      NewerGrows(newer[1..], vs, bound);
    }
  }

  /** A reader that saw a value keeps seeing it exactly while fewer than 1000 versions are newer than it. */
  lemma {:induction false} ReadStable(newer: seq<Version>, vs: seq<Version>, bound: nat)
    requires forall j :: 0 <= j < |newer| ==> newer[j].begin > bound
    requires ValueAt(Reach(vs), bound).Some?
    ensures ValueAt(Reach(newer + vs), bound) == ValueAt(Reach(vs), bound) <==> |newer| + Newer(vs, bound) < MAX_VISITED
  {
    SnapshotStable(newer, vs, bound);
    NewerGrows(newer, vs, bound);
    ReachDecides(vs, bound);
    ReachDecides(newer + vs, bound);
  }
}
