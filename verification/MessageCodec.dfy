/**
 Queue messages and their stored form: Message.Encode and DecodeMessage.
 */
module MessageCodec {
  import opened ByteOrder
  import opened BigEndian
  import opened Options

  const SIGN64 := 0x8000_0000_0000_0000

  type Int64 = n: int | -SIGN64 <= n < SIGN64

  /** A state read back from bytes may be none of the four that are ever written. */
  datatype State = Ready | Invisible | Completed | DeadLetter | Other(code: Byte)

  datatype Message = Message(
    id: Bytes, queue: Bytes, payload: Bytes, priority: Byte, dedupId: Bytes,
    retryCount: int, maxRetries: int, state: State,
    visibleAt: Int64, createdAt: Int64, expireAt: Int64)

  function StateByte(s: State): Byte {
    match s
    case Ready => 0
    case Invisible => 1
    case Completed => 2
    case DeadLetter => 3
    case Other(code) => code
  }

  const FIXED := 36

  /** Magic, state, priority, counters and times.  Negative numbers are written in two's complement. */
  function Fixed(m: Message): (b: Bytes)
    ensures |b| == FIXED
  {
    [0x51, 0x4D, StateByte(m.state), m.priority] + Be(4, m.retryCount % U32_LIMIT) + Be(4, m.maxRetries % U32_LIMIT)
    + Be(8, m.visibleAt % U64_LIMIT) + Be(8, m.createdAt % U64_LIMIT) + Be(8, m.expireAt % U64_LIMIT)
  }

  /** A length and that many bytes. */
  function Block(width: nat, b: Bytes): Bytes {
    Be(width, |b|) + b
  }

  function Encode(m: Message): Bytes {
    Fixed(m) + Block(2, m.id) + Block(2, m.queue) + Block(2, m.dedupId) + Block(4, m.payload)
  }

  datatype Part = Part(data: Bytes, next: nat)

  /** One length-prefixed part at an offset, or none if the buffer is too short for it. */
  function ReadBlock(buf: Bytes, off: nat, width: nat): Option<Part> {
    if |buf| < off + width then None
    else
      var n := Val(buf[off..off + width]);
      if |buf| < off + width + n then None else Some(Part(buf[off + width..off + width + n], off + width + n))
  }

  function Signed(u: nat): int {
    if u >= SIGN64 then u - U64_LIMIT else u
  }

  function Time(buf: Bytes, off: nat): Int64
    requires off + 8 <= |buf|
  {
    ValBound(buf[off..off + 8]);
    Widths();
    Signed(Val(buf[off..off + 8]))
  }

  function StateOf(b: Byte): State {
    if b == 0 then Ready else if b == 1 then Invisible
                                else if b == 2 then Completed else if b == 3 then DeadLetter else Other(b)
  }

  function Decode(buf: Bytes): Option<Message> {
    if |buf| < FIXED || buf[0] != 0x51 || buf[1] != 0x4D then None
    else
      var id := ReadBlock(buf, FIXED, 2);
      if id.None? then None else
      var queue := ReadBlock(buf, id.value.next, 2);
      if queue.None? then None else
      var dedup := ReadBlock(buf, queue.value.next, 2);
      if dedup.None? then None else
      var payload := ReadBlock(buf, dedup.value.next, 4);
      if payload.None? then None else
      Some(Message(id.value.data, queue.value.data, payload.value.data, buf[3], dedup.value.data,
                   Val(buf[4..8]), Val(buf[8..12]), StateOf(buf[2]), Time(buf, 12), Time(buf, 20), Time(buf, 28)))
  }

  /** Lengths and counters fit their fields. */
  predicate Encodable(m: Message) {
    && |m.id| < 0x1_0000 && |m.queue| < 0x1_0000 && |m.dedupId| < 0x1_0000 && |m.payload| < U32_LIMIT
    && 0 <= m.retryCount < U32_LIMIT && 0 <= m.maxRetries < U32_LIMIT && (m.state.Other? ==> m.state.code > 3)
  }

  lemma {:induction false} BlockRead(pre: Bytes, b: Bytes, post: Bytes, width: nat)
    requires |b| < Pow256(width)
    ensures ReadBlock(pre + Block(width, b) + post, |pre|, width) == Some(Part(b, |pre| + width + |b|))
  {
    hide Be, Val, Pow256;
    var buf := pre + Block(width, b) + post;
    assert buf[|pre|..|pre| + width] == Be(width, |b|);
    assert buf[|pre| + width..|pre| + width + |b|] == b;
    ValOfBe(width, |b|);
  }

  lemma {:induction false} BlockCut(pre: Bytes, b: Bytes, post: Bytes, width: nat, cut: nat)
    requires |b| < Pow256(width) && cut < |pre| + width + |b|
    ensures ReadBlock((pre + Block(width, b) + post)[..cut], |pre|, width) == None
  {
    hide Be, Val, Pow256;
    var buf := pre + Block(width, b) + post;
    if cut >= |pre| + width {
      assert buf[..cut][|pre|..|pre| + width] == Be(width, |b|);
      ValOfBe(width, |b|);
    }
  }

  lemma {:induction false} BlockSame(buf: Bytes, off: nat, width: nat, cut: nat)
    requires cut <= |buf| && ReadBlock(buf, off, width).Some? && ReadBlock(buf, off, width).value.next <= cut
    ensures ReadBlock(buf[..cut], off, width) == ReadBlock(buf, off, width)
  {
    hide Val;
    assert buf[..cut][off..off + width] == buf[off..off + width];
    var next := ReadBlock(buf, off, width).value.next;
    assert buf[..cut][off + width..next] == buf[off + width..next];
  }

  /** The four parts of a message, in order. */
  lemma {:induction false} Parts(m: Message, rest: Bytes)
    requires Encodable(m)
    ensures var b := Encode(m) + rest;
            var n1 := FIXED + 2 + |m.id|; var n2 := n1 + 2 + |m.queue|; var n3 := n2 + 2 + |m.dedupId|;
            && ReadBlock(b, FIXED, 2) == Some(Part(m.id, n1)) && ReadBlock(b, n1, 2) == Some(Part(m.queue, n2))
            && ReadBlock(b, n2, 2) == Some(Part(m.dedupId, n3))
                && ReadBlock(b, n3, 4) == Some(Part(m.payload, n3 + 4 + |m.payload|))
            && |Encode(m)| == n3 + 4 + |m.payload|
  {
    hide Be, Val, Fixed, ReadBlock;
    Widths();
    var f, i, q, d, p := Fixed(m), Block(2, m.id), Block(2, m.queue), Block(2, m.dedupId), Block(4, m.payload);
    BlockRead(f, m.id, q + d + p + rest, 2);
    BlockRead(f + i, m.queue, d + p + rest, 2);
    BlockRead(f + i + q, m.dedupId, p + rest, 2);
    BlockRead(f + i + q + d, m.payload, rest, 4);
    hide Block;
    var b := Encode(m) + rest;
    assert b == f + i + (q + d + p + rest) == f + i + q + (d + p + rest) == f + i + q + d + (p + rest)
           == f + i + q + d + p + rest;
  }

  lemma {:induction false} FixedFields(m: Message, b: Bytes)
    requires Encodable(m) && |b| >= FIXED && b[..FIXED] == Fixed(m)
    ensures b[0] == 0x51 && b[1] == 0x4D && StateOf(b[2]) == m.state && b[3] == m.priority
    ensures Val(b[4..8]) == m.retryCount && Val(b[8..12]) == m.maxRetries
    ensures Time(b, 12) == m.visibleAt && Time(b, 20) == m.createdAt && Time(b, 28) == m.expireAt
  {
    hide Be, Val, Pow256;
    var f := Fixed(m);
    assert f[4..8] == Be(4, m.retryCount % U32_LIMIT) && f[8..12] == Be(4, m.maxRetries % U32_LIMIT);
    assert f[12..20] == Be(8, m.visibleAt % U64_LIMIT) && f[20..28] == Be(8, m.createdAt % U64_LIMIT)
           && f[28..36] == Be(8, m.expireAt % U64_LIMIT);
    assert f[0] == 0x51 && f[1] == 0x4D && f[2] == StateByte(m.state) && f[3] == m.priority;
    hide Fixed;
    assert b[4..8] == f[4..8] && b[8..12] == f[8..12] && b[12..20] == f[12..20] && b[20..28] == f[20..28]
           && b[28..36] == f[28..36];
    assert b[0] == f[0] && b[1] == f[1] && b[2] == f[2] && b[3] == f[3];
    Widths();
    ValOfBe(4, m.retryCount);
    ValOfBe(4, m.maxRetries);
    ValOfBe(8, m.visibleAt % U64_LIMIT);
    ValOfBe(8, m.createdAt % U64_LIMIT);
    ValOfBe(8, m.expireAt % U64_LIMIT);
  }

  /** A stored message is read back whole, whatever follows it. */
  lemma {:induction false} MessageRoundTrip(m: Message, rest: Bytes)
    requires Encodable(m)
    ensures Decode(Encode(m) + rest) == Some(m)
  {
    hide Fixed, Block, ReadBlock, Time, Val;
    Parts(m, rest);
    var b := Encode(m) + rest;
    assert b[..FIXED] == Fixed(m);
    FixedFields(m, b);
  }

  /** A stored message cut anywhere is refused. */
  /** Bytes that do not begin with QM are no message. */
  lemma {:induction false} WrongMagicRefused(b: Bytes)
    requires |b| < 2 || b[..2] != [0x51, 0x4D]
    ensures Decode(b) == None
  {
    if |b| >= 2 { assert b[..2] == [b[0], b[1]]; }
  }

  lemma {:induction false} CutMessageRefused(m: Message, cut: nat)
    requires Encodable(m) && cut < |Encode(m)|
    ensures Decode(Encode(m)[..cut]) == None
  {
    hide Fixed, Block, ReadBlock, Time, Val, StateOf;
    var b := Encode(m);
    assert b + [] == b;
    Parts(m, []);
    PartsCut(m, cut);
    var n1 := FIXED + 2 + |m.id|;
    var n2 := n1 + 2 + |m.queue|;
    var n3 := n2 + 2 + |m.dedupId|;
    if n1 <= cut { BlockSame(b, FIXED, 2, cut); }
    if n2 <= cut { BlockSame(b, n1, 2, cut); }
    if n3 <= cut { BlockSame(b, n2, 2, cut); }
  }

  /** The part in which the cut lies cannot be read. */
  lemma {:induction false} PartsCut(m: Message, cut: nat)
    requires Encodable(m)
    ensures var b := Encode(m);
            var n1 := FIXED + 2 + |m.id|; var n2 := n1 + 2 + |m.queue|; var n3 := n2 + 2 + |m.dedupId|;
            cut < |b| ==>
              && (cut < n1 ==> ReadBlock(b[..cut], FIXED, 2) == None)
                  && (cut < n2 ==> ReadBlock(b[..cut], n1, 2) == None)
              && (cut < n3 ==> ReadBlock(b[..cut], n2, 2) == None) && ReadBlock(b[..cut], n3, 4) == None
  {
    hide Be, Val, Fixed, ReadBlock;
    Widths();
    var f, i, q, d, p := Fixed(m), Block(2, m.id), Block(2, m.queue), Block(2, m.dedupId), Block(4, m.payload);
    if cut < |Encode(m)| {
      if cut < |f + i| { BlockCut(f, m.id, q + d + p, 2, cut); }
      if cut < |f + i + q| { BlockCut(f + i, m.queue, d + p, 2, cut); }
      if cut < |f + i + q + d| { BlockCut(f + i + q, m.dedupId, p, 2, cut); }
      BlockCut(f + i + q + d, m.payload, [], 4, cut);
    }
    hide Block;
    var b := Encode(m);
    assert b == f + i + (q + d + p) == f + i + q + (d + p) == f + i + q + d + p == f + i + q + d + p + [];
  }
}
