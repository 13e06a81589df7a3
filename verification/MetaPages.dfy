/**
 The dual meta pages: SaveMeta writes the slot that is not in use, opening a file takes the valid slot with
 the higher generation.

 The checksum is a parameter.  A write that does not complete leaves the old page, the new page, or bytes
 whose checksum does not match.
 */
module MetaPages {
  import opened ByteOrder
  import opened BigEndian
  import opened Options

  const META_BYTES := 116
  const FORMAT_VERSION := 1
  const MAGIC: Bytes := [0x43, 0x4F, 0x43, 0x4F, 0x44, 0x42, 0x30, 0x31]

  type U32 = n: int | 0 <= n < U32_LIMIT
  type U64 = n: int | 0 <= n < U64_LIMIT
  type Checksum = Bytes -> U32

  datatype Meta = Meta(
    pageSize: U32, generation: U64, databaseId: Bytes,
    catalogRoot: U64, recordDirRoot: U64, freeListRoot: U64, nextPage: U64, nextRecord: U64,
    lastTxn: U64, lastLsn: U64, lastCheckpoint: U64, flags: U64)

  predicate PowerOfTwo(n: nat) {
    n == 1 || (n > 1 && n % 2 == 0 && PowerOfTwo(n / 2))
  }

  predicate MetaOk(m: Meta) {
    PowerOfTwo(m.pageSize) && m.pageSize >= META_BYTES && |m.databaseId| == 16
  }

  // ---------- The page ----------

  function Roots(m: Meta): (b: Bytes)
    ensures |b| == 40
  {
    Be(8, m.catalogRoot) + Be(8, m.recordDirRoot) + Be(8, m.freeListRoot) + Be(8, m.nextPage) + Be(8, m.nextRecord)
  }

  function Marks(m: Meta): (b: Bytes)
    ensures |b| == 32
  {
    Be(8, m.lastTxn) + Be(8, m.lastLsn) + Be(8, m.lastCheckpoint) + Be(8, m.flags)
  }

  function Front(m: Meta): (b: Bytes)
    requires |m.databaseId| == 16
    ensures |b| == 40
  {
    MAGIC + Be(4, FORMAT_VERSION) + Be(4, m.pageSize) + Be(8, m.generation) + m.databaseId
  }

  /** The page with a given value in the checksum field. */
  function Sealed(m: Meta, sum: U32): (b: Bytes)
    requires MetaOk(m)
    ensures |b| == m.pageSize
  {
    Front(m) + Roots(m) + Marks(m) + Be(4, sum) + seq(m.pageSize - META_BYTES, _ => 0)
  }

  function Encode(crc: Checksum, m: Meta): Bytes
    requires MetaOk(m)
  {
    Sealed(m, crc(Sealed(m, 0)))
  }

  function Field(b: Bytes, off: nat): U64
    requires off + 8 <= |b|
  {
    ValBound(b[off..off + 8]);
    Widths();
    Val(b[off..off + 8])
  }

  function Field32(b: Bytes, off: nat): U32
    requires off + 4 <= |b|
  {
    ValBound(b[off..off + 4]);
    Widths();
    Val(b[off..off + 4])
  }

  function Decode(crc: Checksum, b: Bytes): Option<Meta> {
    if |b| < META_BYTES || b[0..8] != MAGIC || Field32(b, 8) != FORMAT_VERSION || !PowerOfTwo(Field32(b, 12)) then None
    else if Field32(b, 112) != crc(b[..112] + Be(4, 0) + b[116..]) then None
    else Some(Meta(Field32(b, 12), Field(b, 16), b[24..40],
                   Field(b, 40), Field(b, 48), Field(b, 56), Field(b, 64), Field(b, 72), Field(b, 80), Field(b, 88),
                       Field(b, 96), Field(b, 104)))
  }

  lemma {:induction false} FrontFields(m: Meta, b: Bytes)
    requires |m.databaseId| == 16 && |b| >= 40 && b[..40] == Front(m)
    ensures b[0..8] == MAGIC && Field32(b, 8) == FORMAT_VERSION && Field32(b, 12) == m.pageSize
            && Field(b, 16) == m.generation && b[24..40] == m.databaseId
  {
    hide Be, Val, Pow256;
    var f := Front(m);
    assert f[0..8] == MAGIC && f[8..12] == Be(4, FORMAT_VERSION) && f[12..16] == Be(4, m.pageSize)
           && f[16..24] == Be(8, m.generation) && f[24..40] == m.databaseId;
    assert b[0..8] == f[0..8] && b[8..12] == f[8..12] && b[12..16] == f[12..16] && b[16..24] == f[16..24]
           && b[24..40] == f[24..40];
    Widths();
    ValOfBe(4, FORMAT_VERSION);
    ValOfBe(4, m.pageSize);
    ValOfBe(8, m.generation);
  }

  lemma {:induction false} SliceOfSlice(b: Bytes, lo: nat, hi: nat, x: nat, y: nat)
    requires lo <= hi <= |b| && x <= y <= hi - lo
    ensures b[lo..hi][x..y] == b[lo + x..lo + y]
  {
    var s, t := b[lo..hi][x..y], b[lo + x..lo + y];
    forall i | 0 <= i < |s| ensures s[i] == t[i] {
      assert s[i] == b[lo..hi][x + i];
    }
    assert s == t;
  }

  lemma {:induction false} FieldAt(b: Bytes, off: nat, part: Bytes, k: nat, v: U64)
    requires off + |part| <= |b| && b[off..off + |part|] == part && k + 8 <= |part| && part[k..k + 8] == Be(8, v)
    ensures Field(b, off + k) == v
  {
    hide Be, Val, Pow256;
    SliceOfSlice(b, off, off + |part|, k, k + 8);
    Widths();
    ValOfBe(8, v);
  }

  lemma {:induction false} RootFields(m: Meta, b: Bytes)
    requires |b| >= 80 && b[40..80] == Roots(m)
    ensures Field(b, 40) == m.catalogRoot && Field(b, 48) == m.recordDirRoot && Field(b, 56) == m.freeListRoot
            && Field(b, 64) == m.nextPage && Field(b, 72) == m.nextRecord
  {
    hide Be, Val, Pow256, Field;
    var r := Roots(m);
    assert r[0..8] == Be(8, m.catalogRoot) && r[8..16] == Be(8, m.recordDirRoot) && r[16..24] == Be(8, m.freeListRoot)
           && r[24..32] == Be(8, m.nextPage) && r[32..40] == Be(8, m.nextRecord);
    FieldAt(b, 40, r, 0, m.catalogRoot);
    FieldAt(b, 40, r, 8, m.recordDirRoot);
    FieldAt(b, 40, r, 16, m.freeListRoot);
    FieldAt(b, 40, r, 24, m.nextPage);
    FieldAt(b, 40, r, 32, m.nextRecord);
  }

  lemma {:induction false} MarkFields(m: Meta, b: Bytes)
    requires |b| >= 112 && b[80..112] == Marks(m)
    ensures Field(b, 80) == m.lastTxn && Field(b, 88) == m.lastLsn && Field(b, 96) == m.lastCheckpoint
            && Field(b, 104) == m.flags
  {
    hide Be, Val, Pow256, Field;
    var r := Marks(m);
    assert r[0..8] == Be(8, m.lastTxn) && r[8..16] == Be(8, m.lastLsn) && r[16..24] == Be(8, m.lastCheckpoint)
           && r[24..32] == Be(8, m.flags);
    FieldAt(b, 80, r, 0, m.lastTxn);
    FieldAt(b, 80, r, 8, m.lastLsn);
    FieldAt(b, 80, r, 16, m.lastCheckpoint);
    FieldAt(b, 80, r, 24, m.flags);
  }

  lemma {:induction false} SealedParts(m: Meta, sum: U32)
    requires MetaOk(m)
    ensures var b := Sealed(m, sum);
            && b[..40] == Front(m) && b[40..80] == Roots(m) && b[80..112] == Marks(m) && Field32(b, 112) == sum
            && b[..112] + Be(4, 0) + b[116..] == Sealed(m, 0)
  {
    hide Be, Val, Pow256, Front, Roots, Marks, PowerOfTwo;
    var b := Sealed(m, sum);
    assert b[112..116] == Be(4, sum);
    assert b[..112] == Front(m) + Roots(m) + Marks(m) && b[116..] == seq(m.pageSize - META_BYTES, _ => 0);
    Widths();
    ValOfBe(4, sum);
  }

  /** A meta page written whole is read back. */
  lemma {:induction false} MetaRoundTrip(crc: Checksum, m: Meta)
    requires MetaOk(m)
    ensures Decode(crc, Encode(crc, m)) == Some(m)
  {
    hide Sealed, Front, Roots, Marks, Field, Field32, PowerOfTwo, Be;
    var b := Encode(crc, m);
    SealedParts(m, crc(Sealed(m, 0)));
    FrontFields(m, b);
    RootFields(m, b);
    MarkFields(m, b);
  }

  // ---------- Two slots ----------

  // ---------- What is refused ----------

  /** Bytes 112 to 115 are the checksum of the page with these four zeroed. */
  predicate ChecksumOk(crc: Checksum, b: Bytes) {
    |b| >= 116 && Val(b[112..116]) == crc(b[..112] + [0, 0, 0, 0] + b[116..])
  }

  ghost function Pow2(e: nat): nat {
    if e == 0 then 1 else 2 * Pow2(e - 1)
  }

  lemma {:induction false} ExponentOf(n: nat) returns (e: nat)
    requires PowerOfTwo(n)
    ensures n == Pow2(e)
  {
    e := 0;
    if n > 1 {
      var d := ExponentOf(n / 2);
      e := d + 1;
    }
  }

  lemma {:induction false} PowerIs(e: nat)
    ensures Pow2(e) >= 1 && PowerOfTwo(Pow2(e))
  {
    if e > 0 {
      PowerIs(e - 1);
      assert Pow2(e) / 2 == Pow2(e - 1) && Pow2(e) % 2 == 0;
    }
  }

  lemma {:induction false} PowerOfTwoIff(n: nat)
    ensures PowerOfTwo(n) <==> exists e: nat :: n == Pow2(e)
  {
    hide PowerOfTwo, Pow2;
    if PowerOfTwo(n) {
      var e := ExponentOf(n);
    }
    forall e: nat ensures PowerOfTwo(Pow2(e)) { PowerIs(e); }
  }

  /** A page opens if and only if it has the magic bytes, version 1, a power of two for its page size and the right
      checksum; and then it has the bytes that were written for the page found. */
  lemma {:induction false} DecodeIff(crc: Checksum, b: Bytes)
    ensures Decode(crc, b).Some? <==>
              && |b| >= 116 && b[0..8] == [0x43, 0x4F, 0x43, 0x4F, 0x44, 0x42, 0x30, 0x31] && Val(b[8..12]) == 1
              && (exists e: nat :: Val(b[12..16]) == Pow2(e)) && ChecksumOk(crc, b)
    ensures Decode(crc, b).Some? ==> var m := Decode(crc, b).value;
              |m.databaseId| == 16 && b[..40] == Front(m) && b[40..80] == Roots(m) && b[80..112] == Marks(m)
  {
    hide Be, Val, Pow2, PowerOfTwo;
    if |b| >= 116 {
      Widths();
      Zeros();
      PowerOfTwoIff(Val(b[12..16]));
      if Decode(crc, b).Some? {
        DecodedBytes(crc, b);
      }
    }
  }

  lemma {:induction false} Zeros()
    ensures Be(4, 0) == [0, 0, 0, 0]
  {
    assert Be(3, 0) == Be(2, 0) + [0] && Be(2, 0) == Be(1, 0) + [0] && Be(1, 0) == Be(0, 0) + [0];
  }

  lemma {:induction false} DecodedBytes(crc: Checksum, b: Bytes)
    requires Decode(crc, b).Some?
    ensures var m := Decode(crc, b).value;
            |m.databaseId| == 16 && b[..40] == Front(m) && b[40..80] == Roots(m) && b[80..112] == Marks(m)
  {
    hide Be, Val, PowerOfTwo;
    BytesOf(b, 8, 4);
    BytesOf(b, 12, 4);
    BytesOf(b, 16, 8);
    BytesOf(b, 40, 8);
    BytesOf(b, 48, 8);
    BytesOf(b, 56, 8);
    BytesOf(b, 64, 8);
    BytesOf(b, 72, 8);
    BytesOf(b, 80, 8);
    BytesOf(b, 88, 8);
    BytesOf(b, 96, 8);
    BytesOf(b, 104, 8);
    assert b[..40] == b[0..8] + b[8..12] + b[12..16] + b[16..24] + b[24..40];
    assert b[40..80] == b[40..48] + b[48..56] + b[56..64] + b[64..72] + b[72..80];
    assert b[80..112] == b[80..88] + b[88..96] + b[96..104] + b[104..112];
  }

  lemma {:induction false} BytesOf(b: Bytes, off: nat, n: nat)
    requires off + n <= |b|
    ensures b[off..off + n] == Be(n, Val(b[off..off + n]))
  {
    BeOfVal(b[off..off + n]);
  }

  lemma {:induction false} MismatchRefused(crc: Checksum, b: Bytes)
    requires !ChecksumOk(crc, b)
    ensures Decode(crc, b) == None
  {
    hide Decode, ChecksumOk;
    DecodeIff(crc, b);
  }

  /** What a write that may not have completed can leave in its slot. */
  ghost predicate MayLeave(crc: Checksum, before: Bytes, written: Bytes, left: Bytes) {
    left == before || left == written || !ChecksumOk(crc, left)
  }

  datatype Opened = Opened(meta: Meta, slot: nat)

  /** OpenPager on an existing file. */
  function Choose(a: Option<Meta>, b: Option<Meta>): Option<Opened> {
    if a.None? && b.None? then None
    else if a.Some? && b.Some? then
      if a.value.generation >= b.value.generation then Some(Opened(a.value, 0)) else Some(Opened(b.value, 1))
    else if a.Some? then Some(Opened(a.value, 0)) else Some(Opened(b.value, 1))
  }

  class MetaStore {
    const crc: Checksum
    var slots: seq<Bytes>
    var meta: Meta
    var active: nat
    ghost var completed: Meta       // the last meta page known to be saved
    ghost var attempts: seq<Meta>   // saves begun since that did not complete

    ghost predicate Valid()
      reads this
    {
      && |slots| == 2 && active < 2 && MetaOk(meta) && MetaOk(completed) && completed.generation <= meta.generation
      && Decode(crc, slots[active]) == Some(completed)
      && (forall x :: x in attempts ==> MetaOk(x) && completed.generation < x.generation <= meta.generation)
      && OtherOk(Decode(crc, slots[1 - active]), completed, attempts)
    }

    /** A new file: generation 1 in slot 0 and generation 0 in slot 1. */
    constructor (crc: Checksum, initial: Meta)
      requires MetaOk(initial) && initial.generation == 1
      ensures Valid() && meta == completed == initial && attempts == [] && this.crc == crc
    {
      this.crc := crc;
      MetaRoundTrip(crc, initial);
      MetaRoundTrip(crc, initial.(generation := 0));
      slots := [Encode(crc, initial), Encode(crc, initial.(generation := 0))];
      meta, active, completed, attempts := initial, 0, initial, [];
    }

    /** The rest of the program changes the meta page in memory. */
    method Change(m: Meta)
      requires Valid() && MetaOk(m) && m.generation == meta.generation
      modifies this`meta
      ensures Valid() && meta == m
    {
      hide Decode, PowerOfTwo, OtherOk;
      meta := m;
    }

    /** Write the other slot.  `left` is what is on disk if the write or the sync fails. */
    method SaveMeta(fails: bool, left: Bytes) returns (ok: bool)
      requires Valid() && meta.generation + 1 < U64_LIMIT
      requires fails ==> MayLeave(crc, slots[1 - active], Encode(crc, meta.(generation := meta.generation + 1)), left)
      modifies this
      ensures Valid() && ok == !fails && meta == old(meta).(generation := old(meta.generation) + 1)
      ensures if ok then completed == meta && attempts == []
              else completed == old(completed) && attempts == old(attempts) + [meta]
    {
      hide Encode, Decode, PowerOfTwo;
      meta := meta.(generation := meta.generation + 1);
      var next := 1 - active;
      var buf := Encode(crc, meta);
      MetaRoundTrip(crc, meta);
      if fails {
        if !ChecksumOk(crc, left) { MismatchRefused(crc, left); }
        slots := slots[next := left];
        attempts := attempts + [meta];
        return false;
      }
      slots := slots[next := buf];
      active := next;
      completed, attempts := meta, [];
      ok := true;
    }

    /** After a crash at any moment, opening the file finds the last meta page saved or one that was being
        saved since: never an older one, and never none. */
    method Reopen() returns (found: bool)
      requires Valid()
      modifies this
      ensures Valid() && found && slots == old(slots)
      ensures (meta == old(completed) || meta in old(attempts)) && completed == meta && attempts == []
    {
      hide Encode, Decode, PowerOfTwo;
      var r := Choose(Decode(crc, slots[0]), Decode(crc, slots[1]));
      if r.None? {
        return false;
      }
      meta, active := r.value.meta, r.value.slot;
      completed, attempts := meta, [];
      found := true;
    }
  }

  /** The slot not in use: unreadable, older than the last saved page, or one of the attempts since. */
  ghost predicate OtherOk(other: Option<Meta>, completed: Meta, attempts: seq<Meta>) {
    other.None? || other.value.generation < completed.generation || other.value in attempts
  }

  // ---------- Runs ----------

  /** What is in the slot after a write that did not complete. */
  datatype Left = AsBefore | AsWritten | Torn(bytes: Bytes)

  datatype Op =
    | Edit(m: Meta)
    | Save
    | FailedSave(left: Left)
    | Crash

  /** The bytes that a failed save leaves; a torn page whose checksum matches is not one. */
  function LeftBytes(crc: Checksum, before: Bytes, written: Bytes, left: Left): (b: Bytes)
    ensures MayLeave(crc, before, written, b)
  {
    match left
    case AsBefore => before
    case AsWritten => written
    case Torn(b) => if !ChecksumOk(crc, b) then b else before
  }

  ghost predicate NoneNewer(seen: seq<nat>, generation: nat) {
    forall k :: 0 <= k < |seen| ==> seen[k] <= generation
  }

  /** Any run of edits, saves that complete or fail, and crashes, and then a last crash.  `seen` lists the page
      generations that a save reported written or a crash was recovered to: the page found is no older than any. */
  method Run(store: MetaStore, ops: seq<Op>) returns (seen: seq<nat>)
    requires store.Valid()
    modifies store
    ensures store.Valid() && NoneNewer(seen, store.meta.generation)
            && old(store.completed.generation) <= store.meta.generation
    ensures store.meta == store.completed && store.attempts == []
  {
    hide Encode, Decode, MetaStore.Valid;
    seen := [];
    var i := 0;
    while i < |ops|
      invariant 0 <= i <= |ops| && store.Valid()
      invariant NoneNewer(seen, store.completed.generation)
                && old(store.completed.generation) <= store.completed.generation
    {
      seen := Step(store, ops[i], seen);
      i := i + 1;
    }
    Ascending(store);
    var _ := store.Reopen();
  }

  lemma {:induction false} Ascending(store: MetaStore)
    requires store.Valid()
    ensures store.completed.generation <= store.meta.generation
    ensures forall x :: x in store.attempts ==> store.completed.generation < x.generation
  {
  }

  method Step(store: MetaStore, op: Op, seen: seq<nat>) returns (seen': seq<nat>)
    requires store.Valid() && NoneNewer(seen, store.completed.generation)
    modifies store
    ensures store.Valid() && old(store.completed.generation) <= store.completed.generation
    ensures NoneNewer(seen', store.completed.generation)
    ensures seen' == if op == Crash || (op == Save && old(store.meta.generation) + 1 < U64_LIMIT)
                     then seen + [store.meta.generation] else seen
  {
    hide Encode, Decode, OtherOk, PowerOfTwo;
    seen' := seen;
    Ascending(store);
    match op {
      case Edit(m) =>
        if MetaOk(m) {
          store.Change(m.(generation := store.meta.generation));
        }
      case Save =>
        if store.meta.generation + 1 < U64_LIMIT {
          var _ := store.SaveMeta(false, []);
          seen' := seen + [store.meta.generation];
        }
      case FailedSave(left) =>
        if store.meta.generation + 1 < U64_LIMIT {
          var written := Encode(store.crc, store.meta.(generation := store.meta.generation + 1));
          var _ := store.SaveMeta(true, LeftBytes(store.crc, store.slots[1 - store.active], written, left));
        }
      case Crash =>
        var _ := store.Reopen();
        seen' := seen + [store.meta.generation];
    }
  }
}
