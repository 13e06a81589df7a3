/**
 Byte buffers: big-endian fields and writes in place.
 */
module PageBytes {
  import opened ByteOrder
  import BigEndian

  const PAGE_SIZE := 16384

  function Be16(v: nat): (b: Bytes)
    requires v < 0x1_0000
    ensures |b| == 2
  {
    [v / 256, v % 256]
  }

  function U16(d: Bytes, off: nat): (v: nat)
    requires off + 2 <= |d|
    ensures v < 0x1_0000
  {
    (d[off] as int) * 256 + d[off + 1] as int
  }

  /** They are big-endian numbers like all others. */
  lemma {:induction false} SixteenBits(v: nat, d: Bytes, off: nat)
    requires v < 0x1_0000 && off + 2 <= |d|
    ensures Be16(v) == BigEndian.Be(2, v) && U16(d, off) == BigEndian.Val(d[off..off + 2])
  {
    assert BigEndian.Be(1, v / 256) == BigEndian.Be(0, v / 256 / 256) + [v / 256];
    var b := d[off..off + 2];
    assert b[..1][..0] == [] && BigEndian.Val(b[..1]) == b[0] as int;
  }

  /** The buffer after `src` has been copied over it at `off`. */
  function Splice(d: Bytes, off: nat, src: Bytes): (r: Bytes)
    requires off + |src| <= |d|
    ensures |r| == |d|
  {
    d[..off] + src + d[off + |src|..]
  }

  lemma {:induction false} SpliceInside(d: Bytes, off: nat, src: Bytes, a: nat, b: nat)
    requires off + |src| <= |d| && off <= a <= b <= off + |src|
    ensures Splice(d, off, src)[a..b] == src[a - off..b - off]
  {
  }

  lemma {:induction false} SpliceOutside(d: Bytes, off: nat, src: Bytes, a: nat, b: nat)
    requires off + |src| <= |d| && a <= b <= |d| && (b <= off || off + |src| <= a || |src| == 0)
    ensures Splice(d, off, src)[a..b] == d[a..b]
  {
    var r := Splice(d, off, src);
    forall k | a <= k < b ensures r[k] == d[k] {
    }
  }

  lemma {:induction false} Be16RoundTrip(v: nat, d: Bytes, off: nat)
    requires v < 0x1_0000 && off + 2 <= |d| && d[off..off + 2] == Be16(v)
    ensures U16(d, off) == v
  {
    assert d[off] == d[off..off + 2][0] && d[off + 1] == d[off..off + 2][1];
  }

  lemma {:induction false} U16BySlice(d: Bytes, d': Bytes, off: nat)
    requires off + 2 <= |d| && off + 2 <= |d'| && d[off..off + 2] == d'[off..off + 2]
    ensures U16(d, off) == U16(d', off)
  {
    assert d[off] == d[off..off + 2][0] && d[off + 1] == d[off..off + 2][1];
    assert d'[off] == d'[off..off + 2][0] && d'[off + 1] == d'[off..off + 2][1];
  }

  /** copy(a[off:], src) */
  method CopyInto(a: array<Byte>, off: nat, src: Bytes)
    requires off + |src| <= a.Length
    modifies a
    ensures a[..] == Splice(old(a[..]), off, src)
  {
    forall k | 0 <= k < |src| {
      a[off + k] := src[k];
    }
    assert a[..off] == old(a[..off]) && a[off..off + |src|] == src && a[off + |src|..] == old(a[off + |src|..]);
    assert a[..] == a[..off] + a[off..off + |src|] + a[off + |src|..];
  }
}
