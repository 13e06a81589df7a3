/**
 Fixed-width big-endian numbers, as binary.BigEndian writes them.
 */
module BigEndian {
  import opened ByteOrder

  ghost function Pow256(n: nat): (r: nat)
    ensures r > 0
  {
    if n == 0 then 1 else 256 * Pow256(n - 1)
  }

  /** The n low-order bytes of v, most significant first. */
  function Be(n: nat, v: nat): (b: Bytes)
    ensures |b| == n
  {
    if n == 0 then [] else Be(n - 1, v / 256) + [v % 256]
  }

  function Val(b: Bytes): nat {
    if b == [] then 0 else Val(b[..|b| - 1]) * 256 + b[|b| - 1] as int
  }

  lemma {:induction false} ValBound(b: Bytes)
    ensures Val(b) < Pow256(|b|)
  {
    if b != [] { ValBound(b[..|b| - 1]); }
  }

  lemma {:induction false} ValOfBe(n: nat, v: nat)
    requires v < Pow256(n)
    ensures Val(Be(n, v)) == v
  {
    if n > 0 {
      ValOfBe(n - 1, v / 256);
      assert Be(n, v)[..n - 1] == Be(n - 1, v / 256);
    }
  }

  lemma {:induction false} BeOfVal(b: Bytes)
    ensures Be(|b|, Val(b)) == b
  {
    if b != [] {
      var init, last := b[..|b| - 1], b[|b| - 1];
      BeOfVal(init);
      assert Val(b) / 256 == Val(init) && Val(b) % 256 == last as int;
      assert b == init + [last];
    }
  }

  lemma {:induction false} ValCons(x: Byte, b: Bytes)
    ensures Val([x] + b) == x as int * Pow256(|b|) + Val(b)
  {
    if b == [] {
      assert [x] + b == [x] && [x][..0] == [];
    } else {
      var init := b[..|b| - 1];
      ValCons(x, init);
      assert ([x] + b)[..|b|] == [x] + init;
      assert x as int * Pow256(|b|) == 256 * (x as int * Pow256(|init|));
    }
  }

  lemma {:induction false} LeadingDigit(x: int, y: int, p: int, s: int, t: int)
    requires 0 <= s < p && 0 <= t < p && x < y
    ensures x * p + s < y * p + t
  {
    assert (x + 1) * p <= y * p;
  }

  /** Byte order on strings of one length is the order of the numbers they spell. */
  lemma {:induction false} OrderOfVal(a: Bytes, b: Bytes)
    requires |a| == |b|
    ensures Less(a, b) <==> Val(a) < Val(b)
  {
    if a != [] {
      var s, t := a[1..], b[1..];
      OrderOfVal(s, t);
      assert a == [a[0]] + s && b == [b[0]] + t;
      ValCons(a[0], s);
      ValCons(b[0], t);
      ValBound(s);
      ValBound(t);
      hide Val, Pow256;
      if a[0] < b[0] {
        LeadingDigit(a[0] as int, b[0] as int, Pow256(|s|), Val(s), Val(t));
      } else if b[0] < a[0] {
        LeadingDigit(b[0] as int, a[0] as int, Pow256(|s|), Val(t), Val(s));
      }
    }
  }

  const U32_LIMIT := 0x1_0000_0000
  const U64_LIMIT := 0x1_0000_0000_0000_0000

  lemma {:induction false} Widths()
    ensures Pow256(1) == 0x100 && Pow256(2) == 0x1_0000 && Pow256(4) == U32_LIMIT && Pow256(8) == U64_LIMIT
  {
    assert Pow256(3) == 256 * Pow256(2) && Pow256(5) == 256 * Pow256(4) && Pow256(6) == 256 * Pow256(5)
           && Pow256(7) == 256 * Pow256(6);
  }
}
