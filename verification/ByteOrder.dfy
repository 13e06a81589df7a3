/**
 Byte strings and the lexicographic order of bytes.Compare.

 Every ordering argument about keys is done through `Rank`, an embedding of byte strings
 into the reals: a key is smaller exactly when its rank is smaller.  Transitivity and
 totality of the byte order then come for free from the order of the reals.
 */
module ByteOrder {

  type Byte = b: int | 0 <= b < 256
  type Bytes = seq<Byte>

  /** bytes.Compare(a, b) < 0 */
  predicate Less(a: Bytes, b: Bytes) {
    |b| > 0 && (|a| == 0 || a[0] < b[0] || (a[0] == b[0] && Less(a[1..], b[1..])))
  }

  ghost function Rank(a: Bytes): (r: real)
    ensures 0.0 <= r < 1.0
  {
    if |a| == 0 then 0.0 else (a[0] as real + 1.0 + Rank(a[1..])) / 257.0
  }

  /** `Rank` is an order embedding of byte strings into the reals. */
  lemma {:induction false} RankIsOrderEmbedding(a: Bytes, b: Bytes)
    ensures Less(a, b) <==> Rank(a) < Rank(b)
    ensures a == b <==> Rank(a) == Rank(b)
  {
    if |a| > 0 && |b| > 0 {
      RankIsOrderEmbedding(a[1..], b[1..]);
      assert a == [a[0]] + a[1..] && b == [b[0]] + b[1..];
    }
  }

  lemma {:induction false} ByRank()
    ensures forall a: Bytes, b: Bytes {:trigger Less(a, b)} :: Less(a, b) <==> Rank(a) < Rank(b)
    ensures forall a: Bytes, b: Bytes {:trigger Rank(a), Rank(b)} :: Rank(a) == Rank(b) ==> a == b
  {
    forall a: Bytes, b: Bytes
      ensures Less(a, b) <==> Rank(a) < Rank(b)
      ensures Rank(a) == Rank(b) ==> a == b
    {
      RankIsOrderEmbedding(a, b);
    }
  }

  /** bytes.HasPrefix(k, prefix) */
  predicate HasPrefix(k: Bytes, prefix: Bytes) {
    prefix <= k
  }

  /** Keys with a given prefix form an interval: they are not below the prefix, and everything
      between the prefix and such a key has the prefix too. */
  lemma {:induction false} PrefixInterval(prefix: Bytes, mid: Bytes, k: Bytes)
    requires HasPrefix(k, prefix)
    ensures !Less(k, prefix)
    ensures !Less(mid, prefix) && !Less(k, mid) ==> HasPrefix(mid, prefix)
  {
    if |prefix| > 0 {
      if |mid| > 0 {
        PrefixInterval(prefix[1..], mid[1..], k[1..]);
        assert mid == [mid[0]] + mid[1..] && prefix == [prefix[0]] + prefix[1..];
      } else {
        PrefixInterval(prefix[1..], mid, k[1..]);
      }
    }
  }
}
