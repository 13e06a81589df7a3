/**
 CSON bytes that no encoder writes: what the decoder makes of them.
 */
module CsonErrors {
  import opened ByteOrder
  import opened BigEndian
  import opened Options
  import opened CsonLayout
  import opened Cson

  /** Bytes too short, without the magic number or with a directory that runs past the end are no document. */
  lemma {:induction false} NotADocument(depth: nat, data: Bytes, names: Names)
    requires |data| < 8 || data[0..4] != Be(4, CSON_MAGIC) || |data| < 8 + 14 * Val(data[6..8])
    ensures DecodeDoc(depth, data, names) == None
  {
    hide Be, Val;
    if |data| >= 8 { BeOfVal(data[0..4]); }
  }

  /** A number of less than eight bytes, or a value of an unknown kind, does not decode. */
  lemma {:induction false} BadValue(depth: nat, kind: Byte, b: Bytes, names: Names)
    requires kind > 10 || (|b| < 8 && (kind == 2 || kind == 3 || kind == 4 || kind == 7))
    ensures Decode(depth, kind, b, names) == None
  {
  }

  /** A last item with fewer bytes than it announces is filled up with zero bytes, if it has any. */
  lemma {:induction false} CutItemPadded(depth: nat, s: Bytes, n: nat, names: Names)
    requires 0 < |s| <= n < U32_LIMIT
    ensures DecodeItems(depth, 1, [5] + Be(4, n) + s, names) == Some([Str(Filled(s, n))])
    ensures |Filled(s, n)| == n && s <= Filled(s, n) && forall i :: |s| <= i < n ==> Filled(s, n)[i] == 0
  {
    hide Be, Val;
    var rest := [5] + Be(4, n) + s;
    Widths();
    ValOfBe(4, n);
    assert rest[1..5] == Be(4, n) && rest[5..] == s && rest[0] == 5;
    NoItems(depth, names);
    assert Decode(depth, 5, Filled(s, n), names) == Some(Str(Filled(s, n)));
    OneItem(depth, 5, rest, Str(Filled(s, n)), names);
  }

  lemma {:induction false} OneItem(depth: nat, kind: Byte, rest: Bytes, v: Value, names: Names)
    requires |rest| > 5 && rest[0] == kind
    requires Decode(depth, kind, Filled(rest[5..], Val(rest[1..5])), names) == Some(v)
    ensures DecodeItems(depth, 1, rest, names) == Some([v])
  {
    hide Val, Filled;
    var length, tail := Val(rest[1..5]), rest[5..];
    NoItems(depth, names);
    assert DecodeItems(depth, 0, if length <= |tail| then tail[length..] else [], names) == Some([]);
    assert [v] + [] == [v];
  }

  lemma {:induction false} NoItems(depth: nat, names: Names)
    ensures forall b :: DecodeItems(depth, 0, b, names) == Some([])
  {
  }

  /** The number that decimal digits spell. */
  function Decimal(s: Bytes): nat {
    if s == [] then 0 else 10 * Decimal(s[..|s| - 1]) + (if s[|s| - 1] >= 0x30 then s[|s| - 1] as int - 0x30 else 0)
  }

  /** A field whose id has no name is called field_ and its id in decimal, without leading zeros. */
  lemma {:induction false} UnnamedField(names: Names, id: nat)
    requires id !in names
    ensures var n := FieldName(names, id);
            && |n| > 6 && n[..6] == [0x66, 0x69, 0x65, 0x6C, 0x64, 0x5F] && Decimal(n[6..]) == id
            && (forall i :: 6 <= i < |n| ==> 0x30 <= n[i] <= 0x39) && (id > 0 ==> n[6] != 0x30)
  {
    hide Digits, Decimal;
    DigitsSpell(id);
    Behind([0x66, 0x69, 0x65, 0x6C, 0x64, 0x5F], Digits(id));
  }

  lemma {:induction false} Behind(a: Bytes, d: Bytes)
    ensures (a + d)[..|a|] == a && (a + d)[|a|..] == d && forall i :: |a| <= i < |a + d| ==> (a + d)[i] == d[i - |a|]
  {
  }

  lemma {:induction false} DigitsSpell(n: nat)
    ensures |Digits(n)| > 0 && Decimal(Digits(n)) == n && (n > 0 ==> Digits(n)[0] != 0x30)
    ensures forall i :: 0 <= i < |Digits(n)| ==> 0x30 <= Digits(n)[i] <= 0x39
  {
    var d := Digits(n);
    if n >= 10 {
      DigitsSpell(n / 10);
      assert d[..|d| - 1] == Digits(n / 10);
    } else {
      assert d[..|d| - 1] == [];
    }
  }
}
