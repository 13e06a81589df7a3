/**
 CSON values, their encoding, and decodeValue.

 The bytes of a value depend on the field dictionary only through the ids of the names it uses, so the
 encoding is a function of the value and of those ids; CsonEncoder shows that Encode computes it, whatever
 order Go visits a map in.
 */
module Cson {
  import opened ByteOrder
  import opened BigEndian
  import opened Options
  import opened CsonLayout

  const SIGN64 := 0x8000_0000_0000_0000

  type Name = Bytes
  type Ids = map<Name, nat>
  type Names = map<nat, Name>
  type I64 = n: int | -SIGN64 <= n < SIGN64
  type U64 = n: int | 0 <= n < U64_LIMIT
  type U32 = n: int | 0 <= n < U32_LIMIT

  /** Documents as Encode takes them after widening: integers to 64 bits, floats by their bits, times by
      their nanoseconds. */
  datatype Value =
    | Null
    | Bool(flag: bool)
    | Int(int64: I64)
    | Uint(uint64: U64)
    | Float(bits: U64)
    | Str(text: Bytes)
    | Blob(data: Bytes)
    | Time(nanos: I64)
    | Array(items: seq<Value>)
    | Object(fields: map<Name, Value>)
    | Vector(floats: seq<U32>)

  function KindOf(v: Value): Byte {
    match v
    case Null => 0
    case Bool(_) => 1
    case Int(_) => 2
    case Uint(_) => 3
    case Float(_) => 4
    case Str(_) => 5
    case Blob(_) => 6
    case Time(_) => 7
    case Array(_) => 8
    case Object(_) => 9
    case Vector(_) => 10
  }

  /** uint64(v) */
  function Two(v: I64): U64 {
    if v < 0 then v + U64_LIMIT else v
  }

  function Signed(u: nat): int {
    if u >= SIGN64 then u - U64_LIMIT else u
  }

  function FloatsCode(fs: seq<U32>): (b: Bytes)
    ensures |b| == 4 * |fs|
  {
    if fs == [] then [] else FloatsCode(fs[..|fs| - 1]) + Be(4, fs[|fs| - 1])
  }

  // ---------- Field order ----------

  ghost predicate Injective(ids: Ids) {
    forall a, b :: a in ids && b in ids && ids[a] == ids[b] ==> a == b
  }

  /** Every field name of the value, at any depth, has an id. */
  ghost predicate Covered(v: Value, ids: Ids) {
    match v
    case Array(items) => forall i :: 0 <= i < |items| ==> Covered(items[i], ids)
    case Object(m) => m.Keys <= ids.Keys && forall k :: k in m ==> Covered(m[k], ids)
    case _ => true
  }

  /** The names of s by ascending id. */
  ghost predicate InOrder(ks: seq<Name>, s: set<Name>, ids: Ids) {
    && (forall k :: k in ks <==> k in s)
    && (forall i :: 0 <= i < |ks| ==> ks[i] in ids)
    && forall i, j :: 0 <= i < j < |ks| ==> ids[ks[i]] < ids[ks[j]]
  }

  lemma {:induction false} LeastName(s: set<Name>, ids: Ids) returns (k: Name)
    requires s != {} && s <= ids.Keys
    ensures k in s && forall x :: x in s ==> ids[k] <= ids[x]
    decreases |s|
  {
    k :| k in s;
    if s != {k} {
      var rest := s - {k};
      assert rest + {k} == s;
      var k' := LeastName(rest, ids);
      if ids[k'] < ids[k] { k := k'; }
    }
  }

  lemma {:induction false} OrderExists(s: set<Name>, ids: Ids)
    requires s <= ids.Keys && Injective(ids)
    ensures exists ks :: InOrder(ks, s, ids)
    decreases |s|
  {
    if s == {} {
      assert InOrder([], s, ids);
    } else {
      var k := LeastName(s, ids);
      OrderExists(s - {k}, ids);
      var rest :| InOrder(rest, s - {k}, ids);
      var ks := [k] + rest;
      forall i, j | 0 <= i < j < |ks| ensures ids[ks[i]] < ids[ks[j]] {
        assert ks[j] == rest[j - 1] && rest[j - 1] in rest;
      }
      assert forall x :: x in ks <==> x == k || x in rest;
      assert InOrder(ks, s, ids);
    }
  }

  /** There is only one such order. */
  lemma {:induction false} OrderUnique(ks: seq<Name>, js: seq<Name>, s: set<Name>, ids: Ids)
    requires InOrder(ks, s, ids) && InOrder(js, s, ids)
    ensures ks == js
  {
    assert js != [] ==> js[0] in ks;
    if ks != [] {
      assert ks[0] in js;
      var i :| 0 <= i < |js| && js[i] == ks[0];
      var j :| 0 <= j < |ks| && ks[j] == js[0];
      assert ks[0] == js[0];
      OrderRest(ks, s, ids);
      OrderRest(js, s, ids);
      OrderUnique(ks[1..], js[1..], s - {ks[0]}, ids);
      assert ks == [ks[0]] + ks[1..] && js == [js[0]] + js[1..];
    }
  }

  lemma {:induction false} OrderRest(ks: seq<Name>, s: set<Name>, ids: Ids)
    requires InOrder(ks, s, ids) && ks != []
    ensures InOrder(ks[1..], s - {ks[0]}, ids)
  {
    var rest := ks[1..];
    assert ks == [ks[0]] + rest;
    assert forall k :: k in ks <==> k == ks[0] || k in rest;
    assert ks[0] !in rest;
  }

  ghost function Order(s: set<Name>, ids: Ids): (ks: seq<Name>)
    requires s <= ids.Keys && Injective(ids)
    ensures InOrder(ks, s, ids)
  {
    OrderExists(s, ids);
    var ks :| InOrder(ks, s, ids);
    ks
  }

  // ---------- Encoding ----------

  ghost function RawOf(v: Value, id: nat, ids: Ids): Raw
    requires Injective(ids) && Covered(v, ids)
    decreases v, 2
  {
    Raw(id, KindOf(v), Body(v, ids))
  }

  ghost function ItemRaws(items: seq<Value>, ids: Ids): (rs: seq<Raw>)
    requires Injective(ids) && forall i :: 0 <= i < |items| ==> Covered(items[i], ids)
    ensures |rs| == |items|
    decreases items
  {
    seq(|items|, i requires 0 <= i < |items| => RawOf(items[i], 0, ids))
  }

  ghost function FieldRaws(v: Value, ks: seq<Name>, ids: Ids): (rs: seq<Raw>)
    requires Injective(ids) && v.Object? && Covered(v, ids) && forall i :: 0 <= i < |ks| ==> ks[i] in v.fields
    ensures |rs| == |ks|
    decreases v, 0
  {
    seq(|ks|, i requires 0 <= i < |ks| => RawOf(v.fields[ks[i]], ids[ks[i]], ids))
  }

  /** encodeValueFast; for an object, Encode. */
  ghost function Body(v: Value, ids: Ids): Bytes
    requires Injective(ids) && Covered(v, ids)
    decreases v, 1
  {
    match v
    case Null => []
    case Bool(b) => [if b then 1 else 0]
    case Int(n) => Be(8, Two(n))
    case Uint(n) => Be(8, n)
    case Float(bits) => Be(8, bits)
    case Str(s) => s
    case Blob(s) => s
    case Time(n) => Be(8, Two(n))
    case Vector(fs) => FloatsCode(fs)
    case Array(items) => ArrayCode(ItemRaws(items, ids))
    case Object(m) =>
      var ks := Order(m.Keys, ids);
      assert forall i :: 0 <= i < |ks| ==> ks[i] in ks;
      Doc(FieldRaws(v, ks, ids))
  }

  // ---------- Decoding ----------

  function Digits(n: nat): Bytes {
    (if n < 10 then [] else Digits(n / 10)) + [0x30 + n % 10]
  }

  /** The name of a field id, or `field_<id>` if the dictionary does not know it. */
  function FieldName(names: Names, id: nat): Name {
    if id in names then names[id] else [0x66, 0x69, 0x65, 0x6C, 0x64, 0x5F] + Digits(id)
  }

  /** decodeValue.  `depth` bounds the nesting; None is an error. */
  function Decode(depth: nat, kind: Byte, b: Bytes, names: Names): (r: Option<Value>)
    decreases depth, 0, 0
  {
    ValBound(b[..if |b| < 8 then |b| else 8]);
    Widths();
    if kind == 0 then Some(Null)
    else if kind == 1 then Some(Bool(|b| > 0 && b[0] == 1))
    else if kind == 2 || kind == 3 || kind == 4 || kind == 7 then
      if |b| < 8 then None
      else
        var u := Val(b[..8]);
        Some(if kind == 2 then Int(Signed(u)) else if kind == 3 then Uint(u)
                                                     else if kind == 4 then Float(u) else Time(Signed(u)))
    else if kind == 5 then Some(Str(b))
    else if kind == 6 then Some(Blob(b))
    else if kind == 10 then Some(Vector(seq(|b| / 4, i requires 0 <= i < |b| / 4 => FloatAt(b, i))))
    else if kind == 9 then
      if depth == 0 then None
      else
        var m := DecodeDoc(depth - 1, b, names);
        if m.None? then None else Some(Object(m.value))
    else if kind == 8 then
      if depth == 0 || |b| < 4 then None
      else
        var items := DecodeItems(depth - 1, Val(b[..4]), b[4..], names);
        if items.None? then None else Some(Array(items.value))
    else None
  }

  function FloatAt(b: Bytes, i: nat): U32
    requires 4 * i + 4 <= |b|
  {
    ValBound(b[4 * i..4 * i + 4]);
    Widths();
    Val(b[4 * i..4 * i + 4])
  }

  /** The items of an array.  Reading at the end of the buffer is an error even for no bytes at all. */
  function DecodeItems(depth: nat, n: nat, rest: Bytes, names: Names): Option<seq<Value>>
    decreases depth, 1, n
  {
    if n == 0 then Some([])
    else if |rest| <= 5 then None
    else
      var length, tail := Val(rest[1..5]), rest[5..];
      var item := Decode(depth, rest[0], Filled(tail, length), names);
      if item.None? then None
      else
        var items := DecodeItems(depth, n - 1, if length <= |tail| then tail[length..] else [], names);
        if items.None? then None else Some([item.value] + items.value)
  }

  /** The first n fields of a document, as ToMap adds them; a field that does not decode is left out. */
  function DecodeFields(depth: nat, data: Bytes, n: nat, names: Names): map<Name, Value>
    requires HEAD + ENTRY * n <= |data|
    decreases depth, 1, n
  {
    if n == 0 then map[]
    else
      var m, f := DecodeFields(depth, data, n - 1, names), FieldAt(data, n - 1);
      var v := if f.body.None? then None else Decode(depth, f.kind, f.body.value, names);
      if v.None? then m else m[FieldName(names, f.id) := v.value]
  }

  function DecodeDoc(depth: nat, data: Bytes, names: Names): Option<map<Name, Value>>
    decreases depth, 2, 0
  {
    var count := FieldCount(data);
    if count.None? then None else Some(DecodeFields(depth, data, count.value, names))
  }

  // ---------- What survives ----------

  /** Values that encode to no bytes at all. */
  predicate Weightless(v: Value) {
    v == Null || v == Str([]) || v == Blob([]) || v == Vector([])
  }

  /** What decoding gives back: an array that ends in a weightless item is lost, with every array around it,
      and a field that held it is missing from its object. */
  ghost function Norm(v: Value): Option<Value> {
    match v
    case Array(items) =>
      if (items != [] && Weightless(items[|items| - 1]))
          || exists i :: 0 <= i < |items| && Norm(items[i]) == None then None
      else Some(Array(Normed(items)))
    case Object(m) => Some(Object(map k | k in m && Norm(m[k]).Some? :: Norm(m[k]).value))
    case _ => Some(v)
  }

  ghost function Normed(items: seq<Value>): (r: seq<Value>)
    requires forall i :: 0 <= i < |items| ==> Norm(items[i]) != None
    ensures |r| == |items| && forall i :: 0 <= i < |items| ==> r[i] == Norm(items[i]).value
  {
    seq(|items|, i requires 0 <= i < |items| => Norm(items[i]).value)
  }

  /** No array, at any depth, ends in a weightless item. */
  ghost predicate Clean(v: Value) {
    match v
    case Array(items) => (items != [] ==> !Weightless(items[|items| - 1]))
        && forall i :: 0 <= i < |items| ==> Clean(items[i])
    case Object(m) => forall k :: k in m ==> Clean(m[k])
    case _ => true
  }

  /** Nothing is lost exactly if the value is clean. */
  lemma {:induction false} NormIsIdentityIff(v: Value)
    ensures Norm(v) == Some(v) <==> Clean(v)
  {
    match v
    case Array(items) =>
      forall i | 0 <= i < |items| ensures Norm(items[i]) == Some(items[i]) <==> Clean(items[i]) {
        NormIsIdentityIff(items[i]);
      }
      if Norm(v) == Some(v) {
        forall i | 0 <= i < |items| ensures Norm(items[i]) == Some(items[i]) {
          assert Norm(v).value.items[i] == Norm(items[i]).value;
        }
      } else if forall i :: 0 <= i < |items| ==> Norm(items[i]) == Some(items[i]) {
        assert Normed(items) == items;
      }
    case Object(m) =>
      forall k | k in m ensures Norm(m[k]) == Some(m[k]) <==> Clean(m[k]) {
        NormIsIdentityIff(m[k]);
      }
      var m' := map k | k in m && Norm(m[k]).Some? :: Norm(m[k]).value;
      if m' == m {
        forall k | k in m ensures Norm(m[k]) == Some(m[k]) {
          assert k in m' && m'[k] == m[k];
        }
      }
    case _ =>
  }

  // ---------- Round trip ----------

  /** The dictionary in use when decoding knows every id that was used when encoding. */
  ghost predicate Knows(names: Names, ids: Ids) {
    forall k :: k in ids ==> ids[k] in names && names[ids[k]] == k
  }

  /** The counts and lengths of the value fit their fields. */
  ghost predicate CountsOk(v: Value) {
    match v
    case Array(items) => forall i :: 0 <= i < |items| ==> CountsOk(items[i])
    case Object(m) => |m| < 0x1_0000 && forall k :: k in m ==> CountsOk(m[k])
    case _ => true
  }

  ghost predicate IdsFit(ids: Ids) {
    forall k :: k in ids ==> ids[k] < U32_LIMIT
  }

  lemma {:induction false} FloatsAt(fs: seq<U32>, i: nat)
    requires i < |fs|
    ensures FloatAt(FloatsCode(fs), i) == fs[i]
  {
    hide Be, Val, Pow256;
    var n := |fs| - 1;
    var b := FloatsCode(fs);
    Widths();
    if i < n {
      FloatsAt(fs[..n], i);
      assert b[4 * i..4 * i + 4] == FloatsCode(fs[..n])[4 * i..4 * i + 4];
    } else {
      assert b[4 * i..4 * i + 4] == Be(4, fs[i]);
      ValOfBe(4, fs[i]);
    }
  }

  lemma {:induction false} ScalarRoundTrip(v: Value, ids: Ids, names: Names, depth: nat)
    requires Injective(ids) && !v.Array? && !v.Object?
    ensures Decode(depth, KindOf(v), Body(v, ids), names) == Some(v)
  {
    hide Be, Val;
    var b := Body(v, ids);
    Widths();
    if v.Int? || v.Uint? || v.Float? || v.Time? {
      var u := if v.Int? then Two(v.int64) else if v.Uint? then v.uint64 else if v.Float? then v.bits else Two(v.nanos);
      ValOfBe(8, u);
      assert b[..8] == Be(8, u);
    } else if v.Vector? {
      forall i | 0 <= i < |v.floats| ensures FloatAt(b, i) == v.floats[i] { FloatsAt(v.floats, i); }
      assert seq(|b| / 4, i requires 0 <= i < |b| / 4 => FloatAt(b, i)) == v.floats;
    }
  }

  lemma {:induction false} WeightlessIff(v: Value, ids: Ids)
    requires Injective(ids) && Covered(v, ids)
    ensures Body(v, ids) == [] <==> Weightless(v)
  {
  }

  // Arrays

  /** Item i decodes as it should. */
  ghost predicate ItemOk(items: seq<Value>, raws: seq<Raw>, i: nat, names: Names, depth: nat)
    requires i < |items| == |raws|
  {
    && raws[i].kind == KindOf(items[i]) && |raws[i].body| < U32_LIMIT && (raws[i].body == [] <==> Weightless(items[i]))
    && Decode(depth, raws[i].kind, raws[i].body, names) == Norm(items[i])
  }

  ghost predicate SomeLost(items: seq<Value>) {
    (items != [] && Weightless(items[|items| - 1])) || exists i :: 0 <= i < |items| && Norm(items[i]) == None
  }

  lemma {:induction false} ItemsRoundTrip(items: seq<Value>, raws: seq<Raw>, names: Names, depth: nat)
    requires |items| == |raws| && forall i :: 0 <= i < |items| ==> ItemOk(items, raws, i, names, depth)
    ensures var r := DecodeItems(depth, |items|, ItemsCode(raws), names);
            if SomeLost(items) then r == None else r == Some(Normed(items))
  {
    hide Val, Filled, Norm, Decode, DecodeItems, ItemsCode, Normed;
    if items == [] {
      NothingLost(items, names, depth);
    } else {
      var b := ItemsCode(raws);
      assert ItemOk(items, raws, 0, names, depth);
      ItemHead(raws);
      var tail, rs := items[1..], raws[1..];
      forall i | 0 <= i < |tail| ensures ItemOk(tail, rs, i, names, depth) {
        assert ItemOk(items, raws, i + 1, names, depth);
      }
      ItemsRoundTrip(tail, rs, names, depth);
      LostRest(items);
      LastItem(items, raws, names, depth);
      ItemsStep(raws, names, depth);
      if !SomeLost(items) { NormedStep(items); }
    }
  }

  lemma {:induction false} NothingLost(items: seq<Value>, names: Names, depth: nat)
    requires items == []
    ensures DecodeItems(depth, 0, ItemsCode([]), names) == Some([]) && Normed(items) == []
  {
  }

  /** Decoding takes the first item off. */
  lemma {:induction false} ItemsStep(raws: seq<Raw>, names: Names, depth: nat)
    requires raws != [] && |raws[0].body| < U32_LIMIT
    ensures var r := DecodeItems(depth, |raws|, ItemsCode(raws), names);
            var item := Decode(depth, raws[0].kind, raws[0].body, names);
            var rest := DecodeItems(depth, |raws| - 1, ItemsCode(raws[1..]), names);
            if |ItemsCode(raws)| <= 5 || item == None || rest == None then r == None
                else r == Some([item.value] + rest.value)
  {
    hide Val, Filled, Decode, ItemsCode;
    ItemHead(raws);
  }

  lemma {:induction false} NormedStep(items: seq<Value>)
    requires items != [] && forall i :: 0 <= i < |items| ==> Norm(items[i]) != None
    ensures Normed(items) == [Norm(items[0]).value] + Normed(items[1..])
  {
    hide Norm;
  }

  lemma {:induction false} LostRest(items: seq<Value>)
    requires items != []
    ensures SomeLost(items) <==> Norm(items[0]) == None || (|items| == 1 && Weightless(items[0]))
                                   || SomeLost(items[1..])
  {
    hide Norm;
    var tail := items[1..];
    if exists i :: 0 <= i < |items| && Norm(items[i]) == None {
      var i :| 0 <= i < |items| && Norm(items[i]) == None;
      if i > 0 { assert tail[i - 1] == items[i]; }
    }
  }

  /** The buffer ends right after the head of an item only if the item is the last and weightless. */
  lemma {:induction false} LastItem(items: seq<Value>, raws: seq<Raw>, names: Names, depth: nat)
    requires items != [] && |items| == |raws| && ItemOk(items, raws, 0, names, depth)
    ensures |ItemsCode(raws)| <= 5 <==> |items| == 1 && Weightless(items[0])
  {
  }

  lemma {:induction false} ItemSize(raws: seq<Raw>, i: nat)
    requires i < |raws|
    ensures |raws[i].body| + 5 <= |ItemsCode(raws)|
  {
    if i > 0 { ItemSize(raws[1..], i - 1); }
  }

  // Objects

  /** Field i decodes as it should, under its own name. */
  ghost predicate FieldOk(m: map<Name, Value>, ks: seq<Name>, raws: seq<Raw>, i: nat, names: Names, depth: nat)
    requires i < |ks| == |raws|
  {
    && ks[i] in m && raws[i].id in names && names[raws[i].id] == ks[i]
    && Decode(depth, raws[i].kind, raws[i].body, names) == Norm(m[ks[i]])
  }

  ghost function Kept(m: map<Name, Value>, s: set<Name>): map<Name, Value> {
    map k | k in s && k in m && Norm(m[k]).Some? :: Norm(m[k]).value
  }

  lemma {:induction false} KeptMore(m: map<Name, Value>, s: set<Name>, k: Name)
    requires k in m && k !in s
    ensures Kept(m, s + {k}) == if Norm(m[k]).Some? then Kept(m, s)[k := Norm(m[k]).value] else Kept(m, s)
  {
    hide Norm;
  }

  ghost function FirstNames(ks: seq<Name>, n: nat): set<Name>
    requires n <= |ks|
  {
    set i | 0 <= i < n :: ks[i]
  }

  lemma {:induction false} FieldsRoundTrip(m: map<Name, Value>, ks: seq<Name>, raws: seq<Raw>, names: Names, depth: nat,
                                           n: nat)
    requires n <= |ks| == |raws| && DocFits(raws)
    requires forall i, j :: 0 <= i < j < |ks| ==> ks[i] != ks[j]
    requires forall i :: 0 <= i < |ks| ==> FieldOk(m, ks, raws, i, names, depth)
    ensures HEAD + ENTRY * n <= |Doc(raws)| && DecodeFields(depth, Doc(raws), n, names) == Kept(m, FirstNames(ks, n))
  {
    hide Norm, Decode, FieldAt, Kept, Doc, Payload;
    if n == 0 {
      NoneKept(m, ks);
    } else {
      var i := n - 1;
      FieldsRoundTrip(m, ks, raws, names, depth, i);
      DocRoundTrip(raws, i);
      assert FieldOk(m, ks, raws, i, names, depth);
      assert FirstNames(ks, n) == FirstNames(ks, i) + {ks[i]};
      KeptMore(m, FirstNames(ks, i), ks[i]);
    }
  }

  lemma {:induction false} NoneKept(m: map<Name, Value>, ks: seq<Name>)
    ensures Kept(m, FirstNames(ks, 0)) == map[]
  {
  }

  /** Encoding and decoding gives back the value, but for what hangs on an array that ends in a weightless
      item, and whatever names have been added to the dictionary since. */
  lemma {:induction false} RoundTrip(v: Value, ids: Ids, names: Names, depth: nat)
    requires Injective(ids) && IdsFit(ids) && Covered(v, ids) && CountsOk(v) && Knows(names, ids)
    requires |Body(v, ids)| < U32_LIMIT && |Body(v, ids)| < depth
    ensures Decode(depth, KindOf(v), Body(v, ids), names) == Norm(v)
    decreases v
  {
    hide Norm, Decode, Body, DecodeItems, Doc, ItemsCode;
    var inner := depth - 1;
    match v
    case Array(items) =>
      var raws := ItemRaws(items, ids);
      ArrayBody(v, ids, depth);
      forall i | 0 <= i < |items| ensures ItemOk(items, raws, i, names, inner) {
        ItemSize(raws, i);
        RoundTrip(items[i], ids, names, inner);
        WeightlessIff(items[i], ids);
      }
      ItemsRoundTrip(items, raws, names, inner);
      ArrayDecodes(v, ids, names, depth);
    case Object(m) =>
      var ks := Order(m.Keys, ids);
      ObjectBody(v, ks, ids);
      var raws := FieldRaws(v, ks, ids);
      forall i | 0 <= i < |ks| ensures FieldOk(m, ks, raws, i, names, inner) {
        FieldSize(raws, i);
        RoundTrip(m[ks[i]], ids, names, inner);
      }
      FieldsRoundTrip(m, ks, raws, names, inner, |ks|);
      ObjectDecodes(v, ks, ids, names, depth);
    case _ =>
      ScalarRoundTrip(v, ids, names, depth);
      NormOfScalar(v);
  }

  lemma {:induction false} NormOfScalar(v: Value)
    requires !v.Array? && !v.Object?
    ensures Norm(v) == Some(v)
  {
  }

  lemma {:induction false} ArrayBody(v: Value, ids: Ids, depth: nat)
    requires v.Array? && Injective(ids) && Covered(v, ids) && |Body(v, ids)| < depth
    ensures |Body(v, ids)| == 4 + |ItemsCode(ItemRaws(v.items, ids))|
    ensures |v.items| <= |ItemsCode(ItemRaws(v.items, ids))|
  {
    ItemCount(ItemRaws(v.items, ids));
  }

  lemma {:induction false} ItemCount(raws: seq<Raw>)
    ensures |raws| <= |ItemsCode(raws)|
  {
    if raws != [] { ItemCount(raws[1..]); }
  }

  lemma {:induction false} ArrayDecodes(v: Value, ids: Ids, names: Names, depth: nat)
    requires v.Array? && Injective(ids) && Covered(v, ids) && |v.items| < U32_LIMIT && depth > 0
    ensures var r := DecodeItems(depth - 1, |v.items|, ItemsCode(ItemRaws(v.items, ids)), names);
            (SomeLost(v.items) && r == None) || (!SomeLost(v.items) && r == Some(Normed(v.items)))
            ==> Decode(depth, 8, Body(v, ids), names) == Norm(v)
  {
    hide DecodeItems, ItemsCode, Be, Val, Normed;
    var b := Body(v, ids);
    assert b[..4] == Be(4, |v.items|) && b[4..] == ItemsCode(ItemRaws(v.items, ids));
    Widths();
    ValOfBe(4, |v.items|);
  }

  lemma {:induction false} FieldSize(raws: seq<Raw>, i: nat)
    requires i < |raws|
    ensures |raws[i].body| < |Doc(raws)|
  {
    PayloadAt(raws, i);
  }

  lemma {:induction false} ObjectBody(v: Value, ks: seq<Name>, ids: Ids)
    requires v.Object? && Injective(ids) && IdsFit(ids) && Covered(v, ids) && CountsOk(v)
             && InOrder(ks, v.fields.Keys, ids) && |Body(v, ids)| < U32_LIMIT
    ensures forall i :: 0 <= i < |ks| ==> ks[i] in v.fields
    ensures Body(v, ids) == Doc(FieldRaws(v, ks, ids)) && DocFits(FieldRaws(v, ks, ids)) && |ks| == |v.fields|
    ensures forall i, j :: 0 <= i < j < |ks| ==> ks[i] != ks[j]
    ensures FirstNames(ks, |ks|) == v.fields.Keys
  {
    hide Doc;
    OrderUnique(ks, Order(v.fields.Keys, ids), v.fields.Keys, ids);
    assert forall i :: 0 <= i < |ks| ==> ks[i] in ks;
    forall i, j | 0 <= i < j < |ks| ensures ks[i] != ks[j] { assert ids[ks[i]] < ids[ks[j]]; }
    NameCount(ks, |ks|);
    assert FirstNames(ks, |ks|) == v.fields.Keys;
  }

  lemma {:induction false} NameCount(ks: seq<Name>, n: nat)
    requires n <= |ks| && forall i, j :: 0 <= i < j < |ks| ==> ks[i] != ks[j]
    ensures |FirstNames(ks, n)| == n
  {
    if n > 0 {
      NameCount(ks, n - 1);
      assert FirstNames(ks, n) == FirstNames(ks, n - 1) + {ks[n - 1]};
    } else {
      assert FirstNames(ks, n) == {};
    }
  }

  lemma {:induction false} KeptAll(v: Value)
    requires v.Object?
    ensures Norm(v) == Some(Object(Kept(v.fields, v.fields.Keys)))
  {
    assert Norm(v).value.fields == Kept(v.fields, v.fields.Keys);
  }

  lemma {:induction false} ObjectDecodes(v: Value, ks: seq<Name>, ids: Ids, names: Names, depth: nat)
    requires v.Object? && Injective(ids) && Covered(v, ids) && depth > 0
             && (forall i :: 0 <= i < |ks| ==> ks[i] in v.fields)
    requires Body(v, ids) == Doc(FieldRaws(v, ks, ids)) && |ks| < 0x1_0000
             && HEAD + ENTRY * |ks| <= |Doc(FieldRaws(v, ks, ids))|
    requires DecodeFields(depth - 1, Doc(FieldRaws(v, ks, ids)), |ks|, names) == Kept(v.fields, v.fields.Keys)
    ensures Decode(depth, 9, Body(v, ids), names) == Norm(v)
  {
    hide Doc, Body, DecodeFields, FieldCount, Norm, Kept;
    DocCount(FieldRaws(v, ks, ids));
    KeptAll(v);
  }
}
