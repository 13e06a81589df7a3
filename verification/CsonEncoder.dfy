/**
 Encode and encodeValueFast, which grow the field dictionary as they go, and the dictionary itself.
 */
module CsonEncoder {
  import opened ByteOrder
  import opened BigEndian
  import opened Options
  import opened CsonLayout
  import opened Cson

  const ID_NAME: Name := [0x5F, 0x69, 0x64]

  ghost predicate Extends(ids: Ids, ids': Ids) {
    forall k :: k in ids ==> k in ids' && ids'[k] == ids[k]
  }

  /** The two maps are inverse to each other, and ids stay below the counter. */
  ghost predicate DictOk(ids: Ids, names: Names, next: nat) {
    && next > 0 && (forall k :: k in ids ==> 0 < ids[k] < next && ids[k] in names && names[ids[k]] == k)
    && (forall i :: i in names ==> names[i] in ids && ids[names[i]] == i)
  }

  class FieldDictionary {
    var nameToID: Ids
    var idToName: Names
    var nextID: nat

    ghost predicate Valid()
      reads this
    {
      DictOk(nameToID, idToName, nextID)
    }

    constructor ()
      ensures Valid() && nameToID == map[ID_NAME := 1]
    {
      nameToID, idToName, nextID := map[ID_NAME := 1], map[1 := ID_NAME], 2;
    }

    /** A known name keeps its id; a new one gets an id no other name has or had. */
    method GetOrAssignID(name: Name) returns (id: nat)
      requires Valid()
      modifies this
      ensures Valid() && name in nameToID && nameToID[name] == id
      ensures Extends(old(nameToID), nameToID) && nameToID.Keys == old(nameToID).Keys + {name}
      ensures name !in old(nameToID) ==> id !in old(idToName)
    {
      if name in nameToID {
        return nameToID[name];
      }
      id := nextID;
      nextID := nextID + 1;
      nameToID := nameToID[name := id];
      idToName := idToName[id := name];
    }

    function GetID(name: Name): (r: Option<nat>)
      requires Valid()
      reads this
      ensures r.Some? ==> r.value in idToName && idToName[r.value] == name
    {
      if name in nameToID then Some(nameToID[name]) else None
    }
  }

  // ---------- Bytes do not change as the dictionary grows ----------

  lemma {:induction false} DictInjective(ids: Ids, names: Names, next: nat)
    requires DictOk(ids, names, next)
    ensures Injective(ids) && Knows(names, ids)
  {
  }

  lemma {:induction false} BodyStable(v: Value, ids: Ids, ids': Ids)
    requires Injective(ids) && Injective(ids') && Extends(ids, ids') && Covered(v, ids)
    ensures Covered(v, ids') && Body(v, ids') == Body(v, ids)
    decreases v
  {
    match v
    case Array(items) =>
      forall i | 0 <= i < |items| ensures Covered(items[i], ids') && Body(items[i], ids') == Body(items[i], ids) {
        BodyStable(items[i], ids, ids');
      }
      assert ItemRaws(items, ids') == ItemRaws(items, ids);
    case Object(m) =>
      forall k | k in m ensures Covered(m[k], ids') && Body(m[k], ids') == Body(m[k], ids) {
        BodyStable(m[k], ids, ids');
      }
      var ks := Order(m.Keys, ids);
      assert InOrder(ks, m.Keys, ids');
      OrderUnique(ks, Order(m.Keys, ids'), m.Keys, ids');
      assert forall i :: 0 <= i < |ks| ==> ks[i] in ks;
      assert FieldRaws(v, ks, ids') == FieldRaws(v, ks, ids);
    case _ =>
  }

  // ---------- Sorting by id ----------

  ghost predicate DistinctIds(rs: seq<Raw>) {
    forall i, j :: 0 <= i < j < |rs| ==> rs[i].id != rs[j].id
  }

  ghost predicate Ascending(rs: seq<Raw>) {
    forall i, j :: 0 <= i < j < |rs| ==> rs[i].id < rs[j].id
  }

  /** The fields by ascending id. */
  method SortById(rs: seq<Raw>) returns (out: seq<Raw>)
    requires DistinctIds(rs)
    ensures Ascending(out) && |out| == |rs| && forall r :: r in out <==> r in rs
  {
    out := [];
    var i := 0;
    while i < |rs|
      invariant 0 <= i <= |rs| && Ascending(out) && |out| == i && forall r :: r in out <==> r in rs[..i]
    {
      var j := |out|;
      while j > 0 && out[j - 1].id > rs[i].id
        invariant 0 <= j <= |out| && forall k :: j <= k < |out| ==> out[k].id > rs[i].id
      {
        j := j - 1;
      }
      Inserted(rs, i, out, j);
      out := out[..j] + [rs[i]] + out[j..];
      i := i + 1;
    }
    assert rs[..i] == rs;
  }

  lemma {:induction false} Inserted(rs: seq<Raw>, i: nat, out: seq<Raw>, j: nat)
    requires DistinctIds(rs) && i < |rs| && Ascending(out) && (forall r :: r in out <==> r in rs[..i]) && j <= |out|
    requires (forall k :: j <= k < |out| ==> out[k].id > rs[i].id) && (j > 0 ==> out[j - 1].id <= rs[i].id)
    ensures var out' := out[..j] + [rs[i]] + out[j..]; Ascending(out') && forall r :: r in out' <==> r in rs[..i + 1]
  {
    var out' := out[..j] + [rs[i]] + out[j..];
    assert rs[..i + 1] == rs[..i] + [rs[i]];
    assert out == out[..j] + out[j..];
    forall r ensures r in out' <==> r in rs[..i + 1] {
      assert r in out <==> r in out[..j] || r in out[j..];
    }
    if j > 0 {
      assert out[j - 1] in out && out[j - 1] in rs[..i];
      var p :| 0 <= p < i && rs[p] == out[j - 1];
    }
    InsertedAscends(out, rs[i], j);
  }

  lemma {:induction false} InsertedAscends(out: seq<Raw>, r: Raw, j: nat)
    requires Ascending(out) && j <= |out| && (forall k :: j <= k < |out| ==> out[k].id > r.id)
             && (j > 0 ==> out[j - 1].id < r.id)
    ensures Ascending(out[..j] + [r] + out[j..])
  {
    assert forall a :: 0 <= a < j ==> out[a].id < r.id;
  }

  // ---------- Writing the document ----------

  /** Header, directory and payload, in the order of the fields. */
  method WriteDoc(fs: seq<Raw>) returns (b: Bytes)
    ensures b == Doc(fs)
  {
    hide Entry, Directory, Payload;
    var start := HEAD + |fs| * ENTRY;
    var offset := start;
    var directory, payload := [], [];
    NoFields(start);
    var i := 0;
    while i < |fs|
      invariant 0 <= i <= |fs| && directory == Directory(fs[..i], start) && payload == Payload(fs[..i])
      invariant offset == start + |payload|
    {
      OneField(fs, i, start);
      directory := directory + Entry(fs[i], offset);
      payload := payload + fs[i].body;
      offset := offset + |fs[i].body|;
      i := i + 1;
    }
    assert fs[..i] == fs;
    b := HeadOf(|fs|) + directory + payload;
  }

  lemma {:induction false} NoFields(start: nat)
    ensures Directory([], start) == [] && Payload([]) == []
  {
  }

  lemma {:induction false} OneField(fs: seq<Raw>, i: nat, start: nat)
    requires i < |fs|
    ensures Payload(fs[..i + 1]) == Payload(fs[..i]) + fs[i].body
    ensures Directory(fs[..i + 1], start) == Directory(fs[..i], start) + Entry(fs[i], start + |Payload(fs[..i])|)
  {
    hide Entry;
    assert fs[..i + 1][..i] == fs[..i];
  }

  // ---------- Encode ----------

  /** The raw field of the name its id stands for. */
  ghost predicate RawOk(v: Value, r: Raw, ids: Ids, names: Names)
    requires v.Object?
  {
    && Injective(ids) && r.id in names && names[r.id] in v.fields && names[r.id] in ids && ids[names[r.id]] == r.id
    && Covered(v.fields[names[r.id]], ids) && r == RawOf(v.fields[names[r.id]], r.id, ids)
  }

  /** The fields of the names in `done` have been encoded. */
  ghost predicate Gathered(v: Value, raws: seq<Raw>, done: set<Name>, ids: Ids, names: Names)
    requires v.Object?
  {
    && Injective(ids) && DistinctIds(raws)
        && (forall i :: 0 <= i < |raws| ==> RawOk(v, raws[i], ids, names) && names[raws[i].id] in done)
    && forall k :: k in done ==> k in ids && k in v.fields && Covered(v.fields[k], ids)
                                   && RawOf(v.fields[k], ids[k], ids) in raws
  }

  lemma {:induction false} GatheredLater(v: Value, raws: seq<Raw>, done: set<Name>, ids: Ids, names: Names, next: nat,
                                         ids': Ids, names': Names, next': nat)
    requires v.Object? && Gathered(v, raws, done, ids, names) && DictOk(ids, names, next) && DictOk(ids', names', next')
             && Extends(ids, ids') && Injective(ids)
    ensures Gathered(v, raws, done, ids', names')
  {
    hide Body;
    DictInjective(ids', names', next');
    forall i | 0 <= i < |raws| ensures RawOk(v, raws[i], ids', names') && names'[raws[i].id] in done {
      assert RawOk(v, raws[i], ids, names);
      BodyStable(v.fields[names[raws[i].id]], ids, ids');
    }
    forall k | k in done ensures k in ids' && Covered(v.fields[k], ids') && RawOf(v.fields[k], ids'[k], ids') in raws {
      BodyStable(v.fields[k], ids, ids');
    }
  }

  lemma {:induction false} GatheredMore(v: Value, raws: seq<Raw>, done: set<Name>, k: Name, r: Raw, ids: Ids,
                                        names: Names, next: nat)
    requires v.Object? && DictOk(ids, names, next) && Gathered(v, raws, done, ids, names) && k !in done && k in ids
             && Injective(ids)
    requires k in v.fields && Covered(v.fields[k], ids) && r == RawOf(v.fields[k], ids[k], ids)
    ensures Gathered(v, raws + [r], done + {k}, ids, names)
  {
    hide Body, RawOf;
    var raws' := raws + [r];
    assert r.id == ids[k] by { RawId(v.fields[k], ids[k], ids); }
    forall i | 0 <= i < |raws'| ensures RawOk(v, raws'[i], ids, names) && names[raws'[i].id] in done + {k} {
      if i < |raws| { assert RawOk(v, raws[i], ids, names); }
    }
  }

  lemma {:induction false} RawId(v: Value, id: nat, ids: Ids)
    requires Injective(ids) && Covered(v, ids)
    ensures RawOf(v, id, ids).id == id
  {
  }

  /** Once all fields are gathered and sorted, they are the document's fields in order. */
  lemma {:induction false} GatheredAll(v: Value, raws: seq<Raw>, sorted: seq<Raw>, ids: Ids, names: Names)
    requires v.Object? && Injective(ids) && Gathered(v, raws, v.fields.Keys, ids, names)
    requires Ascending(sorted) && |sorted| == |raws| && forall r :: r in sorted <==> r in raws
    ensures Covered(v, ids) && Body(v, ids) == Doc(sorted)
  {
    hide Doc, RawOf;
    var ks := seq(|sorted|, i requires 0 <= i < |sorted| => if sorted[i].id in names then names[sorted[i].id] else []);
    forall i | 0 <= i < |sorted| ensures RawOk(v, sorted[i], ids, names) && ks[i] == names[sorted[i].id] {
      assert sorted[i] in raws;
      var j :| 0 <= j < |raws| && raws[j] == sorted[i];
      assert RawOk(v, raws[j], ids, names);
    }
    forall k | k in v.fields ensures k in ks {
      var r := RawOf(v.fields[k], ids[k], ids);
      RawId(v.fields[k], ids[k], ids);
      assert r in sorted;
      var i :| 0 <= i < |sorted| && sorted[i] == r;
      assert ks[i] == k;
    }
    InOrderOf(v, ks, sorted, ids, names);
    OrderUnique(ks, Order(v.fields.Keys, ids), v.fields.Keys, ids);
    assert FieldRaws(v, ks, ids) == sorted;
  }

  lemma {:induction false} InOrderOf(v: Value, ks: seq<Name>, sorted: seq<Raw>, ids: Ids, names: Names)
    requires v.Object? && |ks| == |sorted| && Ascending(sorted) && (forall k :: k in v.fields ==> k in ks)
    requires forall i :: 0 <= i < |ks| ==> RawOk(v, sorted[i], ids, names) && ks[i] == names[sorted[i].id]
    ensures InOrder(ks, v.fields.Keys, ids)
  {
    hide RawOf;
    forall k | k in ks ensures k in v.fields {
      var i :| 0 <= i < |ks| && ks[i] == k;
      assert RawOk(v, sorted[i], ids, names);
    }
    forall i | 0 <= i < |ks| ensures ks[i] in ids && ids[ks[i]] == sorted[i].id {
      assert RawOk(v, sorted[i], ids, names);
    }
  }

  /** Encode: the bytes depend on the dictionary it leaves, not on the order in which fields are visited. */
  method Encode(v: Value, dict: FieldDictionary) returns (b: Bytes)
    requires v.Object? && dict.Valid()
    modifies dict
    ensures dict.Valid() && Extends(old(dict.nameToID), dict.nameToID)
    ensures Injective(dict.nameToID) && Covered(v, dict.nameToID) && b == Body(v, dict.nameToID)
    decreases v, 0
  {
    hide Body, Covered, DictOk;
    DictInjective(dict.nameToID, dict.idToName, dict.nextID);
    var raws: seq<Raw> := [];
    var todo := v.fields.Keys;
    ghost var done := {};
    while todo != {}
      invariant dict.Valid() && Extends(old(dict.nameToID), dict.nameToID) && Injective(dict.nameToID)
      invariant todo + done == v.fields.Keys && todo !! done
      invariant Gathered(v, raws, done, dict.nameToID, dict.idToName)
      decreases todo
    {
      var k :| k in todo;
      ghost var ids, names, next := dict.nameToID, dict.idToName, dict.nextID;
      var id := dict.GetOrAssignID(k);
      var kind, body := EncodeValue(v.fields[k], dict);
      GatheredLater(v, raws, done, ids, names, next, dict.nameToID, dict.idToName, dict.nextID);
      GatheredMore(v, raws, done, k, Raw(id, kind, body), dict.nameToID, dict.idToName, dict.nextID);
      raws := raws + [Raw(id, kind, body)];
      todo, done := todo - {k}, done + {k};
    }
    assert done == v.fields.Keys;
    var sorted := SortById(raws);
    GatheredAll(v, raws, sorted, dict.nameToID, dict.idToName);
    b := WriteDoc(sorted);
  }

  /** encodeValueFast */
  method EncodeValue(v: Value, dict: FieldDictionary) returns (kind: Byte, b: Bytes)
    requires dict.Valid()
    modifies dict
    ensures dict.Valid() && Extends(old(dict.nameToID), dict.nameToID)
    ensures Injective(dict.nameToID) && Covered(v, dict.nameToID) && kind == KindOf(v) && b == Body(v, dict.nameToID)
    decreases v, 1
  {
    DictInjective(dict.nameToID, dict.idToName, dict.nextID);
    kind := KindOf(v);
    match v
    case Null => b := [];
    case Bool(x) => b := [if x then 1 else 0];
    case Int(n) => b := Be(8, Two(n));
    case Uint(n) => b := Be(8, n);
    case Float(bits) => b := Be(8, bits);
    case Str(s) => b := s;
    case Blob(s) => b := s;
    case Time(n) => b := Be(8, Two(n));
    case Vector(fs) => b := EncodeFloats(fs);
    case Object(_) => b := Encode(v, dict);
    case Array(items) => b := EncodeItems(v, dict);
  }

  method EncodeFloats(fs: seq<U32>) returns (b: Bytes)
    ensures b == FloatsCode(fs)
  {
    hide Be;
    b := [];
    var i := 0;
    while i < |fs|
      invariant 0 <= i <= |fs| && b == FloatsCode(fs[..i])
    {
      assert fs[..i + 1][..i] == fs[..i];
      b := b + Be(4, fs[i]);
      i := i + 1;
    }
    assert fs[..i] == fs;
  }

  /** The items encoded so far. */
  ghost predicate ItemsDone(items: seq<Value>, raws: seq<Raw>, ids: Ids) {
    && Injective(ids) && |raws| <= |items|
    && forall i :: 0 <= i < |raws| ==> Covered(items[i], ids) && raws[i] == RawOf(items[i], 0, ids)
  }

  lemma {:induction false} ItemsLater(items: seq<Value>, raws: seq<Raw>, ids: Ids, ids': Ids)
    requires ItemsDone(items, raws, ids) && Injective(ids') && Extends(ids, ids')
    ensures ItemsDone(items, raws, ids')
  {
    hide Body;
    forall i | 0 <= i < |raws| ensures Covered(items[i], ids') && raws[i] == RawOf(items[i], 0, ids') {
      BodyStable(items[i], ids, ids');
    }
  }

  method EncodeItems(v: Value, dict: FieldDictionary) returns (b: Bytes)
    requires v.Array? && dict.Valid()
    modifies dict
    ensures dict.Valid() && Extends(old(dict.nameToID), dict.nameToID)
    ensures Injective(dict.nameToID) && Covered(v, dict.nameToID) && b == Body(v, dict.nameToID)
    decreases v, 0
  {
    hide Body, Covered, DictOk, Be, ItemsCode;
    DictInjective(dict.nameToID, dict.idToName, dict.nextID);
    var items := v.items;
    b := Be(4, |items|);
    ghost var raws: seq<Raw> := [];
    NoItems();
    var i := 0;
    while i < |items|
      invariant 0 <= i <= |items| && dict.Valid() && Extends(old(dict.nameToID), dict.nameToID)
      invariant |raws| == i && ItemsDone(items, raws, dict.nameToID) && b == Be(4, |items|) + ItemsCode(raws)
    {
      ghost var ids := dict.nameToID;
      var kind, body := EncodeValue(items[i], dict);
      ItemsLater(items, raws, ids, dict.nameToID);
      OneItem(raws, Raw(0, kind, body), b, |items|);
      b := b + [kind];
      b := b + Be(4, |body|);
      b := b + body;
      raws := raws + [Raw(0, kind, body)];
      i := i + 1;
    }
    AllItems(v, raws, dict.nameToID);
  }

  lemma {:induction false} NoItems()
    ensures ItemsCode([]) == []
  {
  }

  lemma {:induction false} AllItems(v: Value, raws: seq<Raw>, ids: Ids)
    requires v.Array? && |raws| == |v.items| && ItemsDone(v.items, raws, ids)
    ensures Covered(v, ids) && Body(v, ids) == Be(4, |v.items|) + ItemsCode(raws)
  {
    hide Be, ItemsCode, RawOf;
    assert Covered(v, ids);
    ItemRawsAre(v, raws, ids);
  }

  lemma {:induction false} ItemRawsAre(v: Value, raws: seq<Raw>, ids: Ids)
    requires v.Array? && |raws| == |v.items| && ItemsDone(v.items, raws, ids)
    ensures ItemRaws(v.items, ids) == raws
  {
    hide Body;
  }

  lemma {:induction false} OneItem(raws: seq<Raw>, r: Raw, b: Bytes, n: nat)
    requires b == Be(4, n) + ItemsCode(raws)
    ensures b + [r.kind] + Be(4, |r.body|) + r.body == Be(4, n) + ItemsCode(raws + [r])
  {
    hide Be;
    ItemsAppend(raws, r);
  }

  lemma {:induction false} ItemsAppend(raws: seq<Raw>, r: Raw)
    ensures ItemsCode(raws + [r]) == ItemsCode(raws) + ([r.kind] + Be(4, |r.body|) + r.body)
  {
    hide Be;
    if raws == [] {
      assert raws + [r] == [r] && [r][1..] == [];
    } else {
      assert (raws + [r])[1..] == raws[1..] + [r];
      ItemsAppend(raws[1..], r);
    }
  }

  /** Encode then Decode, with the dictionary Encode leaves or any that has grown from it: the document comes
      back whole exactly if no array in it ends in a weightless item. */
  lemma {:induction false} DocumentRoundTrip(v: Value, ids: Ids, names: Names, next: nat, names': Names)
    requires v.Object? && DictOk(ids, names, next) && next <= U32_LIMIT && Injective(ids) && Covered(v, ids)
             && CountsOk(v) && |Body(v, ids)| < U32_LIMIT
    requires forall i :: i in names ==> i in names' && names'[i] == names[i]
    ensures DecodeDoc(|Body(v, ids)|, Body(v, ids), names').Some?
    ensures DecodeDoc(|Body(v, ids)|, Body(v, ids), names').value == v.fields <==> Clean(v)
  {
    hide Body, Covered, Norm, Clean, CountsOk, DecodeDoc;
    RoundTrip(v, ids, names', |Body(v, ids)| + 1);
    NormIsIdentityIff(v);
    ObjectAlways(v);
    ObjectDecode(|Body(v, ids)| + 1, Body(v, ids), names');
  }

  lemma {:induction false} ObjectAlways(v: Value)
    requires v.Object?
    ensures Norm(v).Some? && Norm(v).value.Object?
  {
  }

  lemma {:induction false} ObjectDecode(depth: nat, b: Bytes, names: Names)
    requires depth > 0
    ensures Decode(depth, 9, b, names) == (var m := DecodeDoc(depth - 1, b, names);
                                             if m.None? then None else Some(Object(m.value)))
  {
  }
}
