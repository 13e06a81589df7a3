/**
 DocumentView: field lookup by binary search on the encoded bytes, against the decoded document.
 */
module CsonView {
  import opened ByteOrder
  import opened BigEndian
  import opened Options
  import opened CsonLayout
  import opened Cson
  import opened CsonEncoder

  /** A view's bytes: a directory of n entries. */
  ghost predicate ViewOk(data: Bytes, n: nat) {
    HEAD + ENTRY * n <= |data|
  }

  ghost predicate SortedView(data: Bytes, n: nat)
    requires ViewOk(data, n)
  {
    forall i, j :: 0 <= i < j < n ==> FieldAt(data, i).id < FieldAt(data, j).id
  }

  /** Every id of the directory has a name. */
  ghost predicate AllKnown(data: Bytes, n: nat, names: Names)
    requires ViewOk(data, n)
  {
    forall i :: 0 <= i < n ==> FieldAt(data, i).id in names
  }

  function IdAt(data: Bytes, i: nat): nat
    requires HEAD + ENTRY * (i + 1) <= |data|
  {
    Val(data[HEAD + ENTRY * i..HEAD + ENTRY * i + 4])
  }

  /** getFieldLoc: a hit is always right, and on a sorted directory a miss is too. */
  method FindField(data: Bytes, n: nat, id: nat) returns (r: Option<nat>)
    requires ViewOk(data, n)
    ensures r.Some? ==> r.value < n && FieldAt(data, r.value).id == id
    ensures r.None? && SortedView(data, n) ==> forall i :: 0 <= i < n ==> FieldAt(data, i).id != id
  {
    hide Val;
    var left, right := 0, n - 1;
    while left <= right
      invariant 0 <= left <= right + 1 <= n
      invariant SortedView(data, n) ==> forall i :: 0 <= i < n && FieldAt(data, i).id == id ==> left <= i <= right
    {
      var mid := left + (right - left) / 2;
      var found := IdAt(data, mid);
      assert found == FieldAt(data, mid).id;
      if found == id {
        return Some(mid);
      } else if found < id {
        left := mid + 1;
      } else {
        right := mid - 1;
      }
    }
    return None;
  }

  /** The value of field i, if it decodes. */
  function ValueAt(depth: nat, data: Bytes, i: nat, names: Names): Option<Value>
    requires HEAD + ENTRY * (i + 1) <= |data|
  {
    var f := FieldAt(data, i);
    if f.body.None? then None else Decode(depth, f.kind, f.body.value, names)
  }

  function Lookup(m: map<Name, Value>, field: Name): Option<Value> {
    if field in m then Some(m[field]) else None
  }

  lemma {:induction false} LookupAt(depth: nat, data: Bytes, n: nat, names: Names, ids: Ids, next: nat, field: Name,
                                    i: nat)
    requires ViewOk(data, n) && SortedView(data, n) && AllKnown(data, n, names) && DictOk(ids, names, next)
    requires i < n && names[FieldAt(data, i).id] == field
    ensures Lookup(DecodeFields(depth, data, n, names), field) == ValueAt(depth, data, i, names)
  {
    hide FieldAt, Decode;
    if i < n - 1 {
      LookupAt(depth, data, n - 1, names, ids, next, field, i);
      assert FieldAt(data, i).id < FieldAt(data, n - 1).id;
    } else {
      LookupNone(depth, data, n - 1, names, ids, next, field);
    }
  }

  lemma {:induction false} LookupNone(depth: nat, data: Bytes, n: nat, names: Names, ids: Ids, next: nat, field: Name)
    requires ViewOk(data, n) && AllKnown(data, n, names) && DictOk(ids, names, next)
    requires forall i :: 0 <= i < n ==> names[FieldAt(data, i).id] != field
    ensures Lookup(DecodeFields(depth, data, n, names), field) == None
  {
    hide FieldAt, Decode;
    if n > 0 {
      LookupNone(depth, data, n - 1, names, ids, next, field);
    }
  }

  /** Get finds by binary search what ToMap finds by decoding everything, field by field. */
  method Get(depth: nat, data: Bytes, n: nat, dict: FieldDictionary, field: Name) returns (r: Option<Value>)
    requires dict.Valid() && ViewOk(data, n)
    ensures SortedView(data, n) && AllKnown(data, n, dict.idToName)
            ==> r == Lookup(DecodeFields(depth, data, n, dict.idToName), field)
  {
    hide FieldAt, Decode, DecodeFields, Lookup;
    var id := dict.GetID(field);
    if id.None? {
      if AllKnown(data, n, dict.idToName) { LookupNone(depth, data, n, dict.idToName, dict.nameToID, dict.nextID,
          field); }
      return None;
    }
    var i := FindField(data, n, id.value);
    if i.None? {
      if AllKnown(data, n, dict.idToName) && SortedView(data, n) {
        LookupNone(depth, data, n, dict.idToName, dict.nameToID, dict.nextID, field);
      }
      return None;
    }
    r := ValueAt(depth, data, i.value, dict.idToName);
    if AllKnown(data, n, dict.idToName) && SortedView(data, n) {
      LookupAt(depth, data, n, dict.idToName, dict.nameToID, dict.nextID, field, i.value);
    }
  }

  /** ToMap, one field after the other. */
  method ToMap(depth: nat, data: Bytes, n: nat, names: Names) returns (m: map<Name, Value>)
    requires ViewOk(data, n)
    ensures m == DecodeFields(depth, data, n, names)
  {
    hide FieldAt, Decode;
    m := map[];
    var i := 0;
    while i < n
      invariant 0 <= i <= n && m == DecodeFields(depth, data, i, names)
    {
      var v := ValueAt(depth, data, i, names);
      if v.Some? {
        m := m[FieldName(names, FieldAt(data, i).id) := v.value];
      }
      i := i + 1;
    }
  }

  /** What Encode writes is such a view: sorted, and known to the dictionary. */
  lemma {:induction false} EncodedIsView(v: Value, ids: Ids, names: Names, next: nat)
    requires v.Object? && DictOk(ids, names, next) && next <= U32_LIMIT && Injective(ids) && Covered(v, ids)
             && CountsOk(v) && |Body(v, ids)| < U32_LIMIT
    ensures FieldCount(Body(v, ids)) == Some(|v.fields|)
    ensures SortedView(Body(v, ids), |v.fields|) && AllKnown(Body(v, ids), |v.fields|, names)
  {
    hide Body, Doc, FieldAt, FieldCount;
    var ks := Order(v.fields.Keys, ids);
    ObjectBody(v, ks, ids);
    var raws := FieldRaws(v, ks, ids);
    DocCount(raws);
    forall i | 0 <= i < |ks| ensures FieldAt(Doc(raws), i).id == ids[ks[i]] {
      DocRoundTrip(raws, i);
    }
  }
}
