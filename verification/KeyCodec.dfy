/**
 Order-preserving keys: one code per scalar type, composite keys, and the record id suffix of secondary
 index keys.

 The point of every code is that it diverges: the codes of two different values differ at a position both
 have.  What follows them then never matters, which is what makes concatenation order-preserving.
 */
module KeyCodec {
  import opened ByteOrder
  import opened BigEndian

  const TAG_NULL: Byte := 0
  const TAG_FALSE: Byte := 1
  const TAG_TRUE: Byte := 2
  const TAG_INT64: Byte := 3
  const TAG_UINT64: Byte := 4
  const TAG_FLOAT64: Byte := 5
  const TAG_TIME: Byte := 6
  const TAG_STRING: Byte := 7
  const TAG_BYTES: Byte := 8

  const SIGN := 0x8000_0000_0000_0000

  type Int64 = n: int | -SIGN <= n < SIGN
  type UInt64 = n: int | 0 <= n < U64_LIMIT

  /** A float is given by its IEEE 754 bits, a time by its nanoseconds. */
  datatype Component =
    | Null
    | Bool(flag: bool)
    | Int(int64: Int64)
    | Uint(uint64: UInt64)
    | Float(bits: UInt64)
    | Time(nanos: Int64)
    | Str(text: Bytes)
    | Blob(data: Bytes)

  // ---------- Scalar codes ----------

  /** uint64(v) ^ 1<<63: two's complement with the sign bit flipped. */
  function FlipSign(v: Int64): (u: UInt64)
    ensures u == v + SIGN
  {
    var two := if v < 0 then v + U64_LIMIT else v;
    if two >= SIGN then two - SIGN else two + SIGN
  }

  /** All bits flipped for a negative float, only the sign for another. */
  function FlipFloat(bits: UInt64): (u: UInt64) {
    if bits >= SIGN then U64_LIMIT - 1 - bits else bits + SIGN
  }

  function Escaped(s: Bytes): (r: Bytes) {
    if s == [] then [] else (if s[0] == 0 then [0, 0xFF] else [s[0]]) + Escaped(s[1..])
  }

  function EscapedCode(s: Bytes): Bytes {
    Escaped(s) + [0, 0]
  }

  /** The loops of EncodeString and EncodeBytes. */
  method EncodeEscaped(tag: Byte, s: Bytes) returns (buf: Bytes)
    ensures buf == [tag] + EscapedCode(s)
  {
    buf := [tag];
    var i := 0;
    while i < |s|
      invariant 0 <= i <= |s| && buf + Escaped(s[i..]) == [tag] + Escaped(s)
    {
      ghost var before := buf;
      if s[i] == 0 {
        buf := buf + [0];
        buf := buf + [0xFF];
        assert buf == before + [0, 0xFF];
      } else {
        buf := buf + [s[i]];
      }
      assert s[i..][1..] == s[i + 1..];
      assert buf + Escaped(s[i + 1..]) == before + Escaped(s[i..]);
      i := i + 1;
    }
    assert buf == [tag] + Escaped(s);
    buf := buf + [0];
    buf := buf + [0];
  }

  function Code(c: Component): (b: Bytes)
    ensures |b| > 0
  {
    match c
    case Null => [TAG_NULL]
    case Bool(v) => [if v then TAG_TRUE else TAG_FALSE]
    case Int(v) => [TAG_INT64] + Be(8, FlipSign(v))
    case Uint(v) => [TAG_UINT64] + Be(8, v)
    case Float(bits) => [TAG_FLOAT64] + Be(8, FlipFloat(bits))
    case Time(t) => [TAG_TIME] + Be(8, FlipSign(t))
    case Str(s) => [TAG_STRING] + EscapedCode(s)
    case Blob(s) => [TAG_BYTES] + EscapedCode(s)
  }

  // ---------- What the order should be ----------

  function Kind(c: Component): nat {
    match c
    case Null => 0
    case Bool(v) => if v then 2 else 1
    case Int(_) => 3
    case Uint(_) => 4
    case Float(_) => 5
    case Time(_) => 6
    case Str(_) => 7
    case Blob(_) => 8
  }

  /** The totalOrder of section 5.10 of IEEE 754-2008, on bits: sign first, then magnitude. */
  predicate TotalOrderLess(a: UInt64, b: UInt64) {
    if a >= SIGN then b < SIGN || b - SIGN < a - SIGN else b < SIGN && a < b
  }

  /** Values of one type in their own order, types in the order of their tags. */
  predicate ComponentLess(c: Component, d: Component) {
    if Kind(c) != Kind(d) then Kind(c) < Kind(d)
    else
      match c
      case Null => false
      case Bool(_) => false
      case Int(v) => d.Int? && v < d.int64
      case Uint(v) => d.Uint? && v < d.uint64
      case Float(v) => d.Float? && TotalOrderLess(v, d.bits)
      case Time(t) => d.Time? && t < d.nanos
      case Str(s) => d.Str? && Less(s, d.text)
      case Blob(s) => d.Blob? && Less(s, d.data)
  }

  predicate TupleLess(xs: seq<Component>, ys: seq<Component>) {
    ys != [] && (xs == [] || ComponentLess(xs[0], ys[0]) || (xs[0] == ys[0] && TupleLess(xs[1..], ys[1..])))
  }

  // ---------- Codes that diverge ----------

  ghost predicate Diverge(a: Bytes, b: Bytes) {
    a != [] && b != [] && (a[0] != b[0] || Diverge(a[1..], b[1..]))
  }

  /** After divergence nothing matters. */
  lemma {:induction false} DivergeDecides(a: Bytes, b: Bytes, x: Bytes, y: Bytes)
    requires Diverge(a, b)
    ensures Less(a + x, b + y) <==> Less(a, b)
    ensures a + x != b + y && !HasPrefix(b + y, a)
  {
    assert (a + x)[0] == a[0] && (b + y)[0] == b[0];
    if a[0] == b[0] {
      assert (a + x)[1..] == a[1..] + x && (b + y)[1..] == b[1..] + y;
      DivergeDecides(a[1..], b[1..], x, y);
    }
  }

  lemma {:induction false} DivergeAfter(p: Bytes, a: Bytes, b: Bytes)
    ensures Diverge(a, b) ==> Diverge(p + a, p + b)
    ensures Less(p + a, p + b) <==> Less(a, b)
  {
    if p == [] {
      assert p + a == a && p + b == b;
    } else {
      assert (p + a)[1..] == p[1..] + a && (p + b)[1..] == p[1..] + b;
      DivergeAfter(p[1..], a, b);
    }
  }

  lemma {:induction false} SameLengthDiverge(a: Bytes, b: Bytes)
    requires |a| == |b| && a != b
    ensures Diverge(a, b)
  {
    if a[0] == b[0] {
      assert a == [a[0]] + a[1..] && b == [b[0]] + b[1..];
      SameLengthDiverge(a[1..], b[1..]);
    }
  }

  /** Fixed-width numbers diverge and keep their order. */
  lemma {:induction false} NumberCode(u: UInt64, v: UInt64)
    ensures u != v ==> Diverge(Be(8, u), Be(8, v))
    ensures Less(Be(8, u), Be(8, v)) <==> u < v
  {
    hide Be, Val;
    Widths();
    ValOfBe(8, u);
    ValOfBe(8, v);
    OrderOfVal(Be(8, u), Be(8, v));
    if u != v { SameLengthDiverge(Be(8, u), Be(8, v)); }
  }

  lemma {:induction false} EscapedStep(s: Bytes)
    requires s != []
    ensures EscapedCode(s) == (if s[0] == 0 then [0, 0xFF] else [s[0]]) + EscapedCode(s[1..])
  {
  }

  /** Escaped strings diverge and keep their order: the terminator is below every escape and every byte. */
  lemma {:induction false} StringCode(s: Bytes, t: Bytes)
    ensures s != t ==> Diverge(EscapedCode(s), EscapedCode(t))
    ensures Less(EscapedCode(s), EscapedCode(t)) <==> Less(s, t)
  {
    if s != [] { EscapedStep(s); }
    if t != [] { EscapedStep(t); }
    if s != [] && t != [] {
      StringCode(s[1..], t[1..]);
      assert s == [s[0]] + s[1..] && t == [t[0]] + t[1..];
      if s[0] == t[0] {
        DivergeAfter(if s[0] == 0 then [0, 0xFF] else [s[0]], EscapedCode(s[1..]), EscapedCode(t[1..]));
      }
    } else {
      hide Escaped;
      assert EscapedCode([]) == [0, 0];
      if s != [] || t != [] { TerminatorFirst(if s == [] then t else s); }
      LessIrreflexive([0, 0]);
    }
  }

  lemma {:induction false} LessIrreflexive(a: Bytes)
    ensures !Less(a, a)
  {
    ByRank();
  }

  lemma {:induction false} TerminatorFirst(s: Bytes)
    requires s != []
    ensures Diverge([0, 0], EscapedCode(s)) && Diverge(EscapedCode(s), [0, 0])
    ensures Less([0, 0], EscapedCode(s)) && !Less(EscapedCode(s), [0, 0])
  {
    EscapedStep(s);
    var c := EscapedCode(s);
    if s[0] == 0 {
      assert c[0] == 0 && c[1] == 0xFF && c[1..][0] == 0xFF;
      assert [0, 0][1..] == [0];
    }
  }

  lemma {:induction false} FloatCode(a: UInt64, b: UInt64)
    ensures (FlipFloat(a) < FlipFloat(b) <==> TotalOrderLess(a, b)) && (FlipFloat(a) == FlipFloat(b) ==> a == b)
  {
  }

  /** Every code of a component diverges from every other, in the order of the components. */
  lemma {:induction false} ComponentCode(c: Component, d: Component)
    ensures c != d ==> Diverge(Code(c), Code(d))
    ensures Less(Code(c), Code(d)) <==> ComponentLess(c, d)
  {
    hide Be, Less, EscapedCode;
    TagFirst(c);
    TagFirst(d);
    if Kind(c) == Kind(d) {
      SameKind(c, d);
    } else {
      DifferentTags(Code(c), Code(d));
    }
  }

  lemma {:induction false} TagFirst(c: Component)
    ensures Code(c)[0] == Kind(c)
  {
  }

  lemma {:induction false} DifferentTags(a: Bytes, b: Bytes)
    requires a != [] && b != [] && a[0] != b[0]
    ensures Diverge(a, b) && (Less(a, b) <==> a[0] < b[0])
  {
  }

  lemma {:induction false} SameKind(c: Component, d: Component)
    requires Kind(c) == Kind(d)
    ensures c != d ==> Diverge(Code(c), Code(d))
    ensures Less(Code(c), Code(d)) <==> ComponentLess(c, d)
  {
    hide Be, Less, EscapedCode, Diverge;
    match c
    case Null => LessIrreflexive(Code(c));
    case Bool(_) => LessIrreflexive(Code(c));
    case Int(v) =>
      NumberCode(FlipSign(v), FlipSign(d.int64));
      DivergeAfter([TAG_INT64], Be(8, FlipSign(v)), Be(8, FlipSign(d.int64)));
    case Uint(v) =>
      NumberCode(v, d.uint64);
      DivergeAfter([TAG_UINT64], Be(8, v), Be(8, d.uint64));
    case Float(v) =>
      FloatCode(v, d.bits);
      NumberCode(FlipFloat(v), FlipFloat(d.bits));
      DivergeAfter([TAG_FLOAT64], Be(8, FlipFloat(v)), Be(8, FlipFloat(d.bits)));
    case Time(t) =>
      NumberCode(FlipSign(t), FlipSign(d.nanos));
      DivergeAfter([TAG_TIME], Be(8, FlipSign(t)), Be(8, FlipSign(d.nanos)));
    case Str(s) =>
      StringCode(s, d.text);
      DivergeAfter([TAG_STRING], EscapedCode(s), EscapedCode(d.text));
    case Blob(s) =>
      StringCode(s, d.data);
      DivergeAfter([TAG_BYTES], EscapedCode(s), EscapedCode(d.data));
  }

  // ---------- Floats as numbers ----------

  function Pow2(n: nat): (r: nat)
    ensures r > 0
  {
    if n == 0 then 1 else 2 * Pow2(n - 1)
  }

  lemma {:induction false} Pow2Monotone(m: nat, n: nat)
    requires m <= n
    ensures Pow2(m) <= Pow2(n)
  {
    if m < n { Pow2Monotone(m, n - 1); }
  }

  const FRACTION := 0x10_0000_0000_0000

  /** The magnitude of a finite double in units of 2^-1074: 52 bits of fraction, 11 of exponent. */
  function Scaled(mag: nat): nat {
    var exp, frac := mag / FRACTION, mag % FRACTION;
    if exp == 0 then frac else (FRACTION + frac) * Pow2(exp - 1)
  }

  predicate Finite(bits: UInt64) {
    bits % SIGN / FRACTION < 2047
  }

  function Number(bits: UInt64): int {
    if bits >= SIGN then -(Scaled(bits - SIGN) as int) else Scaled(bits)
  }

  lemma {:induction false} Times(x: nat, y: nat, p: nat)
    ensures x <= y ==> x * p <= y * p
    ensures x < y && p > 0 ==> x * p < y * p
  {
    if x < y { assert (x + 1) * p <= y * p; }
  }

  /** Magnitudes with one exponent lie between two powers of two. */
  lemma {:induction false} ScaledRange(exp: nat, frac: nat)
    requires frac < FRACTION
    ensures Scaled(exp * FRACTION + frac) < FRACTION * Pow2(exp)
    ensures exp > 0 ==> FRACTION * Pow2(exp - 1) <= Scaled(exp * FRACTION + frac) == (FRACTION + frac) * Pow2(exp - 1)
  {
    var mag := exp * FRACTION + frac;
    assert mag / FRACTION == exp && mag % FRACTION == frac;
    if exp > 0 {
      Times(FRACTION + frac, 2 * FRACTION, Pow2(exp - 1));
      Times(FRACTION, FRACTION + frac, Pow2(exp - 1));
    }
  }

  lemma {:induction false} ScaledMonotone(a: nat, b: nat)
    requires a < b
    ensures Scaled(a) < Scaled(b)
  {
    var ea, eb, fa, fb := a / FRACTION, b / FRACTION, a % FRACTION, b % FRACTION;
    ScaledRange(ea, fa);
    ScaledRange(eb, fb);
    assert a == ea * FRACTION + fa && b == eb * FRACTION + fb;
    if ea == eb {
      if ea > 0 { Times(FRACTION + fa, FRACTION + fb, Pow2(ea - 1)); }
    } else {
      Pow2Monotone(ea, eb - 1);
      hide Scaled, Pow2;
      Times(Pow2(ea), Pow2(eb - 1), FRACTION);
    }
  }

  /** On finite floats the order of the codes is the order of the numbers; only minus zero and zero are equal
      numbers with different codes, in that order. */
  lemma {:induction false} FloatsAsNumbers(a: UInt64, b: UInt64)
    requires Finite(a) && Finite(b)
    ensures Less(Code(Float(a)), Code(Float(b))) <==> Number(a) < Number(b) || (a == SIGN && b == 0)
  {
    ComponentCode(Float(a), Float(b));
    hide Code, Less, Scaled;
    var ma, mb := if a >= SIGN then a - SIGN else a, if b >= SIGN then b - SIGN else b;
    if ma < mb { ScaledMonotone(ma, mb); }
    if mb < ma { ScaledMonotone(mb, ma); }
    ZeroOnly(ma);
    ZeroOnly(mb);
  }

  lemma {:induction false} ZeroOnly(m: nat)
    ensures Scaled(m) == 0 <==> m == 0
  {
    if m > 0 { ScaledMonotone(0, m); }
  }

  // ---------- Decoders ----------

  datatype Decoded<T> = Value(value: T) | InvalidFormat

  function DecodeInt64(b: Bytes): Decoded<int> {
    if |b| < 9 || b[0] != TAG_INT64 then InvalidFormat
    else
      var u := Val(b[1..9]);
      var two := if u >= SIGN then u - SIGN else u + SIGN;
      Value(if two >= SIGN then two - U64_LIMIT else two)
  }

  function DecodeUint64(b: Bytes): Decoded<int> {
    if |b| < 9 || b[0] != TAG_UINT64 then InvalidFormat else Value(Val(b[1..9]))
  }

  function DecodeFloat64(b: Bytes): Decoded<int> {
    if |b| < 9 || b[0] != TAG_FLOAT64 then InvalidFormat
    else
      var u := Val(b[1..9]);
      Value(if u >= SIGN then u - SIGN else U64_LIMIT - 1 - u)
  }

  /** Each decoder gives the number back, whatever follows its code, and refuses the codes of other types. */
  lemma {:induction false} NumberRoundTrip(c: Component, rest: Bytes)
    ensures DecodeInt64(Code(c) + rest) == if c.Int? then Value(c.int64) else InvalidFormat
    ensures DecodeUint64(Code(c) + rest) == if c.Uint? then Value(c.uint64) else InvalidFormat
    ensures DecodeFloat64(Code(c) + rest) == if c.Float? then Value(c.bits) else InvalidFormat
  {
    hide Be, Val, EscapedCode;
    var b := Code(c) + rest;
    TagFirst(c);
    Widths();
    var u := if c.Int? then FlipSign(c.int64) else if c.Uint? then c.uint64
                                                     else if c.Float? then FlipFloat(c.bits) else 0;
    ValOfBe(8, u);
    if c.Int? || c.Uint? || c.Float? { assert b[1..9] == Be(8, u); }
  }

  /** A number whose code is cut short is refused. */
  lemma {:induction false} CutNumberRefused(c: Component, cut: nat)
    requires cut < |Code(c)| && (c.Int? || c.Uint? || c.Float?)
    ensures var b := Code(c)[..cut];
            DecodeInt64(b) == InvalidFormat && DecodeUint64(b) == InvalidFormat && DecodeFloat64(b) == InvalidFormat
  {
    hide Be, Val;
  }

  // ---------- Composite keys ----------

  function Composite(xs: seq<Component>): Bytes {
    if xs == [] then [] else Code(xs[0]) + Composite(xs[1..])
  }

  function Concat(cs: seq<Bytes>): Bytes {
    if cs == [] then [] else cs[0] + Concat(cs[1..])
  }

  /** EncodeComposite: the parts one after the other. */
  method EncodeComposite(cs: seq<Bytes>) returns (buf: Bytes)
    ensures buf == Concat(cs)
  {
    buf := [];
    var i := 0;
    while i < |cs|
      invariant 0 <= i <= |cs| && buf + Concat(cs[i..]) == Concat(cs)
    {
      assert cs[i..][1..] == cs[i + 1..];
      assert buf + (cs[i] + Concat(cs[i + 1..])) == buf + cs[i] + Concat(cs[i + 1..]);
      buf := buf + cs[i];
      i := i + 1;
    }
  }

  lemma {:induction false} CompositeIs(xs: seq<Component>, cs: seq<Bytes>)
    requires |cs| == |xs| && forall i :: 0 <= i < |xs| ==> cs[i] == Code(xs[i])
    ensures Concat(cs) == Composite(xs)
  {
    if xs != [] { CompositeIs(xs[1..], cs[1..]); }
  }

  /** The byte order of composite keys is the order of the tuples, whatever follows two different tuples of
      one length, and a key that starts with another holds its components. */
  lemma {:induction false} CompositeOrder(xs: seq<Component>, ys: seq<Component>)
    ensures Less(Composite(xs), Composite(ys)) <==> TupleLess(xs, ys)
    ensures HasPrefix(Composite(ys), Composite(xs)) <==> xs <= ys
    ensures Composite(xs) == Composite(ys) <==> xs == ys
  {
    if xs != [] && ys != [] {
      var s, t := Composite(xs[1..]), Composite(ys[1..]);
      assert xs == [xs[0]] + xs[1..] && ys == [ys[0]] + ys[1..];
      ComponentCode(xs[0], ys[0]);
      if xs[0] == ys[0] {
        CompositeOrder(xs[1..], ys[1..]);
        DivergeAfter(Code(xs[0]), s, t);
        SamePrefix(Code(xs[0]), s, t);
        IrreflexiveComponent(xs[0]);
      } else {
        DivergeDecides(Code(xs[0]), Code(ys[0]), s, t);
        PrefixOfPrefix(Composite(ys), Code(xs[0]), s);
      }
    }
  }

  lemma {:induction false} IrreflexiveComponent(c: Component)
    ensures !ComponentLess(c, c)
  {
    ComponentCode(c, c);
    LessIrreflexive(Code(c));
  }

  lemma {:induction false} PrefixOfPrefix(k: Bytes, a: Bytes, s: Bytes)
    ensures HasPrefix(k, a + s) ==> HasPrefix(k, a)
  {
  }

  lemma {:induction false} SamePrefix(p: Bytes, s: Bytes, t: Bytes)
    ensures HasPrefix(p + t, p + s) <==> HasPrefix(t, s)
    ensures p + s == p + t <==> s == t
  {
    assert (p + s)[|p|..] == s && (p + t)[|p|..] == t;
    if HasPrefix(p + t, p + s) {
      assert s == (p + s)[|p|..] == (p + t)[|p|..|p| + |s|] == t[..|s|];
    }
  }

  lemma {:induction false} CompositeDiverges(xs: seq<Component>, ys: seq<Component>)
    requires |xs| == |ys| && xs != ys
    ensures Diverge(Composite(xs), Composite(ys))
  {
    var s, t := Composite(xs[1..]), Composite(ys[1..]);
    assert xs == [xs[0]] + xs[1..] && ys == [ys[0]] + ys[1..];
    ComponentCode(xs[0], ys[0]);
    if xs[0] == ys[0] {
      CompositeDiverges(xs[1..], ys[1..]);
      DivergeAfter(Code(xs[0]), s, t);
    } else {
      DivergeExtends(Code(xs[0]), Code(ys[0]), s, t);
    }
  }

  lemma {:induction false} DivergeExtends(a: Bytes, b: Bytes, x: Bytes, y: Bytes)
    requires Diverge(a, b)
    ensures Diverge(a + x, b + y)
  {
    if a[0] == b[0] {
      assert (a + x)[1..] == a[1..] + x && (b + y)[1..] == b[1..] + y;
      DivergeExtends(a[1..], b[1..], x, y);
    }
  }

  // ---------- Record id suffix ----------

  const INVALID_RECORD := U64_LIMIT - 1

  function AppendRecordID(key: Bytes, id: UInt64): Bytes {
    key + Be(8, id)
  }

  function ExtractRecordID(key: Bytes): (nat, Bytes) {
    if |key| < 8 then (INVALID_RECORD, key) else (Val(key[|key| - 8..]), key[..|key| - 8])
  }

  /** The id and the key can always be recovered. */
  lemma {:induction false} RecordIdRoundTrip(key: Bytes, id: UInt64)
    ensures ExtractRecordID(AppendRecordID(key, id)) == (id, key)
    ensures |key| < 8 ==> ExtractRecordID(key) == (0xFFFF_FFFF_FFFF_FFFF, key)
  {
    hide Be, Val;
    var k := AppendRecordID(key, id);
    assert k[|k| - 8..] == Be(8, id) && k[..|k| - 8] == key;
    Widths();
    ValOfBe(8, id);
  }

  /** Index entries of one index sort by their fields, then by record id. */
  lemma {:induction false} IndexKeyOrder(xs: seq<Component>, i: UInt64, ys: seq<Component>, j: UInt64)
    requires |xs| == |ys|
    ensures Less(AppendRecordID(Composite(xs), i), AppendRecordID(Composite(ys), j))
            <==> TupleLess(xs, ys) || (xs == ys && i < j)
  {
    hide Be, Diverge, Composite;
    if xs == ys {
      DivergeAfter(Composite(xs), Be(8, i), Be(8, j));
      NumberCode(i, j);
      CompositeOrder(xs, xs);
      LessIrreflexive(Composite(xs));
    } else {
      CompositeDiverges(xs, ys);
      DivergeDecides(Composite(xs), Composite(ys), Be(8, i), Be(8, j));
      CompositeOrder(xs, ys);
    }
  }

  /** A scan for a prefix of the fields finds exactly the entries whose first fields are those. */
  lemma {:induction false} IndexPrefix(xs: seq<Component>, ys: seq<Component>, id: UInt64)
    requires |xs| <= |ys|
    ensures HasPrefix(AppendRecordID(Composite(ys), id), Composite(xs)) <==> xs <= ys
  {
    hide Be, Composite;
    var k, zs := AppendRecordID(Composite(ys), id), ys[..|xs|];
    CompositeSplit(ys, |xs|);
    if xs == zs {
      assert HasPrefix(k, Composite(xs));
    } else {
      CompositeDiverges(xs, zs);
      var rest := Composite(ys[|xs|..]) + Be(8, id);
      assert k == Composite(zs) + rest;
      DivergeDecides(Composite(xs), Composite(zs), [], rest);
    }
  }

  lemma {:induction false} CompositeSplit(ys: seq<Component>, n: nat)
    requires n <= |ys|
    ensures Composite(ys) == Composite(ys[..n]) + Composite(ys[n..])
  {
    if n > 0 {
      CompositeSplit(ys[1..], n - 1);
      assert ys[..n][1..] == ys[1..][..n - 1] && ys[1..][n - 1..] == ys[n..];
    } else {
      assert ys[0..] == ys;
    }
  }
}
