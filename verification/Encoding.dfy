/**
 Messages and their encoding. protoc-gen-go-vtproto expands one template per field
 kind; a `Schema` lists a message's fields in number order, and the encoding below is
 what the expansion of MarshalToSizedBufferVT leaves in the buffer.
 */
module Encoding {
  import opened Wrappers
  import opened Positional
  import opened Wire

  /** Numeric field types. Floats are carried as their IEEE bit patterns. */
  datatype Rep =
    | Uint32 | Uint64 | Int32 | Int64 | Sint32 | Sint64 | Bool
    | Fixed32 | Fixed64 | Float32 | Float64

  /** `OptionalBlob` is a pointer-typed (explicit presence) string field. */
  datatype Kind =
    | Scalar(rep: Rep)
    | Blob
    | OptionalBlob
    | Message(sub: Schema)
    | StringMap
    | PackedInt64

  datatype Field = Field(num: nat, kind: Kind)
  datatype Schema = Schema(fields: seq<Field>)

  datatype Value =
    | VNum(n: int)
    | VBlob(b: Bytes)
    | VOptional(o: Option<Bytes>)
    | VMessage(msg: Option<Msg>)
    | VMap(entries: map<Bytes, Bytes>)
    | VNums(s: seq<int>)

  datatype Msg = Msg(vals: seq<Value>, unknown: Bytes)

  // ---- well-formedness -------------------------------------------------------

  predicate InRange(rep: Rep, n: int) {
    match rep
    case Uint32 | Fixed32 | Float32 => 0 <= n < TWO32
    case Uint64 | Fixed64 | Float64 => 0 <= n < TWO64
    case Int32 | Sint32 => -TWO31 <= n < TWO31
    case Int64 | Sint64 => -TWO63 <= n < TWO63
    case Bool => 0 <= n < 2
  }

  predicate IsInt64(n: int) {
    -TWO63 <= n < TWO63
  }

  predicate Fits(kind: Kind, v: Value)
    decreases v
  {
    match kind
    case Scalar(rep) => v.VNum? && InRange(rep, v.n)
    case Blob => v.VBlob?
    case OptionalBlob => v.VOptional?
    case Message(sub) => v.VMessage? && (v.msg.Some? ==> WellTyped(sub, v.msg.value))
    case StringMap => v.VMap?
    case PackedInt64 => v.VNums? && forall i :: 0 <= i < |v.s| ==> IsInt64(v.s[i])
  }

  predicate WellTyped(schema: Schema, m: Msg)
    decreases m
  {
    |m.vals| == |schema.fields| &&
    forall i :: 0 <= i < |m.vals| ==> Fits(schema.fields[i].kind, m.vals[i])
  }

  /** No unknown fields, at any depth. */
  predicate NoUnknown(m: Msg) {
    m.unknown == [] &&
    forall i :: 0 <= i < |m.vals| && m.vals[i].VMessage? && m.vals[i].msg.Some? ==> NoUnknown(m.vals[i].msg.value)
  }

  /** Field numbers ascend and stay below protobuf's limit of 2^29. */
  predicate ValidSchema(schema: Schema) {
    (forall i :: 0 <= i < |schema.fields| ==> 1 <= schema.fields[i].num < 0x2000_0000) &&
    (forall i :: 0 < i < |schema.fields| ==> schema.fields[i - 1].num < schema.fields[i].num) &&
    (forall i :: 0 <= i < |schema.fields| && schema.fields[i].kind.Message? ==> ValidSchema(schema.fields[i].kind.sub))
  }

  function Zero(kind: Kind): (v: Value)
    ensures Fits(kind, v)
  {
    match kind
    case Scalar(_) => VNum(0)
    case Blob => VBlob([])
    case OptionalBlob => VOptional(None)
    case Message(_) => VMessage(None)
    case StringMap => VMap(map[])
    case PackedInt64 => VNums([])
  }

  function Fresh(schema: Schema): (m: Msg)
    ensures WellTyped(schema, m)
  {
    Msg(seq(|schema.fields|, i requires 0 <= i < |schema.fields| => Zero(schema.fields[i].kind)), [])
  }

  // ---- scalars ---------------------------------------------------------------

  /** The `!= 0` presence test. For floats both zeros compare equal to 0. */
  predicate IsZero(rep: Rep, n: int) {
    n == 0 || (rep.Float32? && n == TWO31) || (rep.Float64? && n == TWO63)
  }

  function WireTypeOf(kind: Kind): nat {
    match kind
    case Scalar(rep) =>
      (match rep
       case Fixed64 | Float64 => 1
       case Fixed32 | Float32 => 5
       case _ => 0)
    case _ => 2
  }

  function ToWire(rep: Rep, n: int): (raw: uint64)
    requires InRange(rep, n)
    ensures WireTypeOf(Scalar(rep)) == 5 ==> raw < TWO32
  {
    match rep
    case Int32 | Int64 => ToUint64(n)
    case Sint32 => ZigzagOf(n, TWO32)
    case Sint64 => ZigzagOf(n, TWO64)
    case _ => n
  }

  function FromWire(rep: Rep, raw: uint64): (n: int)
    ensures InRange(rep, n)
  {
    match rep
    case Uint32 | Fixed32 | Float32 => raw % TWO32
    case Uint64 | Fixed64 | Float64 => raw
    case Int32 => ToInt32(raw)
    case Int64 => ToInt64(raw)
    case Sint32 => UnzigzagOf(raw % TWO32, TWO32)
    case Sint64 => UnzigzagOf(raw, TWO64)
    case Bool => if raw != 0 then 1 else 0
  }

  /** What a decoder keeps of any raw value: the low bits, or for a bool whether any is set. */
  lemma FromWireKeepsLowBits(rep: Rep, raw: uint64)
    ensures match rep
      case Uint32 | Fixed32 | Float32 => FromWire(rep, raw) == raw % TWO32
      case Uint64 | Fixed64 | Float64 => FromWire(rep, raw) == raw
      case Int32 => (FromWire(rep, raw) - raw) % TWO32 == 0
      case Int64 => ToUint64(FromWire(rep, raw)) == raw
      case Sint32 => ZigzagOf(FromWire(rep, raw), TWO32) == raw % TWO32
      case Sint64 => ZigzagOf(FromWire(rep, raw), TWO64) == raw
      case Bool => FromWire(rep, raw) == 1 <==> raw != 0
  {
    hide ToInt32, Wire.ZigzagOf, Wire.UnzigzagOf;
    ReinterpretsLowBits(0, raw);
  }

  /** Every numeric field type survives the wire, negative and extreme values included. */
  lemma ScalarRoundTrip(rep: Rep, n: int)
    requires InRange(rep, n)
    ensures FromWire(rep, ToWire(rep, n)) == n
  {
    match rep
    case Sint32 => ZigzagRoundTrip(n, TWO32);
    case Sint64 => ZigzagRoundTrip(n, TWO64);
    case Int32 => Int32RoundTrip(n);
    case _ =>
  }

  function LittleEndian(n: nat, width: nat): (r: Bytes)
    ensures |r| == width
  {
    if width == 0 then [] else [n % 0x100] + LittleEndian(n / 0x100, width - 1)
  }

  function ReadLittleEndian(data: Bytes, i: nat, width: nat): nat
    requires i + width <= |data|
    decreases width
  {
    if width == 0 then 0 else data[i] + 0x100 * ReadLittleEndian(data, i + 1, width - 1)
  }

  /** Byte `i` is base-256 digit `i`: the least significant comes first. */
  lemma {:induction false} LittleEndianDigits(n: nat, width: nat)
    ensures forall i :: 0 <= i < width ==> LittleEndian(n, width)[i] == Digit(n, 0x100, i)
  {
    if width > 0 {
      LittleEndianDigits(n / 0x100, width - 1);
      forall i | 0 <= i < width
        ensures LittleEndian(n, width)[i] == Digit(n, 0x100, i)
      {
        DigitShift(n, 0x100, if i > 0 then i - 1 else 0);
      }
    }
  }

  lemma {:induction false} ReadLittleEndianDigits(data: Bytes, i: nat, width: nat)
    requires i + width <= |data|
    ensures var n := ReadLittleEndian(data, i, width);
      n < Pow(0x100, width) && forall x :: 0 <= x < width ==> Digit(n, 0x100, x) == data[i + x]
    decreases width
  {
    if width > 0 {
      ReadLittleEndianDigits(data, i + 1, width - 1);
      var n := ReadLittleEndian(data, i, width);
      assert n / 0x100 == ReadLittleEndian(data, i + 1, width - 1) && n % 0x100 == data[i];
      PowStep(n, 0x100, width - 1);
      forall x | 0 <= x < width
        ensures Digit(n, 0x100, x) == data[i + x]
      {
        DigitShift(n, 0x100, if x > 0 then x - 1 else 0);
        assert x > 0 ==> data[i + x] == data[i + 1 + (x - 1)];
      }
    }
  }

  lemma LittleEndianHead(n: nat, width: nat)
    ensures LittleEndian(n, width + 1) == [n % 0x100] + LittleEndian(n / 0x100, width) && LittleEndian(n, 0) == []
  {
  }

  /** A 32-bit number on the wire, byte by byte. */
  lemma FourBytes(n: nat)
    ensures LittleEndian(n, 4) ==
      [n % 0x100, n / 0x100 % 0x100, n / 0x1_0000 % 0x100, n / 0x100_0000 % 0x100]
  {
    hide LittleEndian;
    var n1, n2, n3 := n / 0x100, n / 0x1_0000, n / 0x100_0000;
    assert n1 / 0x100 == n2 && n2 / 0x100 == n3;
    LittleEndianHead(n, 3);
    LittleEndianHead(n1, 2);
    LittleEndianHead(n2, 1);
    LittleEndianHead(n3, 0);
  }

  /** A 64-bit one: its low half, then its high half. */
  lemma EightBytes(n: nat)
    ensures LittleEndian(n, 8) == LittleEndian(n, 4) + LittleEndian(n / TWO32, 4)
  {
    hide LittleEndian;
    var n1, n2, n3 := n / 0x100, n / 0x1_0000, n / 0x100_0000;
    assert n1 / 0x100 == n2 && n2 / 0x100 == n3 && n3 / 0x100 == n / TWO32;
    LittleEndianHead(n, 7);
    LittleEndianHead(n1, 6);
    LittleEndianHead(n2, 5);
    LittleEndianHead(n3, 4);
    FourBytes(n);
  }

  lemma {:induction false} ReadLittleEndianReadsBack(data: Bytes, i: nat, n: nat, width: nat)
    requires At(data, i, LittleEndian(n, width)) && n < Pow(0x100, width)
    ensures ReadLittleEndian(data, i, width) == n
    decreases width
  {
    if width > 0 {
      var w := LittleEndian(n, width);
      assert data[i] == data[i..i + |w|][0] == w[0];
      AtConcat(data, i, [n % 0x100], LittleEndian(n / 0x100, width - 1));
      ReadLittleEndianReadsBack(data, i + 1, n / 0x100, width - 1);
    }
  }

  lemma FixedWidthBounds()
    ensures Pow(0x100, 4) == TWO32 && Pow(0x100, 8) == TWO64
  {
    assert Pow(0x100, 2) == 0x1_0000;
    assert Pow(0x100, 4) == TWO32;
    assert Pow(0x100, 6) == 0x1_0000_0000_0000;
  }

  lemma {:induction false} ReadLittleEndianBound(data: Bytes, i: nat, width: nat)
    requires i + width <= |data|
    ensures ReadLittleEndian(data, i, width) < Pow(0x100, width)
    decreases width
  {
    if width > 0 {
      ReadLittleEndianBound(data, i + 1, width - 1);
    }
  }

  function ScalarBytes(rep: Rep, n: int): Bytes
    requires InRange(rep, n)
  {
    var raw := ToWire(rep, n);
    match WireTypeOf(Scalar(rep))
    case 5 => LittleEndian(raw, 4)
    case 1 => LittleEndian(raw, 8)
    case _ => VarintBytes(raw)
  }

  // ---- the encoding ----------------------------------------------------------

  /**
   The order in which `range` visits a map. `site` is the path of field numbers leading
   to the map, so every map of a message may be visited in its own order.
   */
  type Order = (seq<nat>, map<Bytes, Bytes>) -> seq<Bytes>

  ghost predicate Enumerates(ks: seq<Bytes>, m: map<Bytes, Bytes>) {
    (forall k :: k in ks <==> k in m) &&
    (forall i, j :: 0 <= i < j < |ks| ==> ks[i] != ks[j])
  }

  ghost predicate ValidOrder(ord: Order) {
    forall site, m :: Enumerates(ord(site, m), m)
  }

  function Tag(f: Field): Bytes {
    VarintBytes(f.num * 8 + WireTypeOf(f.kind))
  }

  function Delimited(f: Field, payload: Bytes): Bytes {
    Tag(f) + VarintBytes(|payload|) + payload
  }

  function KeyPart(k: Bytes): (r: Bytes)
    ensures |r| >= 1
  {
    [0x0a] + VarintBytes(|k|) + k
  }

  function ValuePart(v: Bytes): (r: Bytes)
    ensures |r| >= 1
  {
    [0x12] + VarintBytes(|v|) + v
  }

  function Entry(k: Bytes, v: Bytes): Bytes {
    KeyPart(k) + ValuePart(v)
  }

  /** The buffer is filled backwards, so the entry visited first ends up last. */
  function EncodeEntries(f: Field, m: map<Bytes, Bytes>, ks: seq<Bytes>): Bytes
    requires forall k :: k in ks ==> k in m
  {
    if ks == [] then []
    else EncodeEntries(f, m, ks[1..]) + Delimited(f, Entry(ks[0], m[ks[0]]))
  }

  function Int64Bytes(n: int): (r: Bytes)
    requires IsInt64(n)
    ensures |r| >= 1
  {
    VarintBytes(ToUint64(n))
  }

  function PackedBytes(s: seq<int>): Bytes
    requires forall i :: 0 <= i < |s| ==> IsInt64(s[i])
  {
    if s == [] then [] else Int64Bytes(s[0]) + PackedBytes(s[1..])
  }

  ghost function EncodeField(ord: Order, site: seq<nat>, f: Field, v: Value): Bytes
    requires ValidOrder(ord) && Fits(f.kind, v)
    decreases v, 0
  {
    match f.kind
    case Scalar(rep) => if IsZero(rep, v.n) then [] else Tag(f) + ScalarBytes(rep, v.n)
    case Blob => if v.b == [] then [] else Delimited(f, v.b)
    case OptionalBlob => if v.o.None? then [] else Delimited(f, v.o.value)
    case Message(sub) =>
      if v.msg.None? then [] else Delimited(f, Encode(ord, site + [f.num], sub, v.msg.value))
    case StringMap => EncodeEntries(f, v.entries, ord(site + [f.num], v.entries))
    case PackedInt64 => if v.s == [] then [] else Delimited(f, PackedBytes(v.s))
  }

  /** Fields `k` and up. */
  ghost function EncodeFrom(ord: Order, site: seq<nat>, schema: Schema, m: Msg, k: nat): Bytes
    requires ValidOrder(ord) && WellTyped(schema, m) && k <= |m.vals|
    decreases m, |m.vals| - k
  {
    if k == |m.vals| then m.unknown
    else EncodeField(ord, site, schema.fields[k], m.vals[k]) + EncodeFrom(ord, site, schema, m, k + 1)
  }

  ghost function Encode(ord: Order, site: seq<nat>, schema: Schema, m: Msg): Bytes
    requires ValidOrder(ord) && WellTyped(schema, m)
    decreases m, |m.vals| + 1
  {
    EncodeFrom(ord, site, schema, m, 0)
  }

  // ---- what decoding can recover ---------------------------------------------

  /** The value a field decodes back to: itself, but for a float -0.0, which is not emitted. */
  function CanonValue(kind: Kind, v: Value): (r: Value)
    requires Fits(kind, v)
    ensures Fits(kind, r)
    decreases v, 0
  {
    match kind
    case Scalar(rep) => if IsZero(rep, v.n) then VNum(0) else v
    case Message(sub) => if v.msg.None? then v else VMessage(Some(Canon(sub, v.msg.value)))
    case _ => v
  }

  function Canon(schema: Schema, m: Msg): (r: Msg)
    requires WellTyped(schema, m)
    ensures WellTyped(schema, r)
    decreases m, 1
  {
    Msg(seq(|m.vals|, i requires 0 <= i < |m.vals| => CanonValue(schema.fields[i].kind, m.vals[i])), m.unknown)
  }

  predicate NoNegativeZeroIn(kind: Kind, v: Value)
    requires Fits(kind, v)
    decreases v, 0
  {
    match kind
    case Scalar(rep) => IsZero(rep, v.n) ==> v.n == 0
    case Message(sub) => v.msg.Some? ==> NoNegativeZero(sub, v.msg.value)
    case _ => true
  }

  /** No float field, at any depth, holds -0.0. */
  predicate NoNegativeZero(schema: Schema, m: Msg)
    requires WellTyped(schema, m)
    decreases m, 1
  {
    forall i :: 0 <= i < |m.vals| ==> NoNegativeZeroIn(schema.fields[i].kind, m.vals[i])
  }

  lemma {:induction false} CanonIsIdentityExactly(schema: Schema, m: Msg)
    requires WellTyped(schema, m)
    ensures Canon(schema, m) == m <==> NoNegativeZero(schema, m)
    decreases m, 1
  {
    forall i | 0 <= i < |m.vals|
      ensures CanonValue(schema.fields[i].kind, m.vals[i]) == m.vals[i] <==>
              NoNegativeZeroIn(schema.fields[i].kind, m.vals[i])
    {
      if schema.fields[i].kind.Message? && m.vals[i].msg.Some? {
        CanonIsIdentityExactly(schema.fields[i].kind.sub, m.vals[i].msg.value);
      }
    }
    var c := Canon(schema, m);
    assert forall i :: 0 <= i < |m.vals| ==> c.vals[i] == CanonValue(schema.fields[i].kind, m.vals[i]);
    if NoNegativeZero(schema, m) {
      assert c.vals == m.vals;
    }
  }
}
