/**
 The messages the live path carries, as records, with the schemas their generated
 codecs implement and the round trip stated record to record.
 */
module Messages {
  import opened Wrappers
  import opened Wire
  import opened Encoding
  import opened Decode
  import opened RoundTrip

  /** A value that its field will carry unchanged. */
  ghost predicate Plain(kind: Kind, v: Value) {
    Fits(kind, v) && NoNegativeZeroIn(kind, v) && (v.VMessage? && v.msg.Some? ==> NoUnknown(v.msg.value))
  }

  ghost predicate PlainMsg(schema: Schema, m: Msg) {
    ValidSchema(schema) && |m.vals| == |schema.fields| && m.unknown == [] &&
    forall i :: 0 <= i < |m.vals| ==> Plain(schema.fields[i].kind, m.vals[i])
  }

  lemma PlainRoundTrips(skip: Skipper, ord: Order, schema: Schema, m: Msg)
    requires ValidOrder(ord) && PlainMsg(schema, m) && WellTyped(schema, m)
    requires |Encode(ord, [], schema, m)| < TWO63
    ensures DecodeFrom(skip, schema, Fresh(schema), Encode(ord, [], schema, m), 0) == Ok(m)
  {
    hide Encode, DecodeFrom;
    RoundTripsExactly(skip, ord, [], schema, m);
  }

  lemma PlainSub(sub: Schema, m: Msg)
    requires PlainMsg(sub, m)
    ensures WellTyped(sub, m) && NoNegativeZero(sub, m) && NoUnknown(m) && Plain(Message(sub), VMessage(Some(m)))
  {
  }

  /** Fields are numbered 1 to n, as in every message here. */
  ghost predicate Consecutive(schema: Schema) {
    |schema.fields| < 0x1000_0000 && forall i :: 0 <= i < |schema.fields| ==> schema.fields[i].num == i + 1
  }

  lemma ConsecutiveIsValid(schema: Schema)
    requires Consecutive(schema)
    requires forall i :: 0 <= i < |schema.fields| && schema.fields[i].kind.Message? ==>
      ValidSchema(schema.fields[i].kind.sub)
    ensures ValidSchema(schema)
  {
  }

  lemma SchemasAreValid()
    ensures ValidSchema(TimestampSchema()) && ValidSchema(BusSchema()) && ValidSchema(PublishSchema())
    ensures ValidSchema(EnvelopeSchema()) && ValidSchema(PingSchema())
    ensures ValidSchema(NestedSchema()) && ValidSchema(AllTypesSchema())
  {
    hide ValidSchema;
    ConsecutiveIsValid(TimestampSchema());
    ConsecutiveIsValid(NestedSchema());
    ConsecutiveIsValid(BusSchema());
    ConsecutiveIsValid(EnvelopeSchema());
    ConsecutiveIsValid(AllTypesSchema());
    ConsecutiveIsValid(PublishSchema());
    ConsecutiveIsValid(PingSchema());
  }

  function NumAt(schema: Schema, m: Msg, i: nat): (n: int)
    requires WellTyped(schema, m) && i < |schema.fields| && schema.fields[i].kind.Scalar?
    ensures InRange(schema.fields[i].kind.rep, n)
  {
    assert Fits(schema.fields[i].kind, m.vals[i]);
    m.vals[i].n
  }

  function BlobAt(schema: Schema, m: Msg, i: nat): Bytes
    requires WellTyped(schema, m) && i < |schema.fields| && schema.fields[i].kind.Blob?
  {
    assert Fits(schema.fields[i].kind, m.vals[i]);
    m.vals[i].b
  }

  function TimeAt(schema: Schema, m: Msg, i: nat): Option<Timestamp>
    requires WellTyped(schema, m) && i < |schema.fields| && schema.fields[i].kind == Message(TimestampSchema())
  {
    assert Fits(schema.fields[i].kind, m.vals[i]);
    TimeOf(m.vals[i])
  }

  // ---- google.protobuf.Timestamp ---------------------------------------------

  datatype Timestamp = Timestamp(seconds: int64, nanos: int32)

  function TimestampKind(i: nat): Kind {
    if i == 0 then Scalar(Int64) else Scalar(Int32)
  }

  function TimestampSchema(): Schema {
    Schema(seq(2, i requires 0 <= i < 2 => Field(i + 1, TimestampKind(i))))
  }

  function TimeToMsg(t: Timestamp): (m: Msg)
    ensures WellTyped(TimestampSchema(), m)
  {
    Msg([VNum(t.seconds), VNum(t.nanos)], [])
  }

  function TimeOfMsg(m: Msg): Timestamp
    requires WellTyped(TimestampSchema(), m)
  {
    assert Fits(TimestampSchema().fields[0].kind, m.vals[0]) && Fits(TimestampSchema().fields[1].kind, m.vals[1]);
    Timestamp(m.vals[0].n, m.vals[1].n)
  }

  function TimeOf(v: Value): Option<Timestamp>
    requires Fits(Message(TimestampSchema()), v)
  {
    if v.msg.None? then None else Some(TimeOfMsg(v.msg.value))
  }

  function OptionalTime(t: Option<Timestamp>): (v: Value)
    ensures Plain(Message(TimestampSchema()), v)
    ensures TimeOf(v) == t
  {
    if t.None? then VMessage(None)
    else
      SchemasAreValid();
      PlainSub(TimestampSchema(), TimeToMsg(t.value));
      VMessage(Some(TimeToMsg(t.value)))
  }

  // ---- bus.v1 ----------------------------------------------------------------

  datatype BusMessage = BusMessage(
    topic: Bytes,
    payload: Bytes,
    contentType: Bytes,
    headers: map<Bytes, Bytes>,
    seqno: uint64,
    publisherId: Bytes,
    publishedAt: Option<Timestamp>)

  datatype PublishRequest = PublishRequest(message: Option<BusMessage>)

  function BusKind(i: nat): Kind {
    match i
    case 3 => StringMap
    case 4 => Scalar(Uint64)
    case 6 => Message(TimestampSchema())
    case _ => Blob
  }

  function BusSchema(): Schema {
    Schema(seq(7, i requires 0 <= i < 7 => Field(i + 1, BusKind(i))))
  }

  function PublishSchema(): Schema {
    Schema([Field(1, Message(BusSchema()))])
  }

  function BusValue(b: BusMessage, i: nat): (v: Value)
    ensures Plain(BusKind(i), v)
  {
    match i
    case 0 => VBlob(b.topic)
    case 1 => VBlob(b.payload)
    case 2 => VBlob(b.contentType)
    case 3 => VMap(b.headers)
    case 4 => VNum(b.seqno)
    case 6 => OptionalTime(b.publishedAt)
    case _ => VBlob(b.publisherId)
  }

  function BusToMsg(b: BusMessage): (m: Msg)
    ensures PlainMsg(BusSchema(), m) && WellTyped(BusSchema(), m)
  {
    SchemasAreValid();
    Msg(seq(7, i requires 0 <= i < 7 => BusValue(b, i)), [])
  }

  function BusOfMsg(m: Msg): BusMessage
    requires WellTyped(BusSchema(), m)
  {
    assert Fits(BusSchema().fields[3].kind, m.vals[3]);
    BusMessage(BlobAt(BusSchema(), m, 0), BlobAt(BusSchema(), m, 1), BlobAt(BusSchema(), m, 2), m.vals[3].entries,
               NumAt(BusSchema(), m, 4), BlobAt(BusSchema(), m, 5), TimeAt(BusSchema(), m, 6))
  }

  function PublishToMsg(p: PublishRequest): (m: Msg)
    ensures PlainMsg(PublishSchema(), m) && WellTyped(PublishSchema(), m)
  {
    SchemasAreValid();
    if p.message.None? then Msg([VMessage(None)], [])
    else
      PlainSub(BusSchema(), BusToMsg(p.message.value));
      Msg([VMessage(Some(BusToMsg(p.message.value)))], [])
  }

  function PublishOfMsg(m: Msg): PublishRequest
    requires WellTyped(PublishSchema(), m)
  {
    assert Fits(PublishSchema().fields[0].kind, m.vals[0]);
    PublishRequest(if m.vals[0].msg.None? then None else Some(BusOfMsg(m.vals[0].msg.value)))
  }

  /** PublishRequest.UnmarshalVT into a fresh message. */
  function UnmarshalPublish(skip: Skipper, data: Bytes): Result<PublishRequest> {
    var m :- DecodeFrom(skip, PublishSchema(), Fresh(PublishSchema()), data, 0);
    DecodeKeepsTypes(skip, PublishSchema(), Fresh(PublishSchema()), data, 0);
    Ok(PublishOfMsg(m))
  }

  /** Message.UnmarshalVT into a fresh message. */
  function UnmarshalBus(skip: Skipper, data: Bytes): Result<BusMessage> {
    var m :- DecodeFrom(skip, BusSchema(), Fresh(BusSchema()), data, 0);
    DecodeKeepsTypes(skip, BusSchema(), Fresh(BusSchema()), data, 0);
    Ok(BusOfMsg(m))
  }

  lemma BusRoundTrip(skip: Skipper, ord: Order, b: BusMessage)
    requires ValidOrder(ord) && |Encode(ord, [], BusSchema(), BusToMsg(b))| < TWO63
    ensures UnmarshalBus(skip, Encode(ord, [], BusSchema(), BusToMsg(b))) == Ok(b)
  {
    hide Encode, DecodeFrom, PlainMsg;
    PlainRoundTrips(skip, ord, BusSchema(), BusToMsg(b));
  }

  lemma PublishRoundTrip(skip: Skipper, ord: Order, p: PublishRequest)
    requires ValidOrder(ord) && |Encode(ord, [], PublishSchema(), PublishToMsg(p))| < TWO63
    ensures UnmarshalPublish(skip, Encode(ord, [], PublishSchema(), PublishToMsg(p))) == Ok(p)
  {
    hide Encode, DecodeFrom, PlainMsg;
    PlainRoundTrips(skip, ord, PublishSchema(), PublishToMsg(p));
  }

  // ---- workloads.v1 ----------------------------------------------------------

  datatype Envelope = Envelope(
    runId: Bytes,
    messageId: Bytes,
    sequence: uint64,
    clientSendTime: Option<Timestamp>,
    serverReceiveTime: Option<Timestamp>,
    serverSendTime: Option<Timestamp>,
    requestWireBytes: uint32,
    requestSha256: Bytes,
    responderId: Bytes,
    codec: int32,
    transport: int32,
    fixture: Bytes,
    attempt: uint32)

  datatype PingRequest = PingRequest(envelope: Option<Envelope>)

  function EnvelopeKind(i: nat): Kind {
    match i
    case 2 => Scalar(Uint64)
    case 3 | 4 | 5 => Message(TimestampSchema())
    case 6 => Scalar(Fixed32)
    case 9 | 10 => Scalar(Int32)
    case 12 => Scalar(Uint32)
    case _ => Blob
  }

  function EnvelopeSchema(): Schema {
    Schema(seq(13, i requires 0 <= i < 13 => Field(i + 1, EnvelopeKind(i))))
  }

  function PingSchema(): Schema {
    Schema([Field(1, Message(EnvelopeSchema()))])
  }

  function EnvelopeValue(e: Envelope, i: nat): (v: Value)
    ensures Plain(EnvelopeKind(i), v)
  {
    match i
    case 0 => VBlob(e.runId)
    case 1 => VBlob(e.messageId)
    case 2 => VNum(e.sequence)
    case 3 => OptionalTime(e.clientSendTime)
    case 4 => OptionalTime(e.serverReceiveTime)
    case 5 => OptionalTime(e.serverSendTime)
    case 6 => VNum(e.requestWireBytes)
    case 7 => VBlob(e.requestSha256)
    case 8 => VBlob(e.responderId)
    case 9 => VNum(e.codec)
    case 10 => VNum(e.transport)
    case 12 => VNum(e.attempt)
    case _ => VBlob(e.fixture)
  }

  function EnvelopeToMsg(e: Envelope): (m: Msg)
    ensures PlainMsg(EnvelopeSchema(), m) && WellTyped(EnvelopeSchema(), m)
  {
    SchemasAreValid();
    Msg(seq(13, i requires 0 <= i < 13 => EnvelopeValue(e, i)), [])
  }

  function EnvelopeOfMsg(m: Msg): Envelope
    requires WellTyped(EnvelopeSchema(), m)
  {
    Envelope(BlobAt(EnvelopeSchema(), m, 0), BlobAt(EnvelopeSchema(), m, 1), NumAt(EnvelopeSchema(), m, 2),
             TimeAt(EnvelopeSchema(), m, 3), TimeAt(EnvelopeSchema(), m, 4), TimeAt(EnvelopeSchema(), m, 5),
             NumAt(EnvelopeSchema(), m, 6), BlobAt(EnvelopeSchema(), m, 7), BlobAt(EnvelopeSchema(), m, 8),
             NumAt(EnvelopeSchema(), m, 9), NumAt(EnvelopeSchema(), m, 10), BlobAt(EnvelopeSchema(), m, 11),
             NumAt(EnvelopeSchema(), m, 12))
  }

  function PingToMsg(p: PingRequest): (m: Msg)
    ensures PlainMsg(PingSchema(), m) && WellTyped(PingSchema(), m)
  {
    SchemasAreValid();
    if p.envelope.None? then Msg([VMessage(None)], [])
    else
      PlainSub(EnvelopeSchema(), EnvelopeToMsg(p.envelope.value));
      Msg([VMessage(Some(EnvelopeToMsg(p.envelope.value)))], [])
  }

  function PingOfMsg(m: Msg): PingRequest
    requires WellTyped(PingSchema(), m)
  {
    assert Fits(PingSchema().fields[0].kind, m.vals[0]);
    PingRequest(if m.vals[0].msg.None? then None else Some(EnvelopeOfMsg(m.vals[0].msg.value)))
  }

  /** PingRequest.UnmarshalVT into a fresh message. */
  function UnmarshalPing(skip: Skipper, data: Bytes): Result<PingRequest> {
    var m :- DecodeFrom(skip, PingSchema(), Fresh(PingSchema()), data, 0);
    DecodeKeepsTypes(skip, PingSchema(), Fresh(PingSchema()), data, 0);
    Ok(PingOfMsg(m))
  }

  lemma PingRoundTrip(skip: Skipper, ord: Order, p: PingRequest)
    requires ValidOrder(ord) && |Encode(ord, [], PingSchema(), PingToMsg(p))| < TWO63
    ensures UnmarshalPing(skip, Encode(ord, [], PingSchema(), PingToMsg(p))) == Ok(p)
  {
    hide Encode, DecodeFrom, PlainMsg;
    PlainRoundTrips(skip, ord, PingSchema(), PingToMsg(p));
  }

  // ---- benchmark.v1 ----------------------------------------------------------

  function NestedKind(i: nat): Kind {
    if i == 0 then Blob else Scalar(Int32)
  }

  function AllTypesKind(i: nat): Kind {
    match i
    case 1 | 11 => Scalar(Int32)
    case 2 => Scalar(Int64)
    case 3 => Scalar(Uint32)
    case 4 => Scalar(Uint64)
    case 5 => Scalar(Sint32)
    case 6 => Scalar(Sint64)
    case 7 => Scalar(Fixed64)
    case 8 => Scalar(Float32)
    case 9 => Scalar(Float64)
    case 10 => Scalar(Bool)
    case 12 => Message(TimestampSchema())
    case 13 => OptionalBlob
    case 14 => Message(NestedSchema())
    case 15 => PackedInt64
    case 16 => StringMap
    case _ => Blob
  }

  function NestedSchema(): Schema {
    Schema(seq(2, i requires 0 <= i < 2 => Field(i + 1, NestedKind(i))))
  }

  function AllTypesSchema(): Schema {
    Schema(seq(18, i requires 0 <= i < 18 => Field(i + 1, AllTypesKind(i))))
  }

  /** AllTypes comes back unchanged exactly when neither of its two floats is -0.0. */
  lemma AllTypesRoundTrip(skip: Skipper, ord: Order, m: Msg)
    requires ValidOrder(ord) && WellTyped(AllTypesSchema(), m) && NoUnknown(m)
    requires |Encode(ord, [], AllTypesSchema(), m)| < TWO63
    ensures var s := AllTypesSchema();
      DecodeFrom(skip, s, Fresh(s), Encode(ord, [], s, m), 0) == Ok(m) <==>
        m.vals[8] != VNum(TWO31) && m.vals[9] != VNum(TWO63)
  {
    hide Encode, DecodeFrom, NoNegativeZero;
    SchemasAreValid();
    RoundTripsExactly(skip, ord, [], AllTypesSchema(), m);
    AllTypesFloats(m);
  }

  lemma AllTypesFloats(m: Msg)
    requires WellTyped(AllTypesSchema(), m)
    ensures NoNegativeZero(AllTypesSchema(), m) <==> m.vals[8] != VNum(TWO31) && m.vals[9] != VNum(TWO63)
  {
    assert Fits(AllTypesSchema().fields[8].kind, m.vals[8]) && Fits(AllTypesSchema().fields[9].kind, m.vals[9]);
    forall i | 0 <= i < 18 && i != 8 && i != 9
      ensures NoNegativeZeroIn(AllTypesSchema().fields[i].kind, m.vals[i])
    {
      assert Fits(AllTypesSchema().fields[i].kind, m.vals[i]);
      if i == 12 {
        SubMessageHasNoFloats(TimestampSchema(), m.vals[12]);
      } else if i == 14 {
        SubMessageHasNoFloats(NestedSchema(), m.vals[14]);
      }
    }
  }

  lemma SubMessageHasNoFloats(sub: Schema, v: Value)
    requires sub == TimestampSchema() || sub == NestedSchema()
    requires Fits(Message(sub), v)
    ensures NoNegativeZeroIn(Message(sub), v)
  {
    if v.msg.Some? {
      var m := v.msg.value;
      forall i | 0 <= i < |m.vals| ensures NoNegativeZeroIn(sub.fields[i].kind, m.vals[i]) {
        assert i == 0 || i == 1;
      }
    }
  }

  // ---- layout on the wire ------------------------------------------------------

  ghost function Concat(parts: seq<Bytes>): Bytes {
    if parts == [] then [] else parts[0] + Concat(parts[1..])
  }

  /** The bytes of field number `num` of a message. */
  ghost function FieldBytes(ord: Order, schema: Schema, m: Msg, num: nat): Bytes
    requires ValidOrder(ord) && WellTyped(schema, m) && 1 <= num <= |m.vals|
  {
    EncodeField(ord, [], schema.fields[num - 1], m.vals[num - 1])
  }

  /** An encoding is its fields' bytes in field order, then the unknown fields. */
  lemma {:induction false} EncodeIsConcat(ord: Order, schema: Schema, m: Msg, k: nat) returns (parts: seq<Bytes>)
    requires ValidOrder(ord) && WellTyped(schema, m) && k <= |m.vals|
    ensures |parts| == |m.vals| - k
    ensures forall i :: 0 <= i < |parts| ==> parts[i] == FieldBytes(ord, schema, m, k + i + 1)
    ensures EncodeFrom(ord, [], schema, m, k) == Concat(parts) + m.unknown
    decreases |m.vals| - k
  {
    hide EncodeField;
    parts := [];
    if k < |m.vals| {
      var rest := EncodeIsConcat(ord, schema, m, k + 1);
      var first := FieldBytes(ord, schema, m, k + 1);
      parts := [first] + rest;
      assert parts[1..] == rest;
      assert first + Concat(rest) + m.unknown == first + (Concat(rest) + m.unknown);
    }
  }

  function StringPart(tag: byte, payload: Bytes): Bytes {
    if payload == [] then [] else [tag] + VarintBytes(|payload|) + payload
  }

  function VarintPart(tag: byte, n: uint64): Bytes {
    if n == 0 then [] else [tag] + VarintBytes(n)
  }

  /** Four bytes, least significant first. */
  function Fixed32Part(tag: byte, absent: bool, n: uint32): Bytes {
    if absent then [] else [tag, n % 0x100, n / 0x100 % 0x100, n / 0x1_0000 % 0x100, n / 0x100_0000]
  }

  /** Eight bytes, least significant first. */
  function Fixed64Part(tag: byte, absent: bool, n: uint64): Bytes {
    if absent then []
    else
      [tag, n % 0x100, n / 0x100 % 0x100, n / 0x1_0000 % 0x100, n / 0x100_0000 % 0x100] +
      [n / 0x1_0000_0000 % 0x100, n / 0x100_0000_0000 % 0x100, n / 0x1_0000_0000_0000 % 0x100,
       n / 0x100_0000_0000_0000]
  }

  lemma FourBytesOnWire(n: uint32, tag: byte)
    ensures [tag] + LittleEndian(n, 4) == Fixed32Part(tag, false, n) && Fixed32Part(tag, true, n) == []
  {
    hide LittleEndian;
    FourBytes(n);
  }

  lemma EightBytesOnWire(n: uint64, tag: byte)
    ensures [tag] + LittleEndian(n, 8) == Fixed64Part(tag, false, n) && Fixed64Part(tag, true, n) == []
  {
    hide LittleEndian;
    EightBytes(n);
    FourBytes(n);
    FourBytes(n / TWO32);
    HighBytes(n);
  }

  lemma HighBytes(n: uint64)
    ensures n / TWO32 / 0x100 == n / 0x100_0000_0000 && n / TWO32 / 0x1_0000 == n / 0x1_0000_0000_0000
    ensures n / TWO32 / 0x100_0000 == n / 0x100_0000_0000_0000 < 0x100
  {
  }

  ghost function TimePart(ord: Order, num: nat, tag: byte, t: Option<Timestamp>): Bytes
    requires ValidOrder(ord)
  {
    if t.None? then []
    else
      var w := Encode(ord, [num], TimestampSchema(), TimeToMsg(t.value));
      [tag] + VarintBytes(|w|) + w
  }

  /** Seconds under 0x08, nanoseconds under 0x10, both sign-extended, zeros absent. */
  lemma TimestampLayout(ord: Order, site: seq<nat>, t: Timestamp)
    requires ValidOrder(ord)
    ensures Encode(ord, site, TimestampSchema(), TimeToMsg(t)) ==
      VarintPart(0x08, ToUint64(t.seconds)) + VarintPart(0x10, ToUint64(t.nanos))
  {
    var s, m := TimestampSchema(), TimeToMsg(t);
    assert Tag(s.fields[0]) == [0x08] && Tag(s.fields[1]) == [0x10];
    hide VarintBytes, Tag;
    assert EncodeFrom(ord, site, s, m, 2) == [];
    assert EncodeFrom(ord, site, s, m, 1) == EncodeField(ord, site, s.fields[1], m.vals[1]);
    assert EncodeFrom(ord, site, s, m, 0) ==
      EncodeField(ord, site, s.fields[0], m.vals[0]) + EncodeFrom(ord, site, s, m, 1);
  }

  lemma TimeFieldLayout(ord: Order, f: Field, t: Option<Timestamp>, tag: byte)
    requires ValidOrder(ord) && f.kind == Message(TimestampSchema()) && Tag(f) == [tag]
    ensures EncodeField(ord, [], f, OptionalTime(t)) == TimePart(ord, f.num, tag, t)
  {
    hide Encode;
    assert [] + [f.num] == [f.num];
  }

  /** One header on the wire: its length, then key and value under tags 1 and 2. */
  lemma HeaderBytes(k: Bytes, v: Bytes)
    ensures Delimited(Field(4, StringMap), Entry(k, v)) ==
      [0x22] + VarintBytes(|Entry(k, v)|) + [0x0a] + VarintBytes(|k|) + k + [0x12] + VarintBytes(|v|) + v
  {
    BusTags();
    assert Tag(Field(4, StringMap)) == [0x22];
    hide VarintBytes, Tag;
  }

  /** The buffer is filled backwards, so the headers stand in the reverse of the visiting order. */
  lemma {:induction false} HeadersReversed(f: Field, m: map<Bytes, Bytes>, ks: seq<Bytes>) returns (parts: seq<Bytes>)
    requires forall k :: k in ks ==> k in m
    ensures |parts| == |ks| && EncodeEntries(f, m, ks) == Concat(parts)
    ensures forall i :: 0 <= i < |ks| ==> parts[|ks| - 1 - i] == Delimited(f, Entry(ks[i], m[ks[i]]))
  {
    hide Delimited, Entry;
    parts := [];
    if ks != [] {
      var rest := HeadersReversed(f, m, ks[1..]);
      parts := rest + [Delimited(f, Entry(ks[0], m[ks[0]]))];
      ConcatSnoc(rest, Delimited(f, Entry(ks[0], m[ks[0]])));
    }
  }

  lemma {:induction false} ConcatSnoc(parts: seq<Bytes>, last: Bytes)
    ensures Concat(parts + [last]) == Concat(parts) + last
  {
    var all := parts + [last];
    if parts == [] {
      assert all == [last] && Concat(all[1..]) == [];
    } else {
      ConcatSnoc(parts[1..], last);
      assert all[1..] == parts[1..] + [last];
    }
  }

  /** Which record field goes where in an encoded Message. */
  lemma BusLayout(ord: Order, b: BusMessage)
    requires ValidOrder(ord)
    ensures var s, m := BusSchema(), BusToMsg(b);
      FieldBytes(ord, s, m, 1) == StringPart(0x0a, b.topic) &&
      FieldBytes(ord, s, m, 2) == StringPart(0x12, b.payload) &&
      FieldBytes(ord, s, m, 3) == StringPart(0x1a, b.contentType) &&
      FieldBytes(ord, s, m, 4) == EncodeEntries(Field(4, StringMap), b.headers, ord([4], b.headers)) &&
      FieldBytes(ord, s, m, 5) == VarintPart(0x28, b.seqno) &&
      FieldBytes(ord, s, m, 6) == StringPart(0x32, b.publisherId) &&
      FieldBytes(ord, s, m, 7) == TimePart(ord, 7, 0x3a, b.publishedAt)
  {
    hide VarintBytes, Encode, EncodeEntries, PlainMsg, TimePart, OptionalTime, Tag;
    BusTags();
    TimeFieldLayout(ord, BusSchema().fields[6], b.publishedAt, 0x3a);
    assert [] + [4] == [4];
  }

  /** Which record field goes where in an encoded Envelope. */
  lemma EnvelopeLayout(ord: Order, e: Envelope)
    requires ValidOrder(ord)
    ensures var s, m := EnvelopeSchema(), EnvelopeToMsg(e);
      FieldBytes(ord, s, m, 1) == StringPart(0x0a, e.runId) &&
      FieldBytes(ord, s, m, 2) == StringPart(0x12, e.messageId) &&
      FieldBytes(ord, s, m, 3) == VarintPart(0x18, e.sequence) &&
      FieldBytes(ord, s, m, 4) == TimePart(ord, 4, 0x22, e.clientSendTime) &&
      FieldBytes(ord, s, m, 5) == TimePart(ord, 5, 0x2a, e.serverReceiveTime) &&
      FieldBytes(ord, s, m, 6) == TimePart(ord, 6, 0x32, e.serverSendTime) &&
      FieldBytes(ord, s, m, 7) ==
        Fixed32Part(0x3d, e.requestWireBytes == 0, e.requestWireBytes) &&
      FieldBytes(ord, s, m, 8) == StringPart(0x42, e.requestSha256) &&
      FieldBytes(ord, s, m, 9) == StringPart(0x4a, e.responderId) &&
      FieldBytes(ord, s, m, 10) == VarintPart(0x50, ToUint64(e.codec)) &&
      FieldBytes(ord, s, m, 11) == VarintPart(0x58, ToUint64(e.transport)) &&
      FieldBytes(ord, s, m, 12) == StringPart(0x62, e.fixture) &&
      FieldBytes(ord, s, m, 13) == VarintPart(0x68, e.attempt)
  {
    hide VarintBytes, Encode, LittleEndian, PlainMsg, TimePart, OptionalTime, Tag, Fixed32Part;
    FourBytesOnWire(e.requestWireBytes, 0x3d);
    EnvelopeTags();
    TimeFieldLayout(ord, EnvelopeSchema().fields[3], e.clientSendTime, 0x22);
    TimeFieldLayout(ord, EnvelopeSchema().fields[4], e.serverReceiveTime, 0x2a);
    TimeFieldLayout(ord, EnvelopeSchema().fields[5], e.serverSendTime, 0x32);
  }

  /** Field `num` of the schema is announced by the single byte `tag`. */
  ghost predicate TagIs(schema: Schema, num: nat, tag: byte) {
    1 <= num <= |schema.fields| && schema.fields[num - 1].num == num && Tag(schema.fields[num - 1]) == [tag]
  }

  /** The tag constants the generated code writes. */
  lemma BusTags()
    ensures TagIs(BusSchema(), 1, 0x0a) && TagIs(BusSchema(), 2, 0x12) && TagIs(BusSchema(), 3, 0x1a)
    ensures TagIs(BusSchema(), 4, 0x22) && TagIs(BusSchema(), 5, 0x28) && TagIs(BusSchema(), 6, 0x32)
    ensures TagIs(BusSchema(), 7, 0x3a)
  {
  }

  lemma EnvelopeTags()
    ensures TagIs(EnvelopeSchema(), 1, 0x0a) && TagIs(EnvelopeSchema(), 2, 0x12) && TagIs(EnvelopeSchema(), 3, 0x18)
    ensures TagIs(EnvelopeSchema(), 4, 0x22) && TagIs(EnvelopeSchema(), 5, 0x2a) && TagIs(EnvelopeSchema(), 6, 0x32)
    ensures TagIs(EnvelopeSchema(), 7, 0x3d) && TagIs(EnvelopeSchema(), 8, 0x42) && TagIs(EnvelopeSchema(), 9, 0x4a)
    ensures TagIs(EnvelopeSchema(), 10, 0x50) && TagIs(EnvelopeSchema(), 11, 0x58) && TagIs(EnvelopeSchema(), 12, 0x62)
    ensures TagIs(EnvelopeSchema(), 13, 0x68)
  {
  }

  lemma AllTypesTags()
    ensures TagIs(AllTypesSchema(), 1, 0x0a) && TagIs(AllTypesSchema(), 2, 0x10) && TagIs(AllTypesSchema(), 3, 0x18)
    ensures TagIs(AllTypesSchema(), 4, 0x20) && TagIs(AllTypesSchema(), 5, 0x28) && TagIs(AllTypesSchema(), 6, 0x30)
    ensures TagIs(AllTypesSchema(), 7, 0x38) && TagIs(AllTypesSchema(), 8, 0x41) && TagIs(AllTypesSchema(), 9, 0x4d)
    ensures TagIs(AllTypesSchema(), 10, 0x51) && TagIs(AllTypesSchema(), 11, 0x58) && TagIs(AllTypesSchema(), 12, 0x60)
    ensures TagIs(AllTypesSchema(), 13, 0x6a) && TagIs(AllTypesSchema(), 14, 0x72) && TagIs(AllTypesSchema(), 15, 0x7a)
    ensures Tag(AllTypesSchema().fields[15]) == [0x82, 0x01]
    ensures Tag(AllTypesSchema().fields[16]) == [0x8a, 0x01]
    ensures Tag(AllTypesSchema().fields[17]) == [0x92, 0x01]
  {
  }

  /** A length-delimited part, absent when there is nothing to carry. */
  function DelimitedPart(tag: Bytes, absent: bool, payload: Bytes): Bytes {
    if absent then [] else tag + VarintBytes(|payload|) + payload
  }

  /** What field `num` of AllTypes holds. */
  function AllTypesAt(m: Msg, num: nat): (v: Value)
    requires WellTyped(AllTypesSchema(), m) && 1 <= num <= 18
    ensures Fits(AllTypesKind(num - 1), v)
  {
    assert Fits(AllTypesSchema().fields[num - 1].kind, m.vals[num - 1]);
    m.vals[num - 1]
  }

  ghost function AllTypesBytes(ord: Order, m: Msg, num: nat): Bytes
    requires ValidOrder(ord) && WellTyped(AllTypesSchema(), m) && 1 <= num <= 18
  {
    FieldBytes(ord, AllTypesSchema(), m, num)
  }

  lemma AllTypesField(ord: Order, m: Msg, num: nat)
    requires ValidOrder(ord) && WellTyped(AllTypesSchema(), m) && 1 <= num <= 18
    ensures AllTypesBytes(ord, m, num) == EncodeField(ord, [], Field(num, AllTypesKind(num - 1)), AllTypesAt(m, num))
    ensures [] + [num] == [num]
  {
  }

  /** The number in numeric field `num` of AllTypes. */
  function AllTypesNum(m: Msg, num: nat): (n: int)
    requires WellTyped(AllTypesSchema(), m) && 1 <= num <= 18 && AllTypesKind(num - 1).Scalar?
    ensures InRange(AllTypesKind(num - 1).rep, n) && AllTypesAt(m, num) == VNum(n)
  {
    AllTypesAt(m, num).n
  }

  /** The zigzag fields of AllTypes, in 32 and in 64 bits. */
  lemma AllTypesZigzags(ord: Order, m: Msg)
    requires ValidOrder(ord) && WellTyped(AllTypesSchema(), m)
    ensures AllTypesBytes(ord, m, 6) == VarintPart(0x30, ZigzagOf(AllTypesNum(m, 6), TWO32))
    ensures AllTypesBytes(ord, m, 7) == VarintPart(0x38, ZigzagOf(AllTypesNum(m, 7), TWO64))
  {
    hide VarintBytes, Tag, WellTyped, AllTypesBytes, AllTypesAt, AllTypesNum;
    AllTypesTags();
    AllTypesField(ord, m, 6);
    AllTypesField(ord, m, 7);
  }

  /** Its fixed-width fields, byte by byte; the floats are absent for both zeros. */
  lemma AllTypesFixed(ord: Order, m: Msg)
    requires ValidOrder(ord) && WellTyped(AllTypesSchema(), m)
    ensures var n := AllTypesNum(m, 8); AllTypesBytes(ord, m, 8) == Fixed64Part(0x41, n == 0, n)
    ensures var n := AllTypesNum(m, 9); AllTypesBytes(ord, m, 9) == Fixed32Part(0x4d, n == 0 || n == TWO31, n)
    ensures var n := AllTypesNum(m, 10); AllTypesBytes(ord, m, 10) == Fixed64Part(0x51, n == 0 || n == TWO63, n)
  {
    hide LittleEndian, Fixed32Part, Fixed64Part, Tag, WellTyped, AllTypesBytes, AllTypesAt, AllTypesNum;
    AllTypesTags();
    AllTypesField(ord, m, 8);
    AllTypesField(ord, m, 9);
    AllTypesField(ord, m, 10);
    EightBytesOnWire(AllTypesNum(m, 8), 0x41);
    FourBytesOnWire(AllTypesNum(m, 9), 0x4d);
    EightBytesOnWire(AllTypesNum(m, 10), 0x51);
  }

  /** Its packed samples and its map. */
  lemma AllTypesCollections(ord: Order, m: Msg)
    requires ValidOrder(ord) && WellTyped(AllTypesSchema(), m)
    ensures var s := AllTypesAt(m, 16).s;
      AllTypesBytes(ord, m, 16) == DelimitedPart([0x82, 0x01], s == [], PackedBytes(s))
    ensures var h := AllTypesAt(m, 17).entries;
      AllTypesBytes(ord, m, 17) == EncodeEntries(Field(17, StringMap), h, ord([17], h))
  {
    hide VarintBytes, EncodeEntries, PackedBytes, Tag, WellTyped, AllTypesBytes, AllTypesAt;
    AllTypesTags();
    AllTypesField(ord, m, 16);
    AllTypesField(ord, m, 17);
  }
}
