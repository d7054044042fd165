/**
 UnmarshalVT undoes MarshalToSizedBufferVT, for every schema, every message without
 unknown fields and every order in which maps are visited.
 */
module RoundTrip {
  import opened Wrappers
  import opened Wire
  import opened Encoding
  import opened Decode

  lemma AtInRange(data: Bytes, i: nat, w: Bytes)
    requires At(data, i, w)
    ensures i + |w| <= |data|
  {
  }

  lemma TagSplits(num: nat, wt: nat)
    requires 1 <= num < 0x2000_0000 && wt < 8
    ensures (num * 8 + wt) / 8 == num && (num * 8 + wt) % 8 == wt && ToInt32(num) == num
  {
  }

  lemma TagReadsBack(data: Bytes, i: nat, f: Field)
    requires At(data, i, Tag(f)) && 1 <= f.num < 0x2000_0000
    ensures ReadVarint(data, i) == Ok((f.num * 8 + WireTypeOf(f.kind), i + |Tag(f)|))
    ensures ToInt32((f.num * 8 + WireTypeOf(f.kind)) / 8) == f.num
    ensures (f.num * 8 + WireTypeOf(f.kind)) % 8 == WireTypeOf(f.kind) != 4
  {
    hide ReadVarint, ToInt32, VarintBytes, At;
    ReadVarintReadsBack(data, i, f.num * 8 + WireTypeOf(f.kind));
    TagSplits(f.num, WireTypeOf(f.kind));
  }

  lemma {:induction false} NumbersAscend(fields: seq<Field>, i: nat, j: nat)
    requires i < j < |fields|
    requires forall x :: 0 < x < |fields| ==> fields[x - 1].num < fields[x].num
    ensures fields[i].num < fields[j].num
    decreases j
  {
    assert fields[j - 1].num < fields[j].num;
    if i < j - 1 {
      NumbersAscend(fields, i, j - 1);
    }
  }

  lemma {:induction false} FindHits(fields: seq<Field>, k: nat, from: nat)
    requires from <= k < |fields|
    requires forall i :: 0 < i < |fields| ==> fields[i - 1].num < fields[i].num
    ensures Find(fields, fields[k].num, from) == k
    decreases k - from
  {
    if from < k {
      NumbersAscend(fields, from, k);
      FindHits(fields, k, from + 1);
    }
  }

  /** A tag sends the decoder to the value reader of its own field. */
  lemma StepDispatches(skip: Skipper, schema: Schema, acc: Msg, data: Bytes, i: nat, k: nat)
    requires ValidSchema(schema) && |acc.vals| == |schema.fields| && k < |schema.fields|
    requires At(data, i, Tag(schema.fields[k]))
    ensures i < |data|
    ensures var f := schema.fields[k];
      var r := ReadValue(skip, f.kind, acc.vals[k], WireTypeOf(f.kind), data, i + |Tag(f)|);
      r.Ok? ==> DecodeFrom(skip, schema, acc, data, i) ==
                DecodeFrom(skip, schema, acc.(vals := acc.vals[k := r.value.0]), data, r.value.1)
  {
    hide ReadVarint, ReadValue, Tag, ToInt32, At, Find;
    TagReadsBack(data, i, schema.fields[k]);
    FindHits(schema.fields, k, 0);
  }

  /** A length and, right behind it, that many bytes. */
  ghost predicate Prefixed(data: Bytes, j: nat, payload: Bytes) {
    At(data, j, VarintBytes(|payload|)) && At(data, j + |VarintBytes(|payload|)|, payload)
  }

  lemma LengthReadsBack(data: Bytes, j: nat, payload: Bytes)
    requires Prefixed(data, j, payload) && |data| < TWO63
    ensures var s := j + |VarintBytes(|payload|)|;
      ReadLength(data, j) == Ok((s, s + |payload|)) && data[s..s + |payload|] == payload
  {
    hide ReadVarint, VarintBytes;
    ReadVarintReadsBack(data, j, |payload|);
  }

  lemma DelimitedSplits(data: Bytes, i: nat, f: Field, payload: Bytes)
    requires At(data, i, Delimited(f, payload))
    ensures At(data, i, Tag(f)) && Prefixed(data, i + |Tag(f)|, payload)
    ensures |Delimited(f, payload)| == |Tag(f)| + |VarintBytes(|payload|)| + |payload|
  {
    hide VarintBytes, At, Tag;
    AtConcat3(data, i, Tag(f), VarintBytes(|payload|), payload);
  }

  /** One half of a map entry: its one-byte tag, then a length-delimited string. */
  lemma PartReadsBack(data: Bytes, i: nat, tag: byte, payload: Bytes)
    requires At(data, i, [tag]) && Prefixed(data, i + 1, payload) && |data| < TWO63 && tag < 0x80
    ensures ReadVarint(data, i) == Ok((tag, i + 1))
    ensures var s := i + 1 + |VarintBytes(|payload|)|;
      ReadLength(data, i + 1) == Ok((s, s + |payload|)) && data[s..s + |payload|] == payload
  {
    hide ReadVarint, ReadLength;
    assert VarintBytes(tag) == [tag];
    ReadVarintReadsBack(data, i, tag);
    LengthReadsBack(data, i + 1, payload);
  }

  lemma AtConcat3(data: Bytes, i: nat, a: Bytes, b: Bytes, c: Bytes)
    requires At(data, i, a + b + c)
    ensures At(data, i, a) && At(data, i + |a|, b) && At(data, i + |a| + |b|, c)
  {
    hide At;
    assert a + b + c == a + (b + c);
    AtConcat(data, i, a, b + c);
    AtConcat(data, i + |a|, b, c);
  }

  /** The key branch and the value branch of the entry loop. */
  lemma EntryLoopTurn(
      skip: Skipper, data: Bytes, i: nat, post: nat, key: Bytes, val: Bytes, tag: uint64, s: nat, e: nat)
    requires i < post <= |data| && ReadVarint(data, i) == Ok((tag, i + 1)) && (tag == 0x0a || tag == 0x12)
    requires ReadLength(data, i + 1) == Ok((s, e))
    ensures ReadEntry(skip, data, i, post, key, val) ==
            if tag == 0x0a then ReadEntry(skip, data, e, post, data[s..e], val)
            else ReadEntry(skip, data, e, post, key, data[s..e])
  {
    hide ReadVarint, ReadLength;
    assert tag / 8 == if tag == 0x0a then 1 else 2;
  }

  lemma KeyStep(skip: Skipper, data: Bytes, i: nat, post: nat, key: Bytes, val: Bytes, payload: Bytes)
    requires At(data, i, KeyPart(payload)) && |data| < TWO63 && i < post <= |data|
    ensures ReadEntry(skip, data, i, post, key, val) ==
            ReadEntry(skip, data, i + |KeyPart(payload)|, post, payload, val)
  {
    hide ReadEntry, ReadVarint, ReadLength;
    AtConcat3(data, i, [0x0a], VarintBytes(|payload|), payload);
    PartReadsBack(data, i, 0x0a, payload);
    var e := i + |KeyPart(payload)|;
    EntryLoopTurn(skip, data, i, post, key, val, 0x0a, e - |payload|, e);
  }

  lemma ValueStep(skip: Skipper, data: Bytes, i: nat, post: nat, key: Bytes, val: Bytes, payload: Bytes)
    requires At(data, i, ValuePart(payload)) && |data| < TWO63 && i < post <= |data|
    ensures ReadEntry(skip, data, i, post, key, val) ==
            ReadEntry(skip, data, i + |ValuePart(payload)|, post, key, payload)
  {
    hide ReadEntry, ReadVarint, ReadLength;
    AtConcat3(data, i, [0x12], VarintBytes(|payload|), payload);
    PartReadsBack(data, i, 0x12, payload);
    var e := i + |ValuePart(payload)|;
    EntryLoopTurn(skip, data, i, post, key, val, 0x12, e - |payload|, e);
  }

  lemma EntryEnd(skip: Skipper, data: Bytes, e: nat, k: Bytes, v: Bytes)
    requires e <= |data|
    ensures ReadEntry(skip, data, e, e, k, v) == Ok((e, k, v))
  {
  }

  lemma EntryReadsBack(skip: Skipper, data: Bytes, i: nat, k: Bytes, v: Bytes)
    requires At(data, i, Entry(k, v)) && |data| < TWO63
    ensures var e := i + |Entry(k, v)|; ReadEntry(skip, data, i, e, [], []) == Ok((e, k, v))
  {
    hide KeyPart, ValuePart, At, ReadEntry;
    AtConcat(data, i, KeyPart(k), ValuePart(v));
    AtInRange(data, i, Entry(k, v));
    var mid, e := i + |KeyPart(k)|, i + |Entry(k, v)|;
    EntryEnd(skip, data, e, k, v);
    KeyStep(skip, data, i, e, [], [], k);
    ValueStep(skip, data, mid, e, k, [], v);
  }

  lemma PackedEnd(data: Bytes, i: nat, acc: seq<int>)
    requires i <= |data|
    ensures ReadPacked(data, i, i, acc) == Ok((i, acc))
  {
  }

  lemma PackedStep(data: Bytes, i: nat, post: nat, n: int, acc: seq<int>)
    requires IsInt64(n) && At(data, i, Int64Bytes(n)) && i < post <= |data|
    ensures ReadPacked(data, i, post, acc) == ReadPacked(data, i + |Int64Bytes(n)|, post, acc + [n])
  {
    hide ReadVarint;
    ReadVarintReadsBack(data, i, ToUint64(n));
  }

  lemma {:induction false} PackedReadsBack(data: Bytes, i: nat, s: seq<int>, acc: seq<int>)
    requires forall x :: 0 <= x < |s| ==> IsInt64(s[x])
    requires At(data, i, PackedBytes(s))
    ensures var e := i + |PackedBytes(s)|; ReadPacked(data, i, e, acc) == Ok((e, acc + s))
    decreases |s|
  {
    hide ReadPacked, Int64Bytes, At;
    if s == [] {
      assert i <= |data| by {
        AtInRange(data, i, []);
      }
      PackedEnd(data, i, acc);
      assert acc + s == acc;
    } else {
      var head, tail := Int64Bytes(s[0]), PackedBytes(s[1..]);
      assert PackedBytes(s) == head + tail;
      assert i + |head + tail| <= |data| by {
        AtInRange(data, i, head + tail);
      }
      AtConcat(data, i, head, tail);
      PackedStep(data, i, i + |head + tail|, s[0], acc);
      PackedReadsBack(data, i + |head|, s[1..], acc + [s[0]]);
      assert acc + [s[0]] + s[1..] == acc + s;
    }
  }

  lemma ScalarReadsBack(rep: Rep, n: int, data: Bytes, j: nat)
    requires InRange(rep, n) && At(data, j, ScalarBytes(rep, n))
    ensures ReadScalar(rep, data, j) == Ok((n, j + |ScalarBytes(rep, n)|))
  {
    var raw := ToWire(rep, n);
    ScalarRoundTrip(rep, n);
    FixedWidthBounds();
    match WireTypeOf(Scalar(rep))
    case 5 => ReadLittleEndianReadsBack(data, j, raw, 4);
    case 1 => ReadLittleEndianReadsBack(data, j, raw, 8);
    case _ => ReadVarintReadsBack(data, j, raw);
  }

  /** A length-delimited value is read from its own bytes, whatever surrounds them. */
  lemma PayloadReadsBack(f: Field, data: Bytes, i: nat, payload: Bytes)
    requires At(data, i, Delimited(f, payload)) && |data| < TWO63 && WireTypeOf(f.kind) == 2
    ensures At(data, i, Tag(f))
    ensures var j, e := i + |Tag(f)|, i + |Delimited(f, payload)|;
      ReadLength(data, j) == Ok((e - |payload|, e)) && data[e - |payload|..e] == payload
  {
    DelimitedSplits(data, i, f, payload);
    LengthReadsBack(data, i + |Tag(f)|, payload);
  }

  lemma MapValueReadsBack(skip: Skipper, f: Field, was: Value, data: Bytes, i: nat, k: Bytes, v: Bytes)
    requires At(data, i, Delimited(f, Entry(k, v))) && |data| < TWO63 && f.kind.StringMap?
    ensures At(data, i, Tag(f))
    ensures ReadValue(skip, f.kind, was, 2, data, i + |Tag(f)|)
            == Ok((VMap(EntriesOf(was)[k := v]), i + |Delimited(f, Entry(k, v))|))
  {
    hide ReadEntry, Entry, Tag;
    PayloadReadsBack(f, data, i, Entry(k, v));
    EntryReadsBack(skip, data, i + |Delimited(f, Entry(k, v))| - |Entry(k, v)|, k, v);
  }

  lemma PackedValueReadsBack(skip: Skipper, f: Field, was: Value, data: Bytes, i: nat, s: seq<int>)
    requires forall x :: 0 <= x < |s| ==> IsInt64(s[x])
    requires At(data, i, Delimited(f, PackedBytes(s))) && |data| < TWO63 && f.kind.PackedInt64?
    ensures At(data, i, Tag(f))
    ensures ReadValue(skip, f.kind, was, 2, data, i + |Tag(f)|)
            == Ok((VNums(SamplesOf(was) + s), i + |Delimited(f, PackedBytes(s))|))
  {
    hide ReadPacked, PackedBytes, Tag;
    PayloadReadsBack(f, data, i, PackedBytes(s));
    PackedReadsBack(data, i + |Delimited(f, PackedBytes(s))| - |PackedBytes(s)|, s, SamplesOf(was));
  }

  lemma ScalarValueReadsBack(skip: Skipper, f: Field, was: Value, data: Bytes, i: nat, n: int)
    requires f.kind.Scalar? && InRange(f.kind.rep, n) && At(data, i, Tag(f) + ScalarBytes(f.kind.rep, n))
    ensures At(data, i, Tag(f))
    ensures ReadValue(skip, f.kind, was, WireTypeOf(f.kind), data, i + |Tag(f)|)
            == Ok((VNum(n), i + |Tag(f) + ScalarBytes(f.kind.rep, n)|))
  {
    hide Tag, ScalarBytes, ReadScalar;
    AtConcat(data, i, Tag(f), ScalarBytes(f.kind.rep, n));
    ScalarReadsBack(f.kind.rep, n, data, i + |Tag(f)|);
  }

  // ---- maps ------------------------------------------------------------------

  ghost function Added(cur: map<Bytes, Bytes>, m: map<Bytes, Bytes>, ks: seq<Bytes>): map<Bytes, Bytes>
    requires forall k :: k in ks ==> k in m
  {
    if ks == [] then cur else Added(cur, m, ks[1..])[ks[0] := m[ks[0]]]
  }

  lemma {:induction false} AddedLooksUp(cur: map<Bytes, Bytes>, m: map<Bytes, Bytes>, ks: seq<Bytes>)
    requires forall k :: k in ks ==> k in m
    ensures forall k :: k in Added(cur, m, ks) <==> k in ks || k in cur
    ensures forall k :: k in Added(cur, m, ks) ==> Added(cur, m, ks)[k] == if k in ks then m[k] else cur[k]
  {
    if ks != [] {
      AddedLooksUp(cur, m, ks[1..]);
      assert forall k :: k in ks <==> k == ks[0] || k in ks[1..];
    }
  }

  lemma AddedIsUnion(cur: map<Bytes, Bytes>, m: map<Bytes, Bytes>, ks: seq<Bytes>)
    requires Enumerates(ks, m)
    ensures Added(cur, m, ks) == cur + m
  {
    hide Added;
    AddedLooksUp(cur, m, ks);
  }

  ghost function WithEntries(acc: Msg, k: nat, m: map<Bytes, Bytes>, ks: seq<Bytes>): Msg
    requires k < |acc.vals| && forall key :: key in ks ==> key in m
  {
    acc.(vals := acc.vals[k := VMap(Added(EntriesOf(acc.vals[k]), m, ks))])
  }

  lemma {:induction false} EntriesReadBack(
      skip: Skipper, schema: Schema, acc: Msg, data: Bytes, i: nat, k: nat, m: map<Bytes, Bytes>, ks: seq<Bytes>)
    requires ValidSchema(schema) && |acc.vals| == |schema.fields| && k < |schema.fields| && |data| < TWO63
    requires schema.fields[k].kind.StringMap? && acc.vals[k].VMap?
    requires forall key :: key in ks ==> key in m
    requires At(data, i, EncodeEntries(schema.fields[k], m, ks))
    ensures DecodeFrom(skip, schema, acc, data, i) ==
            DecodeFrom(skip, schema, WithEntries(acc, k, m, ks), data, i + |EncodeEntries(schema.fields[k], m, ks)|)
    decreases |ks|
  {
    hide DecodeFrom, ReadValue, Delimited, Entry, Tag;
    var f := schema.fields[k];
    if ks == [] {
      assert WithEntries(acc, k, m, ks).vals == acc.vals;
    } else {
      var rest, last := EncodeEntries(f, m, ks[1..]), Delimited(f, Entry(ks[0], m[ks[0]]));
      assert EncodeEntries(f, m, ks) == rest + last;
      AtConcat(data, i, rest, last);
      EntriesReadBack(skip, schema, acc, data, i, k, m, ks[1..]);
      var mid := WithEntries(acc, k, m, ks[1..]);
      MapValueReadsBack(skip, f, mid.vals[k], data, i + |rest|, ks[0], m[ks[0]]);
      StepDispatches(skip, schema, mid, data, i + |rest|, k);
      assert mid.vals[k := WithEntries(acc, k, m, ks).vals[k]] == WithEntries(acc, k, m, ks).vals;
    }
  }

  // ---- messages --------------------------------------------------------------

  ghost predicate Ready(schema: Schema, m: Msg) {
    ValidSchema(schema) && WellTyped(schema, m) && NoUnknown(m)
  }

  lemma BlobValueReadsBack(skip: Skipper, f: Field, was: Value, data: Bytes, i: nat, payload: Bytes)
    requires At(data, i, Delimited(f, payload)) && |data| < TWO63 && (f.kind.Blob? || f.kind.OptionalBlob?)
    ensures At(data, i, Tag(f))
    ensures ReadValue(skip, f.kind, was, 2, data, i + |Tag(f)|)
            == Ok((if f.kind.Blob? then VBlob(payload) else VOptional(Some(payload)), i + |Delimited(f, payload)|))
  {
    hide ReadLength, Tag, Delimited;
    PayloadReadsBack(f, data, i, payload);
  }

  lemma MessageValueReadsBack(skip: Skipper, f: Field, was: Value, data: Bytes, i: nat, payload: Bytes, m: Msg)
    requires At(data, i, Delimited(f, payload)) && |data| < TWO63 && f.kind.Message? && Fits(f.kind, was)
    requires DecodeFrom(skip, f.kind.sub, Inside(f.kind.sub, was), payload, 0) == Ok(m)
    ensures At(data, i, Tag(f))
    ensures ReadValue(skip, f.kind, was, 2, data, i + |Tag(f)|)
            == Ok((VMessage(Some(m)), i + |Delimited(f, payload)|))
  {
    hide DecodeFrom, Fresh;
    PayloadReadsBack(f, data, i, payload);
  }

  // ---- merging ---------------------------------------------------------------

  /** The sub-message a field holds, or a fresh one. */
  function Inside(sub: Schema, v: Value): (m: Msg)
    requires Fits(Message(sub), v)
    ensures WellTyped(sub, m)
  {
    if v.msg.None? then Fresh(sub) else v.msg.value
  }

  /**
   `v` received on top of `was`, as protobuf merges: what is present replaces, sub-messages merge
   field by field, map entries are added or replaced, repeated numbers are appended.
   */
  function MergeValue(kind: Kind, was: Value, v: Value): (r: Value)
    requires Fits(kind, was) && Fits(kind, v)
    ensures Fits(kind, r)
    decreases v, 0
  {
    match kind
    case Scalar(rep) => if IsZero(rep, v.n) then was else v
    case Blob => if v.b == [] then was else v
    case OptionalBlob => if v.o.None? then was else v
    case Message(sub) => if v.msg.None? then was else VMessage(Some(Merge(sub, Inside(sub, was), v.msg.value)))
    case StringMap => VMap(was.entries + v.entries)
    case PackedInt64 => VNums(was.s + v.s)
  }

  function Merge(schema: Schema, acc: Msg, m: Msg): (r: Msg)
    requires WellTyped(schema, acc) && WellTyped(schema, m)
    ensures WellTyped(schema, r)
    decreases m, 1
  {
    Msg(seq(|m.vals|, i requires 0 <= i < |m.vals| => MergeValue(schema.fields[i].kind, acc.vals[i], m.vals[i])),
        acc.unknown)
  }

  /** Fields `k` and up merged, those below as they are. */
  ghost function MergeFrom(schema: Schema, acc: Msg, m: Msg, k: nat): Msg
    requires WellTyped(schema, acc) && WellTyped(schema, m)
  {
    Msg(seq(|m.vals|, i requires 0 <= i < |m.vals| =>
              if i < k then acc.vals[i] else MergeValue(schema.fields[i].kind, acc.vals[i], m.vals[i])),
        acc.unknown)
  }

  /** Merging into a fresh message gives the message, up to the sign of float zeros. */
  lemma {:induction false} MergeIntoFresh(schema: Schema, m: Msg)
    requires WellTyped(schema, m) && NoUnknown(m)
    ensures Merge(schema, Fresh(schema), m) == Canon(schema, m)
    decreases m
  {
    forall i | 0 <= i < |m.vals|
      ensures MergeValue(schema.fields[i].kind, Zero(schema.fields[i].kind), m.vals[i])
              == CanonValue(schema.fields[i].kind, m.vals[i])
    {
      assert Fits(schema.fields[i].kind, m.vals[i]);
      if schema.fields[i].kind.Message? && m.vals[i].msg.Some? {
        MergeIntoFresh(schema.fields[i].kind.sub, m.vals[i].msg.value);
      } else if schema.fields[i].kind.PackedInt64? {
        assert [] + m.vals[i].s == m.vals[i].s;
      } else if schema.fields[i].kind.StringMap? {
        assert map[] + m.vals[i].entries == m.vals[i].entries;
      }
    }
    assert Merge(schema, Fresh(schema), m).vals == Canon(schema, m).vals;
  }

  ghost function WithField(acc: Msg, k: nat, v: Value): Msg
    requires k < |acc.vals|
  {
    acc.(vals := acc.vals[k := v])
  }

  lemma MapFieldReadsBack(
      skip: Skipper, ord: Order, site: seq<nat>, schema: Schema, v: Value, acc: Msg, data: Bytes, i: nat, k: nat)
    requires ValidOrder(ord) && ValidSchema(schema) && |data| < TWO63 && k < |schema.fields| == |acc.vals|
    requires schema.fields[k].kind.StringMap? && v.VMap? && acc.vals[k].VMap?
    requires At(data, i, EncodeField(ord, site, schema.fields[k], v))
    ensures DecodeFrom(skip, schema, acc, data, i) ==
            DecodeFrom(skip, schema, WithField(acc, k, VMap(acc.vals[k].entries + v.entries)),
                       data, i + |EncodeField(ord, site, schema.fields[k], v)|)
  {
    hide DecodeFrom, ValidSchema, EncodeEntries, Added, At;
    var ks := ord(site + [schema.fields[k].num], v.entries);
    assert Enumerates(ks, v.entries);
    EntriesReadBack(skip, schema, acc, data, i, k, v.entries, ks);
    AddedIsUnion(acc.vals[k].entries, v.entries, ks);
  }

  /** A field that is present on the wire, other than a map, is merged by its own reader. */
  lemma {:induction false} ValueReadsBack(
      skip: Skipper, ord: Order, site: seq<nat>, schema: Schema, m: Msg, was: Value, data: Bytes, i: nat, k: nat)
    requires ValidOrder(ord) && Ready(schema, m) && |data| < TWO63 && k < |m.vals|
    requires !schema.fields[k].kind.StringMap? && Fits(schema.fields[k].kind, was)
    requires At(data, i, EncodeField(ord, site, schema.fields[k], m.vals[k]))
    requires EncodeField(ord, site, schema.fields[k], m.vals[k]) != []
    ensures var f := schema.fields[k];
      At(data, i, Tag(f)) &&
      ReadValue(skip, f.kind, was, WireTypeOf(f.kind), data, i + |Tag(f)|)
      == Ok((MergeValue(f.kind, was, m.vals[k]), i + |EncodeField(ord, site, f, m.vals[k])|))
    decreases m, 0
  {
    hide DecodeFrom, ReadValue, Encode, Merge, Inside, Tag, PackedBytes, ScalarBytes, Delimited, At;
    var f, v := schema.fields[k], m.vals[k];
    assert Fits(f.kind, v);
    match f.kind {
      case Scalar(rep) => ScalarValueReadsBack(skip, f, was, data, i, v.n);
      case Blob => BlobValueReadsBack(skip, f, was, data, i, v.b);
      case OptionalBlob => BlobValueReadsBack(skip, f, was, data, i, v.o.value);
      case Message(sub) =>
        var inner := Encode(ord, site + [f.num], sub, v.msg.value);
        assert |inner| < TWO63 by {
          AtInRange(data, i, Delimited(f, inner));
          DelimitedSplits(data, i, f, inner);
        }
        DecodeMerges(skip, ord, site + [f.num], sub, Inside(sub, was), v.msg.value);
        MessageValueReadsBack(skip, f, was, data, i, inner, Merge(sub, Inside(sub, was), v.msg.value));
      case PackedInt64 => PackedValueReadsBack(skip, f, was, data, i, v.s);
    }
  }

  lemma AbsentMergesAway(ord: Order, site: seq<nat>, f: Field, was: Value, v: Value)
    requires ValidOrder(ord) && Fits(f.kind, v) && Fits(f.kind, was)
    requires !f.kind.StringMap? && EncodeField(ord, site, f, v) == []
    ensures MergeValue(f.kind, was, v) == was
  {
    if f.kind.PackedInt64? {
      assert was.s + [] == was.s;
    }
  }

  /** Decoding past one encoded field merges exactly that field. */
  lemma {:induction false} FieldReadsBack(
      skip: Skipper, ord: Order, site: seq<nat>, schema: Schema, m: Msg, acc: Msg, data: Bytes, i: nat, k: nat)
    requires ValidOrder(ord) && Ready(schema, m) && |data| < TWO63 && k < |m.vals| && WellTyped(schema, acc)
    requires At(data, i, EncodeField(ord, site, schema.fields[k], m.vals[k]))
    ensures Fits(schema.fields[k].kind, acc.vals[k])
    ensures DecodeFrom(skip, schema, acc, data, i) ==
            DecodeFrom(skip, schema, WithField(acc, k, MergeValue(schema.fields[k].kind, acc.vals[k], m.vals[k])),
                       data, i + |EncodeField(ord, site, schema.fields[k], m.vals[k])|)
    decreases m, 1
  {
    hide DecodeFrom, ReadValue, ValidSchema, At, Tag, Delimited, Encode, EncodeEntries, ScalarBytes, PackedBytes, Merge;
    var f, v := schema.fields[k], m.vals[k];
    assert Fits(f.kind, v) && Fits(f.kind, acc.vals[k]);
    if f.kind.StringMap? {
      MapFieldReadsBack(skip, ord, site, schema, v, acc, data, i, k);
    } else if EncodeField(ord, site, f, v) == [] {
      AbsentMergesAway(ord, site, f, acc.vals[k], v);
      assert WithField(acc, k, acc.vals[k]).vals == acc.vals;
    } else {
      ValueReadsBack(skip, ord, site, schema, m, acc.vals[k], data, i, k);
      StepDispatches(skip, schema, acc, data, i, k);
    }
  }

  lemma DecodeEnd(skip: Skipper, schema: Schema, acc: Msg, data: Bytes)
    requires |acc.vals| == |schema.fields|
    ensures DecodeFrom(skip, schema, acc, data, |data|) == Ok(acc)
  {
  }

  lemma MergeFromStep(schema: Schema, acc: Msg, m: Msg, k: nat)
    requires WellTyped(schema, acc) && WellTyped(schema, m) && k < |m.vals|
    ensures var acc' := WithField(acc, k, MergeValue(schema.fields[k].kind, acc.vals[k], m.vals[k]));
      WellTyped(schema, acc') && MergeFrom(schema, acc', m, k + 1) == MergeFrom(schema, acc, m, k)
  {
    hide MergeValue;
    var acc' := WithField(acc, k, MergeValue(schema.fields[k].kind, acc.vals[k], m.vals[k]));
    assert MergeFrom(schema, acc', m, k + 1).vals == MergeFrom(schema, acc, m, k).vals;
  }

  lemma MergeFromEnds(schema: Schema, acc: Msg, m: Msg)
    requires WellTyped(schema, acc) && WellTyped(schema, m)
    ensures MergeFrom(schema, acc, m, |m.vals|) == acc && MergeFrom(schema, acc, m, 0) == Merge(schema, acc, m)
  {
    hide MergeValue;
    assert MergeFrom(schema, acc, m, |m.vals|).vals == acc.vals;
    assert MergeFrom(schema, acc, m, 0).vals == Merge(schema, acc, m).vals;
  }

  /** Decoding past encoded fields merges exactly those, whatever follows. */
  lemma {:induction false} FieldsReadBack(
      skip: Skipper, ord: Order, site: seq<nat>, schema: Schema, m: Msg, acc: Msg, data: Bytes, i: nat, k: nat)
    requires ValidOrder(ord) && Ready(schema, m) && |data| < TWO63 && k <= |m.vals| && WellTyped(schema, acc)
    requires At(data, i, EncodeFrom(ord, site, schema, m, k))
    ensures DecodeFrom(skip, schema, acc, data, i) ==
            DecodeFrom(skip, schema, MergeFrom(schema, acc, m, k), data, i + |EncodeFrom(ord, site, schema, m, k)|)
    decreases m, 2 + |m.vals| - k
  {
    hide EncodeField, ValidSchema, DecodeFrom, MergeFrom, MergeValue, WithField, At, Fits;
    assert WellTyped(schema, m) && WellTyped(schema, acc);
    if k == |m.vals| {
      MergeFromEnds(schema, acc, m);
      NothingMore(schema, m);
    } else {
      var enc := EncodeField(ord, site, schema.fields[k], m.vals[k]);
      AtConcat(data, i, enc, EncodeFrom(ord, site, schema, m, k + 1));
      FieldReadsBack(skip, ord, site, schema, m, acc, data, i, k);
      MergeFromStep(schema, acc, m, k);
      var acc' := WithField(acc, k, MergeValue(schema.fields[k].kind, acc.vals[k], m.vals[k]));
      FieldsReadBack(skip, ord, site, schema, m, acc', data, i + |enc|, k + 1);
    }
  }

  lemma NothingMore(schema: Schema, m: Msg)
    requires Ready(schema, m)
    ensures m.unknown == []
  {
  }

  /** Decoding an encoded message into any message merges it in. */
  lemma {:induction false} DecodeMerges(skip: Skipper, ord: Order, site: seq<nat>, schema: Schema, acc: Msg, m: Msg)
    requires ValidOrder(ord) && Ready(schema, m) && WellTyped(schema, acc) && |Encode(ord, site, schema, m)| < TWO63
    ensures DecodeFrom(skip, schema, acc, Encode(ord, site, schema, m), 0) == Ok(Merge(schema, acc, m))
    decreases m, |m.vals| + 3
  {
    hide DecodeFrom, Merge, MergeFrom, Fits;
    var data := Encode(ord, site, schema, m);
    assert data[0..|data|] == data;
    FieldsReadBack(skip, ord, site, schema, m, acc, data, 0, 0);
    MergeFromEnds(schema, acc, m);
    DecodeEnd(skip, schema, Merge(schema, acc, m), data);
  }

  /** Concatenated encodings decode to the merged message: the last one wins, collections add up. */
  lemma DecodeConcat(skip: Skipper, ord: Order, site: seq<nat>, schema: Schema, acc: Msg, a: Msg, b: Msg)
    requires ValidOrder(ord) && Ready(schema, a) && Ready(schema, b) && WellTyped(schema, acc)
    requires |Encode(ord, site, schema, a) + Encode(ord, site, schema, b)| < TWO63
    ensures DecodeFrom(skip, schema, acc, Encode(ord, site, schema, a) + Encode(ord, site, schema, b), 0)
            == Ok(Merge(schema, Merge(schema, acc, a), b))
  {
    hide DecodeFrom, Merge, MergeFrom, EncodeFrom, Fits, ValidSchema, NoUnknown;
    var x, y := Encode(ord, site, schema, a), Encode(ord, site, schema, b);
    var data, mid := x + y, Merge(schema, acc, a);
    assert data[0..|x|] == x && data[|x|..|x| + |y|] == y;
    FieldsReadBack(skip, ord, site, schema, a, acc, data, 0, 0);
    MergeFromEnds(schema, acc, a);
    FieldsReadBack(skip, ord, site, schema, b, mid, data, |x|, 0);
    MergeFromEnds(schema, mid, b);
    DecodeEnd(skip, schema, Merge(schema, mid, b), data);
  }

  /** The round trip. The only thing lost is the sign of a float zero. */
  lemma DecodeEncode(skip: Skipper, ord: Order, site: seq<nat>, schema: Schema, m: Msg)
    requires ValidOrder(ord) && Ready(schema, m) && |Encode(ord, site, schema, m)| < TWO63
    ensures DecodeFrom(skip, schema, Fresh(schema), Encode(ord, site, schema, m), 0) == Ok(Canon(schema, m))
  {
    hide DecodeFrom, Merge, Encode, Canon;
    DecodeMerges(skip, ord, site, schema, Fresh(schema), m);
    MergeIntoFresh(schema, m);
  }

  /** Hence a message comes back unchanged exactly when none of its float fields is -0.0. */
  lemma RoundTripsExactly(skip: Skipper, ord: Order, site: seq<nat>, schema: Schema, m: Msg)
    requires ValidOrder(ord) && Ready(schema, m) && |Encode(ord, site, schema, m)| < TWO63
    ensures DecodeFrom(skip, schema, Fresh(schema), Encode(ord, site, schema, m), 0) == Ok(m)
            <==> NoNegativeZero(schema, m)
  {
    hide DecodeFrom, Encode;
    DecodeEncode(skip, ord, site, schema, m);
    CanonIsIdentityExactly(schema, m);
  }
}
