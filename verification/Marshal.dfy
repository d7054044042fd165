/**
 The imperative codec: SizeVT predicts the length, MarshalToSizedBufferVT fills a buffer
 from its end, UnmarshalVT walks a cursor, and vtCodec.MarshalAppend puts the first two
 together over a growable slice.
 */
module Marshal {
  import opened Wrappers
  import opened Wire
  import opened Encoding
  import opened Decode

  // ---- SizeVT ----------------------------------------------------------------

  /** Size of a length-delimited field, tag included. */
  function SizeOfDelimited(f: Field, l: nat): nat {
    SizeOfVarint(f.num * 8 + WireTypeOf(f.kind)) + l + SizeOfVarint(l)
  }

  function SizeOfEntry(k: Bytes, v: Bytes): nat {
    1 + |k| + SizeOfVarint(|k|) + 1 + |v| + SizeOfVarint(|v|)
  }

  lemma DelimitedSize(f: Field, payload: Bytes)
    ensures |Delimited(f, payload)| == SizeOfDelimited(f, |payload|)
  {
    SizeOfVarintIsLength(f.num * 8 + WireTypeOf(f.kind));
    SizeOfVarintIsLength(|payload|);
  }

  lemma EntrySize(k: Bytes, v: Bytes)
    ensures |Entry(k, v)| == SizeOfEntry(k, v)
  {
    SizeOfVarintIsLength(|k|);
    SizeOfVarintIsLength(|v|);
  }

  function SizeOfScalar(rep: Rep, n: int): nat
    requires InRange(rep, n)
  {
    match WireTypeOf(Scalar(rep))
    case 5 => 4
    case 1 => 8
    case _ => if rep.Sint32? then SizeOfVarint(ZigzagOf(n, TWO64)) else SizeOfVarint(ToWire(rep, n))
  }

  lemma ScalarSize(rep: Rep, n: int)
    requires InRange(rep, n)
    ensures |ScalarBytes(rep, n)| == SizeOfScalar(rep, n)
  {
    SizeOfVarintIsLength(ToWire(rep, n));
    if rep.Sint32? {
      Zigzag32Size(n);
    }
  }

  lemma EntriesTail(f: Field, m: map<Bytes, Bytes>, ks: seq<Bytes>, x: nat)
    requires x < |ks| && forall k :: k in ks ==> k in m
    ensures EncodeEntries(f, m, ks[x..]) ==
            EncodeEntries(f, m, ks[x + 1..]) + Delimited(f, Entry(ks[x], m[ks[x]]))
  {
    assert ks[x..][1..] == ks[x + 1..];
  }

  method SizeOfEntries(f: Field, m: map<Bytes, Bytes>, ks: seq<Bytes>) returns (n: nat)
    requires forall k :: k in ks ==> k in m
    ensures n == |EncodeEntries(f, m, ks)|
  {
    n := 0;
    var x := 0;
    while x < |ks|
      invariant x <= |ks|
      invariant n + |EncodeEntries(f, m, ks[x..])| == |EncodeEntries(f, m, ks)|
    {
      hide EncodeEntries, Delimited, Entry;
      EntriesTail(f, m, ks, x);
      var entrySize := SizeOfEntry(ks[x], m[ks[x]]);
      EntrySize(ks[x], m[ks[x]]);
      DelimitedSize(f, Entry(ks[x], m[ks[x]]));
      n := n + SizeOfDelimited(f, entrySize);
      x := x + 1;
    }
  }

  method SizeOfPacked(s: seq<int>) returns (n: nat)
    requires forall i :: 0 <= i < |s| ==> IsInt64(s[i])
    ensures n == |PackedBytes(s)|
  {
    n := 0;
    var x := 0;
    while x < |s|
      invariant x <= |s|
      invariant n + |PackedBytes(s[x..])| == |PackedBytes(s)|
    {
      PackedTail(s, x);
      assert IsInt64(s[x]);
      SizeOfVarintIsLength(ToUint64(s[x]));
      n := n + SizeOfVarint(ToUint64(s[x]));
      x := x + 1;
    }
  }

  lemma PackedTail(s: seq<int>, x: nat)
    requires x < |s| && forall i :: 0 <= i < |s| ==> IsInt64(s[i])
    ensures PackedBytes(s[x..]) == Int64Bytes(s[x]) + PackedBytes(s[x + 1..])
  {
    assert s[x..][1..] == s[x + 1..];
  }

  method SizeOfField(ord: Order, site: seq<nat>, f: Field, v: Value) returns (n: nat)
    requires ValidOrder(ord) && Fits(f.kind, v)
    ensures n == |EncodeField(ord, site, f, v)|
    decreases v, 0
  {
    hide Delimited, ScalarBytes, PackedBytes, EncodeEntries, Encode;
    n := 0;
    match f.kind {
      case Scalar(rep) =>
        if !IsZero(rep, v.n) {
          SizeOfVarintIsLength(f.num * 8 + WireTypeOf(f.kind));
          ScalarSize(rep, v.n);
          n := SizeOfVarint(f.num * 8 + WireTypeOf(f.kind)) + SizeOfScalar(rep, v.n);
        }
      case Blob =>
        if |v.b| > 0 {
          DelimitedSize(f, v.b);
          n := SizeOfDelimited(f, |v.b|);
        }
      case OptionalBlob =>
        if v.o.Some? {
          DelimitedSize(f, v.o.value);
          n := SizeOfDelimited(f, |v.o.value|);
        }
      case Message(sub) =>
        if v.msg.Some? {
          var l := SizeVT(ord, site + [f.num], sub, v.msg.value);
          DelimitedSize(f, Encode(ord, site + [f.num], sub, v.msg.value));
          n := SizeOfDelimited(f, l);
        }
      case StringMap =>
        assert Enumerates(ord(site + [f.num], v.entries), v.entries);
        n := SizeOfEntries(f, v.entries, ord(site + [f.num], v.entries));
      case PackedInt64 =>
        if |v.s| > 0 {
          var l := SizeOfPacked(v.s);
          DelimitedSize(f, PackedBytes(v.s));
          n := SizeOfDelimited(f, l);
        }
    }
  }

  method SizeVT(ord: Order, site: seq<nat>, schema: Schema, m: Msg) returns (n: nat)
    requires ValidOrder(ord) && WellTyped(schema, m)
    ensures n == |Encode(ord, site, schema, m)|
    decreases m, 1
  {
    n := 0;
    var k := 0;
    while k < |m.vals|
      invariant k <= |m.vals|
      invariant n + |EncodeFrom(ord, site, schema, m, k)| == |Encode(ord, site, schema, m)|
    {
      var l := SizeOfField(ord, site, schema.fields[k], m.vals[k]);
      n, k := n + l, k + 1;
    }
    n := n + |m.unknown|;
  }

  // ---- the size does not depend on the order of maps ---------------------------

  ghost function SumOver(f: Field, m: map<Bytes, Bytes>, ks: seq<Bytes>): nat
    requires forall k :: k in ks ==> k in m
  {
    if ks == [] then 0 else SizeOfDelimited(f, SizeOfEntry(ks[0], m[ks[0]])) + SumOver(f, m, ks[1..])
  }

  lemma {:induction false} EntriesLength(f: Field, m: map<Bytes, Bytes>, ks: seq<Bytes>)
    requires forall k :: k in ks ==> k in m
    ensures |EncodeEntries(f, m, ks)| == SumOver(f, m, ks)
  {
    if ks != [] {
      EntriesLength(f, m, ks[1..]);
      EntrySize(ks[0], m[ks[0]]);
      DelimitedSize(f, Entry(ks[0], m[ks[0]]));
    }
  }

  lemma {:induction false} SumWithout(f: Field, m: map<Bytes, Bytes>, ks: seq<Bytes>, x: nat)
    requires x < |ks| && forall k :: k in ks ==> k in m
    ensures SumOver(f, m, ks) ==
            SizeOfDelimited(f, SizeOfEntry(ks[x], m[ks[x]])) + SumOver(f, m, ks[..x] + ks[x + 1..])
    decreases x
  {
    var rest := ks[..x] + ks[x + 1..];
    if x == 0 {
      assert rest == ks[1..];
    } else {
      SumWithout(f, m, ks[1..], x - 1);
      assert ks[1..][..x - 1] + ks[1..][x..] == rest[1..];
    }
  }

  lemma RemoveAt(ks: seq<Bytes>, x: nat)
    requires x < |ks|
    ensures multiset(ks[..x] + ks[x + 1..]) == multiset(ks) - multiset{ks[x]}
  {
    assert ks == ks[..x] + [ks[x]] + ks[x + 1..];
  }

  lemma RemoveMatch(ks: seq<Bytes>, ls: seq<Bytes>) returns (x: nat)
    requires multiset(ks) == multiset(ls) && ks != []
    ensures x < |ls| && ls[x] == ks[0]
    ensures multiset(ks[1..]) == multiset(ls[..x] + ls[x + 1..])
  {
    assert ks[0] in multiset(ls);
    x :| 0 <= x < |ls| && ls[x] == ks[0];
    RemoveAt(ls, x);
    assert ks == [ks[0]] + ks[1..];
  }

  lemma {:induction false} SumIsOrderFree(f: Field, m: map<Bytes, Bytes>, ks: seq<Bytes>, ls: seq<Bytes>)
    requires forall k :: k in ks ==> k in m
    requires forall k :: k in ls ==> k in m
    requires multiset(ks) == multiset(ls)
    ensures SumOver(f, m, ks) == SumOver(f, m, ls)
    decreases |ks|
  {
    hide SizeOfDelimited, SizeOfEntry;
    if ks == [] {
      assert |ls| == |multiset(ls)| == |multiset(ks)| == |ks|;
    } else {
      var x := RemoveMatch(ks, ls);
      SumIsOrderFree(f, m, ks[1..], ls[..x] + ls[x + 1..]);
      SumWithout(f, m, ls, x);
    }
  }

  lemma EnumerationsAgree(ks: seq<Bytes>, ls: seq<Bytes>, m: map<Bytes, Bytes>)
    requires Enumerates(ks, m) && Enumerates(ls, m)
    ensures multiset(ks) == multiset(ls)
  {
    forall k ensures multiset(ks)[k] == multiset(ls)[k] {
      DistinctCount(ks, k);
      DistinctCount(ls, k);
    }
  }

  lemma {:induction false} DistinctCount(ks: seq<Bytes>, k: Bytes)
    requires forall i, j :: 0 <= i < j < |ks| ==> ks[i] != ks[j]
    ensures multiset(ks)[k] == if k in ks then 1 else 0
  {
    if ks != [] {
      DistinctCount(ks[1..], k);
      assert ks == [ks[0]] + ks[1..];
    }
  }

  lemma MapLengthIsOrderFree(a: Order, b: Order, site: seq<nat>, f: Field, v: Value)
    requires ValidOrder(a) && ValidOrder(b) && f.kind.StringMap? && v.VMap?
    ensures |EncodeField(a, site, f, v)| == |EncodeField(b, site, f, v)|
  {
    hide EncodeEntries, SumOver;
    var ks, ls := a(site + [f.num], v.entries), b(site + [f.num], v.entries);
    assert Enumerates(ks, v.entries) && Enumerates(ls, v.entries);
    EnumerationsAgree(ks, ls, v.entries);
    SumIsOrderFree(f, v.entries, ks, ls);
    EntriesLength(f, v.entries, ks);
    EntriesLength(f, v.entries, ls);
  }

  /** SizeVT may range over a map in another order than the marshaller: the length is the same. */
  lemma {:induction false} LengthIsOrderFree(a: Order, b: Order, site: seq<nat>, schema: Schema, m: Msg, k: nat)
    requires ValidOrder(a) && ValidOrder(b) && WellTyped(schema, m) && k <= |m.vals|
    ensures |EncodeFrom(a, site, schema, m, k)| == |EncodeFrom(b, site, schema, m, k)|
    decreases m, |m.vals| - k
  {
    hide Delimited, ScalarBytes, PackedBytes, EncodeEntries;
    if k < |m.vals| {
      var f, v := schema.fields[k], m.vals[k];
      assert Fits(f.kind, v);
      if f.kind.StringMap? {
        MapLengthIsOrderFree(a, b, site, f, v);
      } else if f.kind.Message? && v.msg.Some? {
        var inner := site + [f.num];
        LengthIsOrderFree(a, b, inner, f.kind.sub, v.msg.value, 0);
        DelimitedSize(f, Encode(a, inner, f.kind.sub, v.msg.value));
        DelimitedSize(f, Encode(b, inner, f.kind.sub, v.msg.value));
      }
      LengthIsOrderFree(a, b, site, schema, m, k + 1);
    }
  }

  // ---- MarshalToSizedBufferVT --------------------------------------------------

  /** `i -= len(w); copy(dAtA[i:], w)` */
  method PutBytes(buf: array<byte>, hi: nat, w: Bytes) returns (i: nat)
    requires |w| <= hi <= buf.Length
    modifies buf
    ensures i == hi - |w|
    ensures buf[..] == Splice(old(buf[..]), hi, w)
  {
    i := hi - |w|;
    forall x | 0 <= x < |w| {
      buf[i + x] := w[x];
    }
  }

  /** The length prefix and tag in front of a payload of `n` bytes that is already in place. */
  method PutHeader(buf: array<byte>, hi: nat, tag: Bytes, n: nat) returns (i: nat)
    requires n < TWO64 && |tag| + |VarintBytes(n)| <= hi <= buf.Length
    modifies buf
    ensures i == hi - |tag + VarintBytes(n)|
    ensures buf[..] == Splice(old(buf[..]), hi, tag + VarintBytes(n))
  {
    hide VarintBytes, Splice;
    ghost var was := buf[..];
    SizeOfVarintIsLength(n);
    i := EncodeVarint(buf, hi, n);
    i := PutBytes(buf, i, tag);
    SpliceSplice(was, hi, tag, VarintBytes(n));
  }

  /** A length-delimited piece: payload, then length, then tag, all backwards. */
  method PutDelimited(buf: array<byte>, hi: nat, tag: Bytes, payload: Bytes) returns (i: nat)
    requires |payload| < TWO64 && |tag + VarintBytes(|payload|) + payload| <= hi <= buf.Length
    modifies buf
    ensures i == hi - |tag + VarintBytes(|payload|) + payload|
    ensures buf[..] == Splice(old(buf[..]), hi, tag + VarintBytes(|payload|) + payload)
  {
    hide VarintBytes, Splice;
    ghost var was := buf[..];
    i := PutBytes(buf, hi, payload);
    i := PutHeader(buf, i, tag, |payload|);
    SpliceSplice(was, hi, tag + VarintBytes(|payload|), payload);
  }

  method PutEntry(buf: array<byte>, hi: nat, f: Field, k: Bytes, v: Bytes) returns (i: nat)
    requires buf.Length < TWO63 && |Delimited(f, Entry(k, v))| <= hi <= buf.Length
    modifies buf
    ensures i == hi - |Delimited(f, Entry(k, v))|
    ensures buf[..] == Splice(old(buf[..]), hi, Delimited(f, Entry(k, v)))
  {
    hide VarintBytes, Splice, Tag;
    ghost var was := buf[..];
    var baseI := hi;
    i := PutDelimited(buf, hi, [0x12], v);
    i := PutDelimited(buf, i, [0x0a], k);
    SpliceSplice(was, hi, KeyPart(k), ValuePart(v));
    i := PutHeader(buf, i, Tag(f), baseI - i);
    SpliceSplice(was, hi, Tag(f) + VarintBytes(|Entry(k, v)|), Entry(k, v));
  }

  lemma {:induction false} EntriesPrefix(f: Field, m: map<Bytes, Bytes>, ks: seq<Bytes>, x: nat)
    requires x < |ks| && forall k :: k in ks ==> k in m
    ensures EncodeEntries(f, m, ks[..x + 1]) ==
            Delimited(f, Entry(ks[x], m[ks[x]])) + EncodeEntries(f, m, ks[..x])
    decreases x
  {
    hide Delimited, Entry;
    if x == 0 {
      assert ks[..1][1..] == [] && ks[..0] == [];
    } else {
      EntriesPrefix(f, m, ks[1..], x - 1);
      assert ks[..x + 1][1..] == ks[1..][..x] && ks[..x][1..] == ks[1..][..x - 1];
    }
  }

  lemma {:induction false} EntriesPrefixLength(f: Field, m: map<Bytes, Bytes>, ks: seq<Bytes>, x: nat)
    requires x <= |ks| && forall k :: k in ks ==> k in m
    ensures |EncodeEntries(f, m, ks[..x])| <= |EncodeEntries(f, m, ks)|
    decreases |ks| - x
  {
    hide Delimited, Entry, EncodeEntries;
    if x == |ks| {
      assert ks[..x] == ks;
    } else {
      EntriesPrefix(f, m, ks, x);
      EntriesPrefixLength(f, m, ks, x + 1);
    }
  }

  method PutEntries(buf: array<byte>, hi: nat, f: Field, m: map<Bytes, Bytes>, ks: seq<Bytes>) returns (i: nat)
    requires forall k :: k in ks ==> k in m
    requires buf.Length < TWO63 && |EncodeEntries(f, m, ks)| <= hi <= buf.Length
    modifies buf
    ensures i == hi - |EncodeEntries(f, m, ks)|
    ensures buf[..] == Splice(old(buf[..]), hi, EncodeEntries(f, m, ks))
  {
    hide Splice, Delimited, Entry;
    ghost var was := buf[..];
    SpliceNothing(was, hi);
    i := hi;
    var x := 0;
    while x < |ks|
      invariant x <= |ks|
      invariant |EncodeEntries(f, m, ks[..x])| <= hi && i == hi - |EncodeEntries(f, m, ks[..x])|
      invariant buf[..] == Splice(was, hi, EncodeEntries(f, m, ks[..x]))
    {
      hide EncodeEntries;
      EntriesPrefix(f, m, ks, x);
      EntriesPrefixLength(f, m, ks, x + 1);
      ghost var done := EncodeEntries(f, m, ks[..x]);
      i := PutEntry(buf, i, f, ks[x], m[ks[x]]);
      SpliceSplice(was, hi, Delimited(f, Entry(ks[x], m[ks[x]])), done);
      x := x + 1;
    }
    assert ks[..x] == ks;
  }

  /** Forward writing: each element lands right behind the previous one. */
  lemma SpliceForward(s: Bytes, lo: nat, a: Bytes, b: Bytes)
    requires lo + |a| + |b| <= |s|
    ensures Splice(Splice(s, lo + |a|, a), lo + |a| + |b|, b) == Splice(s, lo + |a| + |b|, a + b)
  {
  }

  /** The packed field: the elements go forwards into the `pksize` bytes reserved for them. */
  method PutPacked(buf: array<byte>, hi: nat, s: seq<int>) returns (i: nat)
    requires forall x :: 0 <= x < |s| ==> IsInt64(s[x])
    requires |PackedBytes(s)| <= hi <= buf.Length
    modifies buf
    ensures i == hi - |PackedBytes(s)|
    ensures buf[..] == Splice(old(buf[..]), hi, PackedBytes(s))
  {
    hide Splice;
    ghost var was := buf[..];
    var pksize := SizeOfPacked(s);
    i := hi - pksize;
    var j, x := i, 0;
    ghost var done: Bytes := [];
    SpliceNothing(was, i);
    while x < |s|
      invariant x <= |s|
      invariant done + PackedBytes(s[x..]) == PackedBytes(s)
      invariant j == i + |done|
      invariant buf[..] == Splice(was, j, done)
    {
      hide PackedBytes;
      PackedTail(s, x);
      assert IsInt64(s[x]);
      SizeOfVarintIsLength(ToUint64(s[x]));
      assert done + PackedBytes(s[x..]) == (done + Int64Bytes(s[x])) + PackedBytes(s[x + 1..]);
      SpliceForward(was, i, done, Int64Bytes(s[x]));
      j := PutVarint(buf, j, ToUint64(s[x]));
      x, done := x + 1, done + Int64Bytes(s[x]);
    }
    assert done == PackedBytes(s);
  }

  method PutScalar(buf: array<byte>, hi: nat, rep: Rep, n: int) returns (i: nat)
    requires InRange(rep, n) && |ScalarBytes(rep, n)| <= hi <= buf.Length
    modifies buf
    ensures i == hi - |ScalarBytes(rep, n)|
    ensures buf[..] == Splice(old(buf[..]), hi, ScalarBytes(rep, n))
  {
    hide Splice, VarintBytes, LittleEndian;
    var raw := ToWire(rep, n);
    match WireTypeOf(Scalar(rep)) {
      case 5 => i := PutBytes(buf, hi, LittleEndian(raw, 4));
      case 1 => i := PutBytes(buf, hi, LittleEndian(raw, 8));
      case _ =>
        SizeOfVarintIsLength(raw);
        i := EncodeVarint(buf, hi, raw);
    }
  }

  method PutField(ord: Order, site: seq<nat>, f: Field, v: Value, buf: array<byte>, hi: nat) returns (i: nat)
    requires ValidOrder(ord) && Fits(f.kind, v)
    requires buf.Length < TWO63 && |EncodeField(ord, site, f, v)| <= hi <= buf.Length
    modifies buf
    ensures i == hi - |EncodeField(ord, site, f, v)|
    ensures buf[..] == Splice(old(buf[..]), hi, EncodeField(ord, site, f, v))
    decreases v, 0
  {
    hide Splice, VarintBytes, Tag, ScalarBytes, PackedBytes, EncodeEntries, Encode;
    ghost var was := buf[..];
    i := hi;
    SpliceNothing(was, hi);
    match f.kind {
      case Scalar(rep) =>
        if !IsZero(rep, v.n) {
          i := PutScalar(buf, hi, rep, v.n);
          i := PutBytes(buf, i, Tag(f));
          SpliceSplice(was, hi, Tag(f), ScalarBytes(rep, v.n));
        }
      case Blob =>
        if |v.b| > 0 {
          i := PutDelimited(buf, hi, Tag(f), v.b);
        }
      case OptionalBlob =>
        if v.o.Some? {
          i := PutDelimited(buf, hi, Tag(f), v.o.value);
        }
      case Message(sub) =>
        if v.msg.Some? {
          ghost var inner := Encode(ord, site + [f.num], sub, v.msg.value);
          var size := MarshalToSizedBuffer(ord, site + [f.num], sub, v.msg.value, buf, hi);
          i := PutHeader(buf, hi - size, Tag(f), size);
          SpliceSplice(was, hi, Tag(f) + VarintBytes(size), inner);
        }
      case StringMap =>
        assert Enumerates(ord(site + [f.num], v.entries), v.entries);
        i := PutEntries(buf, hi, f, v.entries, ord(site + [f.num], v.entries));
      case PackedInt64 =>
        if |v.s| > 0 {
          i := PutPacked(buf, hi, v.s);
          i := PutHeader(buf, i, Tag(f), hi - i);
          SpliceSplice(was, hi, Tag(f) + VarintBytes(|PackedBytes(v.s)|), PackedBytes(v.s));
        }
    }
  }

  /**
   MarshalToSizedBufferVT over `dAtA[:hi]`: returns how many bytes it wrote, leaves the
   encoding just below `hi` and nothing else changed.
   */
  method MarshalToSizedBuffer(ord: Order, site: seq<nat>, schema: Schema, m: Msg, buf: array<byte>, hi: nat)
    returns (n: nat)
    requires ValidOrder(ord) && WellTyped(schema, m)
    requires buf.Length < TWO63 && |Encode(ord, site, schema, m)| <= hi <= buf.Length
    modifies buf
    ensures n == |Encode(ord, site, schema, m)|
    ensures buf[..] == Splice(old(buf[..]), hi, Encode(ord, site, schema, m))
    decreases m, 1
  {
    hide Splice, EncodeField;
    ghost var was := buf[..];
    FromIsShorter(ord, site, schema, m, |m.vals|);
    var i := PutBytes(buf, hi, m.unknown);
    var k := |m.vals|;
    while k > 0
      invariant 0 <= k <= |m.vals|
      invariant |EncodeFrom(ord, site, schema, m, k)| <= hi
      invariant i == hi - |EncodeFrom(ord, site, schema, m, k)|
      invariant buf[..] == Splice(was, hi, EncodeFrom(ord, site, schema, m, k))
    {
      k := k - 1;
      FromIsShorter(ord, site, schema, m, k);
      ghost var enc := EncodeField(ord, site, schema.fields[k], m.vals[k]);
      ghost var rest := EncodeFrom(ord, site, schema, m, k + 1);
      i := PutField(ord, site, schema.fields[k], m.vals[k], buf, i);
      SpliceSplice(was, hi, enc, rest);
    }
    n := hi - i;
  }

  lemma {:induction false} FromIsShorter(ord: Order, site: seq<nat>, schema: Schema, m: Msg, k: nat)
    requires ValidOrder(ord) && WellTyped(schema, m) && k <= |m.vals|
    ensures |EncodeFrom(ord, site, schema, m, k)| <= |Encode(ord, site, schema, m)|
    decreases k
  {
    hide EncodeField;
    if k > 0 {
      FromIsShorter(ord, site, schema, m, k - 1);
    }
  }

  // ---- UnmarshalVT -------------------------------------------------------------

  method ReadLengthPrefix(data: Bytes, j: nat) returns (r: Result<(nat, nat)>)
    ensures r == ReadLength(data, j)
  {
    hide ReadVarint;
    var v := DecodeVarint(data, j);
    if v.Err? {
      return Err(v.error);
    }
    var (n, s) := v.value;
    if n >= TWO63 {
      return Err(InvalidLength);
    }
    var postIndex := s + n;
    if postIndex >= TWO63 {
      return Err(InvalidLength);
    }
    if postIndex > |data| {
      return Err(UnexpectedEOF);
    }
    return Ok((s, postIndex));
  }

  /** The inner loop of a map field. */
  method ReadMapEntry(skip: Skipper, data: Bytes, start: nat, post: nat) returns (r: Result<(nat, Bytes, Bytes)>)
    requires start <= |data| && post <= |data|
    ensures r == ReadEntry(skip, data, start, post, [], [])
  {
    hide ReadVarint, ReadLength, SkipFrom;
    var i, key, val: Bytes := start, [], [];
    while i < post
      invariant start <= i <= |data|
      invariant ReadEntry(skip, data, start, post, [], []) == ReadEntry(skip, data, i, post, key, val)
      decreases |data| - i
    {
      var w := DecodeVarint(data, i);
      if w.Err? {
        return Err(w.error);
      }
      var (wire, j) := w.value;
      var num := ToInt32(wire / 8);
      if num == 1 || num == 2 {
        var span := ReadLengthPrefix(data, j);
        if span.Err? {
          return Err(span.error);
        }
        var (s, e) := span.value;
        if num == 1 {
          key := data[s..e];
        } else {
          val := data[s..e];
        }
        i := e;
      } else {
        var e := SkipFrom(skip, data, i, post);
        if e.Err? {
          return Err(e.error);
        }
        i := e.value;
      }
    }
    return Ok((i, key, val));
  }

  method ReadPackedField(data: Bytes, start: nat, post: nat, was: seq<int>) returns (r: Result<(nat, seq<int>)>)
    requires start <= |data| && post <= |data|
    ensures r == ReadPacked(data, start, post, was)
  {
    hide ReadVarint;
    var i, nums := start, was;
    while i < post
      invariant start <= i <= |data|
      invariant ReadPacked(data, start, post, was) == ReadPacked(data, i, post, nums)
      decreases |data| - i
    {
      var v := DecodeVarint(data, i);
      if v.Err? {
        return Err(v.error);
      }
      nums, i := nums + [ToInt64(v.value.0)], v.value.1;
    }
    return Ok((i, nums));
  }

  method ReadFieldValue(skip: Skipper, kind: Kind, was: Value, wt: nat, data: Bytes, j: nat)
    returns (r: Result<(Value, nat)>)
    requires j <= |data|
    ensures r == ReadValue(skip, kind, was, wt, data, j)
    decreases kind
  {
    hide ReadVarint, ReadLength, ReadScalar, ReadEntry, ReadPacked, DecodeFrom;
    if kind.PackedInt64? && wt == 0 {
      var v := DecodeVarint(data, j);
      return if v.Err? then Err(v.error) else Ok((VNums(SamplesOf(was) + [ToInt64(v.value.0)]), v.value.1));
    }
    if wt != WireTypeOf(kind) {
      return Err(WrongWireType);
    }
    if kind.Scalar? {
      var v := ReadScalar(kind.rep, data, j);
      return if v.Err? then Err(v.error) else Ok((VNum(v.value.0), v.value.1));
    }
    var span := ReadLengthPrefix(data, j);
    if span.Err? {
      return Err(span.error);
    }
    var (s, e) := span.value;
    match kind {
      case Blob => return Ok((VBlob(data[s..e]), e));
      case OptionalBlob => return Ok((VOptional(Some(data[s..e])), e));
      case Message(sub) =>
        var m := UnmarshalVT(skip, sub, MessageOf(sub, was), data[s..e]);
        return if m.Err? then Err(m.error) else Ok((VMessage(Some(m.value)), e));
      case StringMap =>
        var entry := ReadMapEntry(skip, data, s, e);
        return if entry.Err? then Err(entry.error)
          else Ok((VMap(EntriesOf(was)[entry.value.1 := entry.value.2]), e));
      case PackedInt64 =>
        var nums := ReadPackedField(data, s, e, SamplesOf(was));
        return if nums.Err? then Err(nums.error) else Ok((VNums(nums.value.1), nums.value.0));
    }
  }

  method UnmarshalVT(skip: Skipper, schema: Schema, into: Msg, data: Bytes) returns (r: Result<Msg>)
    requires |into.vals| == |schema.fields|
    ensures r == DecodeFrom(skip, schema, into, data, 0)
    decreases schema
  {
    hide ReadVarint, ReadValue, Find, SkipFrom;
    var i, m := 0, into;
    while i < |data|
      invariant 0 <= i <= |data| && |m.vals| == |schema.fields|
      invariant DecodeFrom(skip, schema, into, data, 0) == DecodeFrom(skip, schema, m, data, i)
      decreases |data| - i
    {
      var w := DecodeVarint(data, i);
      if w.Err? {
        return Err(w.error);
      }
      var (wire, j) := w.value;
      var num, wt := ToInt32(wire / 8), wire % 8;
      if wt == 4 {
        return Err(EndGroup);
      }
      if num <= 0 {
        return Err(IllegalTag);
      }
      var k := Find(schema.fields, num, 0);
      if k < |schema.fields| {
        var v := ReadFieldValue(skip, schema.fields[k].kind, m.vals[k], wt, data, j);
        if v.Err? {
          return Err(v.error);
        }
        m, i := m.(vals := m.vals[k := v.value.0]), v.value.1;
      } else {
        var e := SkipFrom(skip, data, i, |data|);
        if e.Err? {
          return Err(e.error);
        }
        m, i := m.(unknown := m.unknown + data[i..e.value]), e.value;
      }
    }
    return Ok(m);
  }

  // ---- vtCodec.MarshalAppend ---------------------------------------------------

  /** A Go slice that starts at the beginning of its backing array; the capacity is `data.Length`. */
  datatype Slice = Slice(data: array<byte>, len: nat)

  /**
   The result is the old contents followed by the encoding. The backing array is kept
   exactly when the spare capacity suffices; bytes beyond the result are never touched.
   `sizing` and `writing` are the two passes' map orders.
   */
  method MarshalAppend(sizing: Order, writing: Order, dst: Slice, schema: Schema, m: Msg) returns (out: Slice)
    requires ValidOrder(sizing) && ValidOrder(writing) && WellTyped(schema, m)
    requires dst.len <= dst.data.Length < TWO63
    requires dst.len + |Encode(writing, [], schema, m)| < TWO63
    modifies dst.data
    ensures out.len == dst.len + |Encode(writing, [], schema, m)| <= out.data.Length
    ensures out.data[..out.len] == old(dst.data[..dst.len]) + Encode(writing, [], schema, m)
    ensures if dst.data.Length - dst.len >= |Encode(writing, [], schema, m)|
            then out.data == dst.data && dst.data[out.len..] == old(dst.data[out.len..])
            else fresh(out.data) && out.data.Length == out.len && dst.data[..] == old(dst.data[..])
  {
    hide Encode;
    var size := SizeVT(sizing, [], schema, m);
    assert size == |Encode(writing, [], schema, m)| by {
      LengthIsOrderFree(sizing, writing, [], schema, m, 0);
      EncodeIsFrom(sizing, [], schema, m);
      EncodeIsFrom(writing, [], schema, m);
    }
    var start := dst.len;
    if dst.data.Length - start < size {
      var grown := new byte[start + size](_ => 0);
      forall x | 0 <= x < start {
        grown[x] := dst.data[x];
      }
      assert grown[..start] == dst.data[..start];
      out := Slice(grown, start + size);
    } else {
      out := Slice(dst.data, start + size);
    }
    var _ := MarshalToSizedBuffer(writing, [], schema, m, out.data, start + size);
  }

  lemma EncodeIsFrom(ord: Order, site: seq<nat>, schema: Schema, m: Msg)
    requires ValidOrder(ord) && WellTyped(schema, m)
    ensures Encode(ord, site, schema, m) == EncodeFrom(ord, site, schema, m, 0)
  {
  }
}
