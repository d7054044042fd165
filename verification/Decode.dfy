/**
 UnmarshalVT: a cursor over arbitrary bytes. Decoding merges into an accumulator, so a
 field seen twice overwrites (or, for maps, samples and sub-messages, extends) the first.
 */
module Decode {
  import opened Wrappers
  import opened Wire
  import opened Encoding

  /** protohelpers.Skip, which is not part of the repository: on success it makes progress. */
  type Skipper = f: Bytes -> Result<int> | forall b :: f(b).Ok? ==> f(b).value >= 1
    witness (b: Bytes) => Err(SkipFailed)

  /** A length prefix at `j`: where the payload starts and ends, overflow checks included. */
  function ReadLength(data: Bytes, j: nat): (r: Result<(nat, nat)>)
    ensures r.Ok? ==> j < r.value.0 <= r.value.1 <= |data|
  {
    var (n, s) :- ReadVarint(data, j);
    if n >= TWO63 || s + n >= TWO63 then Err(InvalidLength)
    else if s + n > |data| then Err(UnexpectedEOF)
    else Ok((s, s + n))
  }

  /** An unknown field at `pre`, skipped within `limit`. */
  function SkipFrom(skip: Skipper, data: Bytes, pre: nat, limit: nat): (r: Result<nat>)
    requires pre <= limit <= |data|
    ensures r.Ok? ==> pre < r.value <= limit
  {
    var n :- skip(data[pre..]);
    if pre + n >= TWO63 then Err(InvalidLength)
    else if pre + n > limit then Err(UnexpectedEOF)
    else Ok(pre + n)
  }

  /**
   One map entry between `i` and `post`. Keys and values are checked against the end of
   the whole input, not of the entry, so the cursor may leave the entry; it stays in range.
   The result is the cursor at which the entry loop stops, with the key and value it found.
   */
  function ReadEntry(skip: Skipper, data: Bytes, i: nat, post: nat, key: Bytes, val: Bytes)
    : (r: Result<(nat, Bytes, Bytes)>)
    requires i <= |data| && post <= |data|
    ensures r.Ok? ==> i <= r.value.0 <= |data| && post <= r.value.0
    decreases |data| - i
  {
    if i >= post then Ok((i, key, val))
    else
      var (wire, j) :- ReadVarint(data, i);
      var num := ToInt32(wire / 8);
      if num == 1 then
        var (s, e) :- ReadLength(data, j);
        ReadEntry(skip, data, e, post, data[s..e], val)
      else if num == 2 then
        var (s, e) :- ReadLength(data, j);
        ReadEntry(skip, data, e, post, key, data[s..e])
      else
        var e :- SkipFrom(skip, data, i, post);
        ReadEntry(skip, data, e, post, key, val)
  }

  /** Packed elements until the cursor passes `post`; the last one may run beyond it. */
  function ReadPacked(data: Bytes, i: nat, post: nat, acc: seq<int>): (r: Result<(nat, seq<int>)>)
    requires i <= |data| && post <= |data|
    ensures r.Ok? ==> i <= r.value.0 <= |data|
    decreases |data| - i
  {
    if i >= post then Ok((i, acc))
    else
      var (raw, j) :- ReadVarint(data, i);
      ReadPacked(data, j, post, acc + [ToInt64(raw)])
  }

  function ReadScalar(rep: Rep, data: Bytes, j: nat): (r: Result<(int, nat)>)
    requires j <= |data|
    ensures r.Ok? ==> j < r.value.1 <= |data| && InRange(rep, r.value.0)
  {
    match WireTypeOf(Scalar(rep))
    case 5 => ReadFixed(rep, data, j, 4)
    case 1 => ReadFixed(rep, data, j, 8)
    case _ =>
      var (raw, e) :- ReadVarint(data, j);
      Ok((FromWire(rep, raw), e))
  }

  function ReadFixed(rep: Rep, data: Bytes, j: nat, width: nat): (r: Result<(int, nat)>)
    requires j <= |data| && (width == 4 || width == 8)
    ensures r.Ok? ==> j < r.value.1 <= |data| && InRange(rep, r.value.0)
  {
    if j + width > |data| then Err(UnexpectedEOF)
    else
      FixedWidthBounds();
      ReadLittleEndianBound(data, j, width);
      Ok((FromWire(rep, ReadLittleEndian(data, j, width)), j + width))
  }

  /** The body of one `case` of the switch, after the tag. */
  function ReadValue(skip: Skipper, kind: Kind, was: Value, wt: nat, data: Bytes, j: nat): (r: Result<(Value, nat)>)
    requires j <= |data|
    ensures r.Ok? ==> j <= r.value.1 <= |data|
    decreases kind
  {
    if kind.PackedInt64? && wt == 0 then
      var (raw, e) :- ReadVarint(data, j);
      Ok((VNums(SamplesOf(was) + [ToInt64(raw)]), e))
    else if wt != WireTypeOf(kind) then Err(WrongWireType)
    else
      match kind
      case Scalar(rep) =>
        var (n, e) :- ReadScalar(rep, data, j);
        Ok((VNum(n), e))
      case Blob =>
        var (s, e) :- ReadLength(data, j);
        Ok((VBlob(data[s..e]), e))
      case OptionalBlob =>
        var (s, e) :- ReadLength(data, j);
        Ok((VOptional(Some(data[s..e])), e))
      case Message(sub) =>
        var (s, e) :- ReadLength(data, j);
        var m :- DecodeFrom(skip, sub, MessageOf(sub, was), data[s..e], 0);
        Ok((VMessage(Some(m)), e))
      case StringMap =>
        var (s, e) :- ReadLength(data, j);
        var (_, key, val) :- ReadEntry(skip, data, s, e, [], []);
        Ok((VMap(EntriesOf(was)[key := val]), e))
      case PackedInt64 =>
        var (s, e) :- ReadLength(data, j);
        var (stop, nums) :- ReadPacked(data, s, e, SamplesOf(was));
        Ok((VNums(nums), stop))
  }

  function SamplesOf(v: Value): seq<int> {
    if v.VNums? then v.s else []
  }

  function EntriesOf(v: Value): map<Bytes, Bytes> {
    if v.VMap? then v.entries else map[]
  }

  function MessageOf(sub: Schema, v: Value): Msg {
    if v.VMessage? && v.msg.Some? && |v.msg.value.vals| == |sub.fields| then v.msg.value else Fresh(sub)
  }

  /** The position of field `num` from `k` on, or the number of fields when it is not listed. */
  function Find(fields: seq<Field>, num: int, k: nat): (r: nat)
    requires k <= |fields|
    ensures k <= r <= |fields|
    ensures r < |fields| ==> fields[r].num == num
    decreases |fields| - k
  {
    if k == |fields| || fields[k].num == num then k else Find(fields, num, k + 1)
  }

  /** One turn of the field loop: the cursor strictly advances and stays in range. */
  function Step(skip: Skipper, schema: Schema, acc: Msg, data: Bytes, i: nat): (r: Result<(Msg, nat)>)
    requires i < |data| && |acc.vals| == |schema.fields|
    ensures r.Ok? ==> i < r.value.1 <= |data| && |r.value.0.vals| == |schema.fields|
    decreases schema, |data| - i, 0
  {
    var (wire, j) :- ReadVarint(data, i);
    var num, wt := ToInt32(wire / 8), wire % 8;
    if wt == 4 then Err(EndGroup)
    else if num <= 0 then Err(IllegalTag)
    else
      var k := Find(schema.fields, num, 0);
      if k < |schema.fields| then
        var (v, e) :- ReadValue(skip, schema.fields[k].kind, acc.vals[k], wt, data, j);
        Ok((acc.(vals := acc.vals[k := v]), e))
      else
        var e :- SkipFrom(skip, data, i, |data|);
        Ok((acc.(unknown := acc.unknown + data[i..e]), e))
  }

  function DecodeFrom(skip: Skipper, schema: Schema, acc: Msg, data: Bytes, i: nat): (r: Result<Msg>)
    requires i <= |data| && |acc.vals| == |schema.fields|
    ensures r.Ok? ==> |r.value.vals| == |schema.fields|
    decreases schema, |data| - i, 1
  {
    if i == |data| then Ok(acc)
    else
      var (acc', j) :- Step(skip, schema, acc, data, i);
      DecodeFrom(skip, schema, acc', data, j)
  }

  /** A length prefix is taken exactly when it fits the input; too large for an int is told from too short an input. */
  lemma LengthMeans(data: Bytes, j: nat)
    ensures match ReadVarint(data, j)
      case Err(e) => ReadLength(data, j) == Err(e)
      case Ok((n, s)) =>
        if n + s >= TWO63 then ReadLength(data, j) == Err(InvalidLength)
        else if n + s > |data| then ReadLength(data, j) == Err(UnexpectedEOF)
        else ReadLength(data, j) == Ok((s, s + n))
  {
    hide ReadVarint;
  }

  /** A skipped field ends where the skipper says, if that is within the limit. */
  lemma SkipMeans(skip: Skipper, data: Bytes, pre: nat, limit: nat)
    requires pre <= limit <= |data|
    ensures match skip(data[pre..])
      case Err(e) => SkipFrom(skip, data, pre, limit) == Err(e)
      case Ok(n) =>
        if pre + n >= TWO63 then SkipFrom(skip, data, pre, limit) == Err(InvalidLength)
        else if pre + n > limit then SkipFrom(skip, data, pre, limit) == Err(UnexpectedEOF)
        else SkipFrom(skip, data, pre, limit) == Ok(pre + n)
  {
  }

  /** A sample that arrives unpacked is appended like a packed one. */
  lemma UnpackedSampleIsAppended(skip: Skipper, was: seq<int>, data: Bytes, j: nat)
    requires j <= |data|
    ensures match ReadVarint(data, j)
      case Err(e) => ReadValue(skip, PackedInt64, VNums(was), 0, data, j) == Err(e)
      case Ok((raw, e)) => ReadValue(skip, PackedInt64, VNums(was), 0, data, j) == Ok((VNums(was + [ToInt64(raw)]), e))
  {
    hide ReadVarint;
  }

  /** Field `k` may arrive with this wire type: its own, or unpacked samples. */
  predicate Accepts(kind: Kind, wt: nat) {
    wt == WireTypeOf(kind) || (kind.PackedInt64? && wt == 0)
  }

  /**
   What one turn of the field loop does with its tag: end-group and non-positive field numbers are
   rejected; a known field of the wrong wire type too; a known field changes itself alone; an
   unknown one is kept byte for byte and changes nothing else.
   */
  lemma StepMeans(skip: Skipper, schema: Schema, acc: Msg, data: Bytes, i: nat, wire: uint64, j: nat)
    requires i < |data| && |acc.vals| == |schema.fields| && ReadVarint(data, i) == Ok((wire, j))
    ensures var r, num, wt := Step(skip, schema, acc, data, i), ToInt32(wire / 8), wire % 8;
      var k := Find(schema.fields, num, 0);
      if wt == 4 then r == Err(EndGroup)
      else if num <= 0 then r == Err(IllegalTag)
      else if k == |schema.fields| then
        (forall x :: 0 <= x < |schema.fields| ==> schema.fields[x].num != num) &&
        (r.Ok? ==> r.value.0.vals == acc.vals && r.value.0.unknown == acc.unknown + data[i..r.value.1])
      else
        schema.fields[k].num == num &&
        (!Accepts(schema.fields[k].kind, wt) ==> r == Err(WrongWireType)) &&
        (r.Ok? ==> r.value.0.unknown == acc.unknown &&
                   forall x :: 0 <= x < |acc.vals| && x != k ==> r.value.0.vals[x] == acc.vals[x])
  {
    hide ReadVarint, ReadLength, ReadScalar, ReadEntry, ReadPacked, ToInt32, DecodeFrom;
    FindMisses(schema.fields, ToInt32(wire / 8), 0);
  }

  lemma {:induction false} FindMisses(fields: seq<Field>, num: int, k: nat)
    requires k <= |fields|
    ensures forall x :: k <= x < Find(fields, num, k) ==> fields[x].num != num
    decreases |fields| - k
  {
    if k < |fields| && fields[k].num != num {
      FindMisses(fields, num, k + 1);
    }
  }

  lemma {:induction false} PackedStaysInt64(data: Bytes, i: nat, post: nat, acc: seq<int>)
    requires i <= |data| && post <= |data| && forall x :: 0 <= x < |acc| ==> IsInt64(acc[x])
    ensures var r := ReadPacked(data, i, post, acc);
      r.Ok? ==> forall x :: 0 <= x < |r.value.1| ==> IsInt64(r.value.1[x])
    decreases |data| - i
  {
    if i < post && ReadVarint(data, i).Ok? {
      var (raw, j) := ReadVarint(data, i).value;
      PackedStaysInt64(data, j, post, acc + [ToInt64(raw)]);
    }
  }

  lemma {:induction false} ValueKeepsType(skip: Skipper, kind: Kind, was: Value, wt: nat, data: Bytes, j: nat)
    requires j <= |data| && Fits(kind, was)
    ensures var r := ReadValue(skip, kind, was, wt, data, j); r.Ok? ==> Fits(kind, r.value.0)
    decreases kind
  {
    hide ReadVarint, ReadEntry, ReadPacked, DecodeFrom;
    if kind.PackedInt64? {
      var span := ReadLength(data, j);
      if span.Ok? {
        PackedStaysInt64(data, span.value.0, span.value.1, was.s);
      }
    } else if kind.Message? {
      var span := ReadLength(data, j);
      if span.Ok? {
        DecodeKeepsTypes(skip, kind.sub, MessageOf(kind.sub, was), data[span.value.0..span.value.1], 0);
      }
    }
  }

  /** Whatever the input bytes, a successful decode leaves every field in its declared range. */
  lemma {:induction false} DecodeKeepsTypes(skip: Skipper, schema: Schema, acc: Msg, data: Bytes, i: nat)
    requires i <= |data| && WellTyped(schema, acc)
    ensures var r := DecodeFrom(skip, schema, acc, data, i); r.Ok? ==> WellTyped(schema, r.value)
    decreases schema, |data| - i
  {
    hide ReadVarint, ReadValue, SkipFrom, Find, ToInt32;
    if i < |data| && Step(skip, schema, acc, data, i).Ok? {
      var (acc', j) := Step(skip, schema, acc, data, i).value;
      var (wire, t) := ReadVarint(data, i).value;
      var k := Find(schema.fields, ToInt32(wire / 8), 0);
      if k < |schema.fields| {
        ValueKeepsType(skip, schema.fields[k].kind, acc.vals[k], wire % 8, data, t);
      }
      DecodeKeepsTypes(skip, schema, acc', data, j);
    }
  }

  // ---- where the inner loops stop ------------------------------------------------

  lemma VarintEnds(data: Bytes, i: nat)
    requires i <= |data|
    ensures var r := ReadVarint(data, i);
      r.Ok? ==> i < r.value.1 <= |data| && data[r.value.1 - 1] < 0x80 &&
                forall x :: i <= x < r.value.1 - 1 ==> data[x] >= 0x80
  {
    hide RawVarint, Denotes;
    RawVarintMeans(data, i, 0);
  }

  /** The packed loop stops exactly at the end of its field if and only if the last byte there ends a varint. */
  lemma {:induction false} PackedStopsExactly(data: Bytes, i: nat, post: nat, acc: seq<int>)
    requires i < post <= |data|
    ensures var r := ReadPacked(data, i, post, acc); r.Ok? ==> (r.value.0 == post <==> data[post - 1] < 0x80)
    decreases |data| - i
  {
    hide ReadVarint;
    VarintEnds(data, i);
    if ReadVarint(data, i).Ok? {
      var (raw, j) := ReadVarint(data, i).value;
      if j < post {
        PackedStopsExactly(data, j, post, acc + [ToInt64(raw)]);
      }
    }
  }

  /** So for a whole samples field: the cursor ends at the field's end, or beyond it on a cut-off varint. */
  lemma PackedFieldStopsExactly(skip: Skipper, was: Value, data: Bytes, j: nat)
    requires j <= |data|
    ensures var r, span := ReadValue(skip, PackedInt64, was, 2, data, j), ReadLength(data, j);
      r.Ok? ==>
        span.Ok? && (r.value.1 == span.value.1 <==> span.value.0 == span.value.1 || data[span.value.1 - 1] < 0x80)
  {
    hide ReadPacked;
    var span := ReadLength(data, j);
    if span.Ok? {
      var (s, e) := span.value;
      if s < e {
        PackedStopsExactly(data, s, e, SamplesOf(was));
      } else {
        NothingPacked(data, s, SamplesOf(was));
      }
    }
  }

  lemma NothingPacked(data: Bytes, i: nat, acc: seq<int>)
    requires i <= |data|
    ensures ReadPacked(data, i, i, acc) == Ok((i, acc))
  {
  }

  /** A samples field of one byte that is cut off: its varint is completed from beyond the field. */
  lemma PackedMayOverrun()
    ensures ReadPacked([0x80, 0x01], 0, 1, []) == Ok((2, [128]))
  {
    var data: Bytes := [0x80, 0x01];
    assert RawVarint(data, 1, 1) == Ok((1, 2));
    assert ReadVarint(data, 0) == Ok((128, 2));
    assert [] + [128] == [128];
    assert ReadPacked(data, 2, 1, [128]) == Ok((2, [128]));
  }

  /** One key, value or skipped piece of a map entry reaches from `a` to `b`. */
  ghost predicate Piece(skip: Skipper, data: Bytes, a: nat, b: nat, post: nat) {
    a < post <= |data| && ReadVarint(data, a).Ok? &&
    var (wire, j) := ReadVarint(data, a).value;
    if ToInt32(wire / 8) == 1 || ToInt32(wire / 8) == 2 then ReadLength(data, j).Ok? && ReadLength(data, j).value.1 == b
    else SkipFrom(skip, data, a, post) == Ok(b)
  }

  /** The pieces between consecutive cuts tile the entry from `i` to `post`. */
  ghost predicate Tiles(skip: Skipper, data: Bytes, i: nat, post: nat, cuts: seq<nat>) {
    cuts != [] && cuts[0] == i && cuts[|cuts| - 1] == post &&
    forall x :: 0 <= x < |cuts| - 1 ==> Piece(skip, data, cuts[x], cuts[x + 1], post)
  }

  /** One turn of the entry loop reads one piece. */
  lemma EntryTurn(skip: Skipper, data: Bytes, i: nat, post: nat, key: Bytes, val: Bytes)
    returns (key': Bytes, val': Bytes)
    requires i < post <= |data|
    ensures ReadEntry(skip, data, i, post, key, val).Ok? ==>
      exists e: nat :: i < e <= |data| && Piece(skip, data, i, e, post)
    ensures forall e: nat :: Piece(skip, data, i, e, post) ==>
      i < e <= |data| && ReadEntry(skip, data, i, post, key, val) == ReadEntry(skip, data, e, post, key', val')
  {
    hide ReadVarint, ToInt32;
    key', val' := key, val;
    if ReadVarint(data, i).Ok? {
      var (wire, j) := ReadVarint(data, i).value;
      var num := ToInt32(wire / 8);
      if num == 1 || num == 2 {
        if ReadLength(data, j).Ok? {
          var (s, e) := ReadLength(data, j).value;
          key', val' := if num == 1 then data[s..e] else key, if num == 2 then data[s..e] else val;
          assert Piece(skip, data, i, e, post);
        }
      } else if SkipFrom(skip, data, i, post).Ok? {
        assert Piece(skip, data, i, SkipFrom(skip, data, i, post).value, post);
      }
    }
  }

  /** The entry loop succeeds and stops exactly at the entry's end if and only if pieces tile the entry. */
  lemma {:induction false} EntryStopsExactly(skip: Skipper, data: Bytes, i: nat, post: nat, key: Bytes, val: Bytes)
    requires i <= post <= |data|
    ensures var r := ReadEntry(skip, data, i, post, key, val);
      r.Ok? && r.value.0 == post <==> exists cuts :: Tiles(skip, data, i, post, cuts)
    decreases post - i
  {
    hide ReadEntry, Piece;
    var r := ReadEntry(skip, data, i, post, key, val);
    if i == post {
      EntryLoopEnds(skip, data, i, post, key, val);
      assert Tiles(skip, data, i, post, [i]);
      return;
    }
    var key', val' := EntryTurn(skip, data, i, post, key, val);
    if r.Ok? && r.value.0 == post {
      var e: nat :| i < e <= |data| && Piece(skip, data, i, e, post);
      EntryOverrunsForGood(skip, data, e, post, key', val');
      EntryStopsExactly(skip, data, e, post, key', val');
      var rest :| Tiles(skip, data, e, post, rest);
      TilesCons(skip, data, i, e, post, rest);
    }
    if cuts :| Tiles(skip, data, i, post, cuts) {
      assert Piece(skip, data, cuts[0], cuts[1], post);
      TilesAscend(skip, data, i, post, cuts, |cuts| - 1);
      TilesTail(skip, data, i, post, cuts);
      EntryStopsExactly(skip, data, cuts[1], post, key', val');
    }
  }

  lemma EntryLoopEnds(skip: Skipper, data: Bytes, i: nat, post: nat, key: Bytes, val: Bytes)
    requires post <= i <= |data|
    ensures ReadEntry(skip, data, i, post, key, val) == Ok((i, key, val))
  {
  }

  /** Once past the entry's end, the cursor stays there. */
  lemma EntryOverrunsForGood(skip: Skipper, data: Bytes, i: nat, post: nat, key: Bytes, val: Bytes)
    requires i <= |data| && post <= |data|
    ensures var r := ReadEntry(skip, data, i, post, key, val); r.Ok? && r.value.0 == post ==> i <= post
  {
  }

  lemma PieceAdvances(skip: Skipper, data: Bytes, a: nat, b: nat, post: nat)
    requires Piece(skip, data, a, b, post)
    ensures a < b
  {
    hide ReadVarint;
  }

  lemma TilesCons(skip: Skipper, data: Bytes, i: nat, e: nat, post: nat, rest: seq<nat>)
    requires Tiles(skip, data, e, post, rest) && Piece(skip, data, i, e, post)
    ensures Tiles(skip, data, i, post, [i] + rest)
  {
    hide Piece;
    var cuts := [i] + rest;
    forall x | 0 <= x < |cuts| - 1
      ensures Piece(skip, data, cuts[x], cuts[x + 1], post)
    {
      assert x > 0 ==> Piece(skip, data, rest[x - 1], rest[x - 1 + 1], post);
    }
  }

  lemma TilesTail(skip: Skipper, data: Bytes, i: nat, post: nat, cuts: seq<nat>)
    requires Tiles(skip, data, i, post, cuts) && |cuts| > 1
    ensures Tiles(skip, data, cuts[1], post, cuts[1..])
  {
    hide Piece;
    var rest := cuts[1..];
    forall x | 0 <= x < |rest| - 1
      ensures Piece(skip, data, rest[x], rest[x + 1], post)
    {
      assert Piece(skip, data, cuts[x + 1], cuts[x + 1 + 1], post);
    }
  }

  lemma {:induction false} TilesAscend(skip: Skipper, data: Bytes, i: nat, post: nat, cuts: seq<nat>, n: nat)
    requires Tiles(skip, data, i, post, cuts) && 1 <= n < |cuts|
    ensures i < cuts[1] <= cuts[n]
    decreases n
  {
    hide Piece;
    assert Piece(skip, data, cuts[0], cuts[0 + 1], post) && Piece(skip, data, cuts[n - 1], cuts[n - 1 + 1], post);
    PieceAdvances(skip, data, cuts[0], cuts[1], post);
    PieceAdvances(skip, data, cuts[n - 1], cuts[n], post);
    if n > 1 {
      TilesAscend(skip, data, i, post, cuts, n - 1);
    }
  }

  /** Whatever the entry loop did, the field loop goes on at the entry's end. */
  lemma MapFieldEndsAtPost(skip: Skipper, was: Value, data: Bytes, j: nat)
    requires j <= |data|
    ensures var r := ReadValue(skip, StringMap, was, 2, data, j);
      r.Ok? ==> ReadLength(data, j).Ok? && r.value.1 == ReadLength(data, j).value.1
  {
    hide ReadEntry;
  }

  /**
   A header entry may overrun: here the entry claims 2 bytes but its key takes 3. The
   decoder reads the key beyond the entry, then resumes at the entry's end.
   */
  lemma EntryMayOverrun(skip: Skipper)
    ensures ReadEntry(skip, [0x0a, 0x01, 0x41], 0, 2, [], []) == Ok((3, [0x41], []))
  {
    var data: Bytes := [0x0a, 0x01, 0x41];
    assert ReadVarint(data, 0) == Ok((0x0a, 1));
    assert ReadVarint(data, 1) == Ok((0x01, 2));
    assert ReadLength(data, 1) == Ok((2, 3));
    assert data[2..3] == [0x41];
    assert ReadEntry(skip, data, 3, 2, [0x41], []) == Ok((3, [0x41], []));
  }
}
