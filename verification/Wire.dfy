/**
 Scalars of the Protocol Buffers wire format: base-128 varints, two's-complement
 reinterpretation and zigzag, as the generated vtproto code reads and writes them.
 */
module Wire {
  import opened Wrappers
  import opened Positional

  type byte = b: int | 0 <= b < 0x100
  type Bytes = seq<byte>

  const TWO31 := 0x8000_0000
  const TWO32 := 0x1_0000_0000
  const TWO63 := 0x8000_0000_0000_0000
  const TWO64 := 0x1_0000_0000_0000_0000

  type uint64 = n: int | 0 <= n < 0x1_0000_0000_0000_0000

  type uint32 = n: int | 0 <= n < 0x1_0000_0000
  type int64 = n: int | -0x8000_0000_0000_0000 <= n < 0x8000_0000_0000_0000
  type int32 = n: int | -0x8000_0000 <= n < 0x8000_0000

  /** The errors UnmarshalVT can return. */
  datatype Error =
    | IntOverflow | UnexpectedEOF | InvalidLength | EndGroup | IllegalTag | WrongWireType | SkipFailed

  datatype Result<+T> = Ok(value: T) | Err(error: Error) {
    predicate IsFailure() { Err? }

    function PropagateFailure<U>(): Result<U>
      requires Err?
    {
      Err(error)
    }

    function Extract(): T
      requires Ok?
    {
      value
    }
  }

  /** `w` sits in `data` at position `i`. */
  ghost predicate At(data: Bytes, i: nat, w: Bytes) {
    i + |w| <= |data| && data[i..i + |w|] == w
  }

  lemma AtConcat(data: Bytes, i: nat, a: Bytes, b: Bytes)
    requires At(data, i, a + b)
    ensures At(data, i, a) && At(data, i + |a|, b)
  {
    var w := data[i..i + |a + b|];
    assert w[..|a|] == a && w[|a|..] == b;
  }

  /** `s` with the bytes just below `hi` overwritten by `w`: what a backwards write leaves. */
  ghost function Splice(s: Bytes, hi: nat, w: Bytes): (r: Bytes)
    requires |w| <= hi <= |s|
    ensures |r| == |s|
  {
    s[..hi - |w|] + w + s[hi..]
  }

  /** Writing `b` and then `a` in front of it is writing `a + b`. */
  lemma SpliceSplice(s: Bytes, hi: nat, a: Bytes, b: Bytes)
    requires |a| + |b| <= hi <= |s|
    ensures Splice(Splice(s, hi, b), hi - |b|, a) == Splice(s, hi, a + b)
  {
  }

  // ---- base-128 varints ------------------------------------------------------

  function VarintBytes(v: nat): (r: Bytes)
    ensures |r| >= 1
  {
    if v < 0x80 then [v] else [v % 0x80 + 0x80] + VarintBytes(v / 0x80)
  }

  function SizeOfVarint(v: nat): nat {
    if v < 0x80 then 1 else 1 + SizeOfVarint(v / 0x80)
  }

  lemma {:induction false} SizeOfVarintIsLength(v: nat)
    ensures SizeOfVarint(v) == |VarintBytes(v)|
  {
    if v >= 0x80 {
      SizeOfVarintIsLength(v / 0x80);
    }
  }

  lemma {:induction false} SizeOfVarintBound(v: nat, k: nat)
    requires k >= 1 && v < Pow(0x80, k)
    ensures SizeOfVarint(v) <= k
  {
    if v >= 0x80 {
      SizeOfVarintBound(v / 0x80, k - 1);
    }
  }

  /** Every 64-bit value fits in ten bytes, the most a decoder loop will read. */
  lemma Uint64FitsTenBytes(v: nat)
    requires v < TWO64
    ensures SizeOfVarint(v) <= 10
  {
    assert Pow(0x80, 5) == 0x8_0000_0000;
    assert Pow(0x80, 10) == 0x40_0000_0000_0000_0000;
    SizeOfVarintBound(v, 10);
  }

  /** Groups of seven bits, least significant first, all but the last with the top bit set, none to spare. */
  lemma {:induction false} VarintIsBase128(v: nat)
    ensures var w := VarintBytes(v);
      && (forall i :: 0 <= i < |w| ==> w[i] == Digit(v, 0x80, i) + if i < |w| - 1 then 0x80 else 0)
      && v < Pow(0x80, |w|) && (|w| > 1 ==> v >= Pow(0x80, |w| - 1))
  {
    var w := VarintBytes(v);
    DigitShift(v, 0x80, 0);
    if v >= 0x80 {
      VarintIsBase128(v / 0x80);
      forall i | 0 < i < |w|
        ensures w[i] == Digit(v, 0x80, i) + if i < |w| - 1 then 0x80 else 0
      {
        DigitShift(v, 0x80, i - 1);
      }
      PowStep(v, 0x80, |w| - 1);
      if |w| > 2 {
        PowStep(v, 0x80, |w| - 2);
      }
    }
  }

  /** The value denoted by a varint at `i`, of which `k` bytes were read before. */
  function RawVarint(data: Bytes, i: nat, k: nat): (r: Result<(nat, nat)>)
    ensures r.Ok? ==> i < r.value.1 <= |data| && r.value.1 - i <= 10 - k
    decreases 10 - k
  {
    if k >= 10 then Err(IntOverflow)
    else if i >= |data| then Err(UnexpectedEOF)
    else if data[i] < 0x80 then Ok((data[i], i + 1))
    else
      var (n, j) :- RawVarint(data, i + 1, k + 1);
      Ok((data[i] % 0x80 + 0x80 * n, j))
  }

  /** What a 64-bit register keeps of `n`. */
  function Low64(n: nat): uint64 {
    n % TWO64
  }

  /** What a varint loop yields: the value in a 64-bit register, and the next cursor. */
  function ReadVarint(data: Bytes, i: nat): (r: Result<(uint64, nat)>)
    ensures r.Ok? ==> i < r.value.1 <= |data|
  {
    var (n, j) :- RawVarint(data, i, 0);
    Ok((Low64(n), j))
  }

  /** `n` is what the varint from `i` to `j` denotes: its base-128 digits are the low seven bits. */
  ghost predicate Denotes(data: Bytes, i: nat, j: nat, n: nat) {
    i < j <= |data| && n < Pow(0x80, j - i) &&
    forall x :: 0 <= x < j - i ==> Digit(n, 0x80, x) == data[i + x] % 0x80
  }

  /** All bytes from `i` up to `j` ask for another one. */
  ghost predicate Continues(data: Bytes, i: nat, j: nat) {
    forall x :: i <= x < j && x < |data| ==> data[x] >= 0x80
  }

  /**
   What a varint loop makes of any bytes: it stops at the first one below 0x80, overlong forms
   included; it overflows exactly on ten bytes without an end, and runs out exactly when the input
   ends before either.
   */
  lemma {:induction false} RawVarintMeans(data: Bytes, i: nat, k: nat)
    requires k <= 10 && i <= |data|
    ensures var r := RawVarint(data, i, k);
      match r
      case Ok((n, j)) => Denotes(data, i, j, n) && data[j - 1] < 0x80 && Continues(data, i, j - 1)
      case Err(e) =>
        && Continues(data, i, i + 10 - k)
        && (if i + 10 - k <= |data| then e == IntOverflow else e == UnexpectedEOF)
    decreases 10 - k
  {
    hide Denotes;
    if k < 10 && i < |data| {
      if data[i] < 0x80 {
        OneDigit(data, i);
      } else {
        RawVarintMeans(data, i + 1, k + 1);
        var r := RawVarint(data, i + 1, k + 1);
        if r.Ok? {
          RawVarintTurn(data, i, r.value.0, r.value.1);
        }
      }
    }
  }

  lemma OneDigit(data: Bytes, i: nat)
    requires i < |data| && data[i] < 0x80
    ensures Denotes(data, i, i + 1, data[i])
  {
    DigitShift(data[i], 0x80, 0);
  }

  lemma RawVarintTurn(data: Bytes, i: nat, n: nat, j: nat)
    requires i < |data| && Denotes(data, i + 1, j, n)
    ensures Denotes(data, i, j, data[i] % 0x80 + 0x80 * n)
  {
    hide Digit;
    var m := data[i] % 0x80 + 0x80 * n;
    assert m / 0x80 == n && m % 0x80 == data[i] % 0x80;
    PowStep(m, 0x80, j - i - 1);
    forall x | 0 <= x < j - i
      ensures Digit(m, 0x80, x) == data[i + x] % 0x80
    {
      DigitShift(m, 0x80, if x > 0 then x - 1 else 0);
      assert x > 0 ==> data[i + x] == data[i + 1 + (x - 1)];
    }
  }

  lemma {:induction false} RawVarintReadsBack(data: Bytes, i: nat, k: nat, v: nat)
    requires At(data, i, VarintBytes(v)) && k + SizeOfVarint(v) <= 10
    ensures RawVarint(data, i, k) == Ok((v, i + |VarintBytes(v)|))
    decreases v
  {
    var w := VarintBytes(v);
    assert data[i] == data[i..i + |w|][0] == w[0];
    if v >= 0x80 {
      AtConcat(data, i, [v % 0x80 + 0x80], VarintBytes(v / 0x80));
      RawVarintReadsBack(data, i + 1, k + 1, v / 0x80);
    }
  }

  /** Decoding undoes encoding for every 64-bit value, wherever it is embedded. */
  lemma ReadVarintReadsBack(data: Bytes, i: nat, v: uint64)
    requires At(data, i, VarintBytes(v))
    ensures ReadVarint(data, i) == Ok((v, i + |VarintBytes(v)|))
  {
    Uint64FitsTenBytes(v);
    RawVarintReadsBack(data, i, 0, v);
  }

  /** Fill upwards from `base`. */
  method PutVarint(buf: array<byte>, base: nat, v: uint64) returns (end: nat)
    requires base + SizeOfVarint(v) <= buf.Length
    modifies buf
    ensures end == base + |VarintBytes(v)| <= buf.Length
    ensures buf[..] == Splice(old(buf[..]), end, VarintBytes(v))
  {
    hide VarintBytes, Splice, SizeOfVarint;
    SizeOfVarintIsLength(v);
    var o, rest := base, v;
    ghost var was: Bytes, done: Bytes := buf[..], [];
    SpliceNothing(was, base);
    while rest >= 0x80
      invariant 0 <= rest && done + VarintBytes(rest) == VarintBytes(v)
      invariant o == base + |done| && base + |VarintBytes(v)| <= buf.Length
      invariant buf[..] == Splice(was, o, done)
      decreases rest
    {
      VarintHead(done, rest);
      SpliceAppend(was, o, done, rest % 0x80 + 0x80);
      done := done + [rest % 0x80 + 0x80];
      buf[o] := rest % 0x80 + 0x80;
      rest, o := rest / 0x80, o + 1;
    }
    VarintLast(rest);
    SpliceAppend(was, o, done, rest);
    buf[o] := rest;
    end := o + 1;
  }

  lemma SpliceNothing(s: Bytes, hi: nat)
    requires hi <= |s|
    ensures Splice(s, hi, []) == s
  {
  }

  /** One more byte written upwards. */
  lemma SpliceAppend(s: Bytes, hi: nat, w: Bytes, b: byte)
    requires |w| <= hi < |s|
    ensures Splice(s, hi, w)[hi := b] == Splice(s, hi + 1, w + [b])
  {
  }

  /** EncodeVarint: move `offset` down by the size, then fill upwards. */
  method EncodeVarint(buf: array<byte>, offset: nat, v: uint64) returns (base: nat)
    requires SizeOfVarint(v) <= offset <= buf.Length
    modifies buf
    ensures |VarintBytes(v)| <= offset && base == offset - |VarintBytes(v)|
    ensures buf[..] == Splice(old(buf[..]), offset, VarintBytes(v))
  {
    SizeOfVarintIsLength(v);
    base := offset - SizeOfVarint(v);
    var _ := PutVarint(buf, base, v);
  }

  lemma VarintLast(v: nat)
    requires v < 0x80
    ensures VarintBytes(v) == [v]
  {
  }

  lemma VarintHead(done: Bytes, v: nat)
    requires v >= 0x80
    ensures done + VarintBytes(v) == (done + [v % 0x80 + 0x80]) + VarintBytes(v / 0x80)
  {
  }

  ghost function Continue(pre: nat, k: nat, r: Result<(nat, nat)>): Result<(nat, nat)> {
    match r
    case Ok((n, j)) => Ok((pre + Pow(0x80, k) * n, j))
    case Err(e) => Err(e)
  }

  lemma VarintStep(data: Bytes, i: nat, k: nat, pre: nat)
    requires k < 10 && i < |data|
    ensures Continue(pre, k, RawVarint(data, i, k)) ==
            if data[i] < 0x80 then Ok((pre + Times(Pow(0x80, k), data[i] % 0x80), i + 1))
            else Continue(pre + Times(Pow(0x80, k), data[i] % 0x80), k + 1, RawVarint(data, i + 1, k + 1))
  {
    if data[i] >= 0x80 && RawVarint(data, i + 1, k + 1).Ok? {
      Regroup(Pow(0x80, k), data[i] % 0x80, RawVarint(data, i + 1, k + 1).value.0);
    }
  }

  /**
   The inlined decode loop. `scale` is `1 << shift`; the register only ever receives
   bits above those already set, so or-ing them in is adding them modulo 2^64.
   */
  method DecodeVarint(data: Bytes, start: nat) returns (r: Result<(uint64, nat)>)
    ensures r == ReadVarint(data, start)
  {
    var i, k, scale: nat, acc := start, 0, 1, 0;
    ghost var pre: nat := 0;
    while true
      invariant 0 <= k <= 10 && scale == Pow(0x80, k) && i >= 0
      invariant acc == Low64(pre)
      invariant RawVarint(data, start, 0) == Continue(pre, k, RawVarint(data, i, k))
      decreases 10 - k
    {
      if k >= 10 {
        return Err(IntOverflow);
      }
      if i >= |data| {
        return Err(UnexpectedEOF);
      }
      var b := data[i];
      var chunk := Times(scale, b % 0x80);
      VarintStep(data, i, k, pre);
      AddMod(pre, chunk);
      acc := Low64(acc + chunk);
      pre := pre + chunk;
      if b < 0x80 {
        return Ok((acc, i + 1));
      }
      i, k, scale := i + 1, k + 1, 0x80 * scale;
    }
  }

  function Times(p: nat, d: nat): nat {
    p * d
  }

  lemma AddMod(a: nat, b: nat)
    ensures Low64(Low64(a) + b) == Low64(a + b)
  {
    assert a == a / TWO64 * TWO64 + a % TWO64;
    ModShift(a % TWO64 + b, a / TWO64);
  }

  lemma {:induction false} ModShift(x: nat, q: nat)
    ensures (x + q * TWO64) % TWO64 == x % TWO64
  {
    if q > 0 {
      ModShift(x, q - 1);
      assert x + q * TWO64 == x + (q - 1) * TWO64 + TWO64;
    }
  }

  lemma Regroup(p: nat, d: nat, n: nat)
    ensures p * (d + 0x80 * n) == p * d + (0x80 * p) * n
  {
    assert p * (d + 0x80 * n) == p * d + p * (0x80 * n);
  }

  // ---- two's complement and zigzag -------------------------------------------

  /** uint64(x) for a signed x of at most 64 bits. */
  function ToUint64(x: int): (u: uint64)
    requires -TWO63 <= x < TWO63
  {
    if x < 0 then x + TWO64 else x
  }

  /** 64-bit two's-complement wrap-around of int64 arithmetic. */
  function Wrap(x: int): (r: int64)
    ensures (r - x) % TWO64 == 0
    ensures -TWO63 <= x < TWO63 ==> r == x
  {
    var m := x % TWO64;
    var r := if m < TWO63 then m else m - TWO64;
    assert r - x == -(x / TWO64) * TWO64 || r - x == -(x / TWO64 + 1) * TWO64;
    r
  }

  /** int64(u) */
  function ToInt64(u: uint64): (x: int)
    ensures -TWO63 <= x < TWO63
  {
    if u >= TWO63 then u - TWO64 else u
  }

  /** int32(u): the low 32 bits, signed. */
  function ToInt32(u: uint64): (x: int)
    ensures -TWO31 <= x < TWO31
  {
    var w := u % TWO32;
    if w >= TWO31 then w - TWO32 else w
  }

  /** Reinterpretation keeps the low bits. */
  lemma ReinterpretsLowBits(x: int64, u: uint64)
    ensures ToUint64(x) == (if x < 0 then x + TWO64 else x)
    ensures ToUint64(ToInt64(u)) == u && ToInt64(ToUint64(x)) == x
    ensures (ToInt32(u) - u) % TWO32 == 0
  {
    var w := u % TWO32;
    assert ToInt32(u) - u == -(u / TWO32) * TWO32 || ToInt32(u) - u == -(u / TWO32 + 1) * TWO32;
  }

  /** A negative int32 is sign-extended to 64 bits; its low half is itself. */
  lemma Int32RoundTrip(n: int)
    requires -TWO31 <= n < TWO31
    ensures ToInt32(ToUint64(n)) == n
  {
    assert n < 0 ==> n + TWO64 == (n + TWO32) + (TWO32 - 1) * TWO32;
  }

  /** `(uint(x) << 1) ^ uint(x >> (width-1))`; xor with an all-ones mask is complement. */
  function ZigzagOf(x: int, modulus: nat): (u: nat)
    requires modulus % 2 == 0 && -(modulus / 2) <= x < modulus / 2
    ensures u < modulus
    ensures u == if x >= 0 then 2 * x else -2 * x - 1
  {
    var bits := if x < 0 then x + modulus else x;
    var shifted := if 2 * bits >= modulus then 2 * bits - modulus else 2 * bits;
    if x < 0 then modulus - 1 - shifted else shifted
  }

  /** `(v >> 1) ^ -(v & 1)`, read back as a signed number of the same width. */
  function UnzigzagOf(v: nat, modulus: nat): (x: int)
    requires modulus % 2 == 0 && v < modulus
    ensures -(modulus / 2) <= x < modulus / 2
    ensures v == if x >= 0 then 2 * x else -2 * x - 1
  {
    var half := v / 2;
    var u := if v % 2 == 1 then modulus - 1 - half else half;
    if u >= modulus / 2 then u - modulus else u
  }

  lemma ZigzagRoundTrip(x: int, modulus: nat)
    requires modulus % 2 == 0 && -(modulus / 2) <= x < modulus / 2
    ensures UnzigzagOf(ZigzagOf(x, modulus), modulus) == x
  {
  }

  /** SizeVT sizes an s32 in 64 bits while the encoder zigzags in 32: the sizes agree. */
  lemma Zigzag32Size(x: int)
    requires -TWO31 <= x < TWO31
    ensures SizeOfVarint(ZigzagOf(x, TWO64)) == |VarintBytes(ZigzagOf(x, TWO32))|
  {
    SizeOfVarintIsLength(ZigzagOf(x, TWO32));
  }
}
