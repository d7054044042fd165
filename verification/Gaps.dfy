/**
 Lost-message accounting: PubLoop numbers its bodies, ParseSeq reads the number back, and the
 GapTracker turns the numbers received into a count of messages missing.
 */
module Gaps {
  import opened Wrappers
  import opened Wire
  import opened Positional
  import opened Sequences

  // ---- numbers as text ---------------------------------------------------------

  predicate IsDigit(c: char) {
    '0' <= c <= '9'
  }

  /** strconv.AppendInt of a natural, base 10. */
  function Decimal(n: nat): (s: string)
    ensures s != "" && forall i :: 0 <= i < |s| ==> IsDigit(s[i])
  {
    var c := [('0' as int + n % 10) as char];
    if n < 10 then c else Decimal(n / 10) + c
  }

  /** The value of a digit string; `None` when empty or not all digits. */
  function Digits(s: string): Option<nat> {
    if s == "" then None
    else
      var (init, c) := (s[..|s| - 1], s[|s| - 1]);
      if !IsDigit(c) then None
      else if init == "" then Some(c as int - '0' as int)
      else
        var high := Digits(init);
        if high.None? then None else Some(10 * high.value + (c as int - '0' as int))
  }

  /** strconv.ParseInt(s, 10, 64). */
  function ParseInt(s: string): Option<int64> {
    if s == "" then None
    else
      var neg := s[0] == '-';
      var u := Digits(if neg || s[0] == '+' then s[1..] else s);
      if u.None? then None
      else if neg then (if u.value <= TWO63 then Some(-(u.value as int)) else None)
      else if u.value < TWO63 then Some(u.value) else None
  }

  lemma {:induction false} DigitsReadDecimal(n: nat)
    ensures Digits(Decimal(n)) == Some(n)
  {
    var s := Decimal(n);
    if n >= 10 {
      DigitsReadDecimal(n / 10);
      assert s[..|s| - 1] == Decimal(n / 10);
    }
  }

  function DigitOf(c: char): int {
    c as int - '0' as int
  }

  /** Base ten, most significant digit first, no leading zero. */
  lemma {:induction false} DecimalIsBaseTen(n: nat)
    ensures var s := Decimal(n);
      && (forall i :: 0 <= i < |s| ==> DigitOf(s[|s| - 1 - i]) == Digit(n, 10, i))
      && n < Pow(10, |s|) && (|s| > 1 ==> n >= Pow(10, |s| - 1))
  {
    hide Digit, Pow;
    var s := Decimal(n);
    SmallNumber(n);
    DigitShift(n, 10, 0);
    if n >= 10 {
      DecimalIsBaseTen(n / 10);
      forall i | 0 <= i < |s|
        ensures DigitOf(s[|s| - 1 - i]) == Digit(n, 10, i)
      {
        DigitShift(n, 10, if i > 0 then i - 1 else 0);
      }
      PowStep(n, 10, |s| - 1);
      if |s| > 2 {
        PowStep(n, 10, |s| - 2);
      }
    }
  }

  lemma SmallNumber(n: nat)
    ensures n < 10 <==> n < Pow(10, 1)
  {
  }

  /** A digit string denotes the number with these digits; anything else denotes none. */
  lemma {:induction false} DigitsMean(s: string)
    ensures Digits(s).Some? <==> s != "" && forall i :: 0 <= i < |s| ==> IsDigit(s[i])
    ensures Digits(s).Some? ==>
      && Digits(s).value < Pow(10, |s|)
      && forall i :: 0 <= i < |s| ==> Digit(Digits(s).value, 10, i) == DigitOf(s[|s| - 1 - i])
  {
    hide Digit, Pow;
    if s != "" {
      var init, c := s[..|s| - 1], s[|s| - 1];
      if init != "" {
        DigitsMean(init);
      }
      if Digits(s).Some? {
        var n := Digits(s).value;
        SmallNumber(n);
        DigitShift(n, 10, 0);
        if init != "" {
          assert n / 10 == Digits(init).value && n % 10 == DigitOf(c);
          PowStep(n, 10, |init|);
        }
        forall i | 0 <= i < |s|
          ensures Digit(n, 10, i) == DigitOf(s[|s| - 1 - i])
        {
          DigitShift(n, 10, if i > 0 then i - 1 else 0);
        }
      }
    }
  }

  /** A sign is optional, and the value must fit 64 bits. */
  lemma ParseIntMeans(d: string)
    requires d != "" ==> d[0] != '-' && d[0] != '+'
    ensures Digits(d).None? ==> ParseInt(d) == ParseInt("+" + d) == ParseInt("-" + d) == None
    ensures Digits(d).Some? ==>
      var u := Digits(d).value;
      && ParseInt(d) == ParseInt("+" + d) == (if u < TWO63 then Some(u) else None)
      && ParseInt("-" + d) == (if u <= TWO63 then Some(-(u as int)) else None)
  {
    hide Digits;
    assert ("+" + d)[1..] == d && ("-" + d)[1..] == d;
    EmptyDigits();
  }

  lemma EmptyDigits()
    ensures Digits("") == None
  {
  }

  // ---- ParseSeq ------------------------------------------------------------------

  /** unicode.IsSpace. */
  predicate IsSpace(c: char) {
    var u := c as int;
    0x09 <= u <= 0x0D || u == 0x20 || u == 0x85 || u == 0xA0 || u == 0x1680 || 0x2000 <= u <= 0x200A ||
    u == 0x2028 || u == 0x2029 || u == 0x202F || u == 0x205F || u == 0x3000
  }

  /** The white space of Unicode, code point by code point. */
  lemma SpaceTable(c: char)
    ensures IsSpace(c) <==>
      c as int in {0x09, 0x0A, 0x0B, 0x0C, 0x0D, 0x20, 0x85, 0xA0, 0x1680, 0x2000, 0x2001, 0x2002, 0x2003, 0x2004,
                   0x2005, 0x2006, 0x2007, 0x2008, 0x2009, 0x200A, 0x2028, 0x2029, 0x202F, 0x205F, 0x3000}
  {
  }

  function TrimRight(s: string): string {
    if s != "" && IsSpace(s[|s| - 1]) then TrimRight(s[..|s| - 1]) else s
  }

  function TrimLeft(s: string): string {
    if s != "" && IsSpace(s[0]) then TrimLeft(s[1..]) else s
  }

  /** strings.LastIndexFunc: the last space, or -1. */
  function LastSpace(s: string): (i: int)
    ensures -1 <= i < |s| && (i >= 0 ==> IsSpace(s[i])) && forall j :: i < j < |s| ==> !IsSpace(s[j])
  {
    if s == "" then -1
    else if IsSpace(s[|s| - 1]) then |s| - 1
    else LastSpace(s[..|s| - 1])
  }

  function ParseSeq(body: string): Option<int64> {
    var tail := TrimRight(body);
    if tail == "" then None
    else
      var i := LastSpace(tail);
      ParseInt(if i >= 0 then TrimLeft(tail[i..]) else tail)
  }

  predicate Blank(s: string) {
    forall i :: 0 <= i < |s| ==> IsSpace(s[i])
  }

  predicate NoSpace(s: string) {
    forall i :: 0 <= i < |s| ==> !IsSpace(s[i])
  }

  predicate EndsInSpace(s: string) {
    s != "" && IsSpace(s[|s| - 1])
  }

  lemma {:induction false} TrimRightDrops(t: string, trail: string)
    requires Blank(trail) && (t == "" || !EndsInSpace(t))
    ensures TrimRight(t + trail) == t
    decreases |trail|
  {
    hide IsSpace;
    var s := t + trail;
    if trail == "" {
      assert s == t;
    } else {
      assert s[|s| - 1] == trail[|trail| - 1];
      assert s[..|s| - 1] == t + trail[..|trail| - 1];
      TrimRightDrops(t, trail[..|trail| - 1]);
    }
  }

  lemma {:induction false} LastSpaceBefore(pre: string, token: string)
    requires NoSpace(token) && (pre == "" || EndsInSpace(pre))
    ensures LastSpace(pre + token) == |pre| - 1
    decreases |token|
  {
    hide IsSpace;
    var s := pre + token;
    if token == "" {
      assert s == pre;
    } else {
      assert s[|s| - 1] == token[|token| - 1];
      assert s[..|s| - 1] == pre + token[..|token| - 1];
      LastSpaceBefore(pre, token[..|token| - 1]);
    }
  }

  /** ParseSeq parses the last token, whatever stands before it and whatever blanks follow. */
  lemma ParseSeqToken(pre: string, token: string, trail: string)
    requires token != "" && NoSpace(token) && Blank(trail) && (pre == "" || EndsInSpace(pre))
    ensures ParseSeq(pre + token + trail) == ParseInt(token)
  {
    hide IsSpace, ParseInt, TrimLeft, TrimRight, LastSpace, Blank;
    var tail := pre + token;
    assert tail[|tail| - 1] == token[|token| - 1];
    TrimRightDrops(tail, trail);
    LastSpaceBefore(pre, token);
    if pre == "" {
      assert tail == token;
    } else {
      assert tail[|pre| - 1..] == [pre[|pre| - 1]] + token;
      TrimOneSpace(pre[|pre| - 1], token);
    }
  }

  /** A blank body has no number. */
  lemma ParseSeqBlank(body: string)
    requires Blank(body)
    ensures ParseSeq(body) == None
  {
    hide IsSpace, ParseInt;
    assert "" + body == body;
    TrimRightDrops("", body);
  }

  /** Every other body has a last token, so the two cases are all there are. */
  lemma {:induction false} LastToken(body: string) returns (pre: string, token: string, trail: string)
    requires !Blank(body)
    ensures body == pre + token + trail && token != "" && NoSpace(token) && Blank(trail)
    ensures pre == "" || EndsInSpace(pre)
    decreases |body|
  {
    hide IsSpace;
    var init, c := body[..|body| - 1], body[|body| - 1];
    assert body == init + [c];
    pre, token, trail := "", [c], "";
    if IsSpace(c) {
      pre, token, trail := LastToken(init);
      trail := trail + [c];
    } else if EndsInSpace(init) {
      pre := init;
    } else if init != "" {
      NotBlank(init, |init| - 1);
      var t, u;
      t, token, u := LastToken(init);
      assert u == "";
      pre, token := t, token + [c];
    }
  }

  lemma NotBlank(s: string, i: nat)
    requires i < |s| && !IsSpace(s[i])
    ensures !Blank(s)
  {
  }

  /** A numbered body gives its number back, whatever the text: spaces, digits, nothing at all. */
  lemma ParseSeqRecovers(msg: string, k: nat)
    requires k < TWO63
    ensures ParseSeq(msg + " " + Decimal(k)) == Some(k)
  {
    hide ParseSeq, Digits, Decimal;
    var d := Decimal(k);
    assert msg + " " + d == msg + " " + d + "";
    ParseSeqToken(msg + " ", d, "");
    DigitsReadDecimal(k);
  }

  lemma TrimOneSpace(c: char, d: string)
    requires IsSpace(c) && d != "" && !IsSpace(d[0])
    ensures TrimLeft([c] + d) == d
  {
    var s := [c] + d;
    assert s[1..] == d;
    assert TrimLeft(s[1..]) == d;
  }

  // ---- PubLoop -------------------------------------------------------------------

  /** How many messages PubLoop sends for a -count. */
  function Total(count: int): nat {
    if count <= 0 then 1 else count
  }

  /** The body of message `i`, counted from 0. */
  function Body(msg: string, n: nat, i: nat): string {
    if n > 1 then msg + " " + Decimal(i + 1) else msg
  }

  /** `sends(i)` is whether the callback accepts message `i`; `failed` is the 1-based ordinal in the error. */
  method PubLoop(msg: string, count: int, sends: nat -> bool) returns (bodies: seq<string>, failed: Option<nat>)
    ensures forall i :: 0 <= i < |bodies| ==> bodies[i] == Body(msg, Total(count), i)
    ensures forall i :: 0 <= i < |bodies| ==> bodies[i] == if count > 1 then msg + " " + Decimal(i + 1) else msg
    ensures forall i :: 0 <= i < |bodies| - 1 ==> sends(i)
    ensures match failed
      case None => |bodies| == (if count > 1 then count else 1) && sends(|bodies| - 1)
      case Some(k) => |bodies| == k <= (if count > 1 then count else 1) && k > 0 && !sends(k - 1)
  {
    var n := if count <= 0 then 1 else count;
    var buf := "";
    bodies := [];
    for i := 0 to n
      invariant |bodies| == i
      invariant forall j :: 0 <= j < i ==> bodies[j] == Body(msg, n, j) && sends(j)
    {
      var body := msg;
      if n > 1 {
        buf := buf[..0] + msg;
        buf := buf + [' '];
        buf := buf + Decimal(i + 1);
        body := buf;
      }
      bodies := bodies + [body];
      if !sends(i) {
        return bodies, Some(i + 1);
      }
    }
    return bodies, None;
  }

  // ---- GapTracker ----------------------------------------------------------------

  /** `last` is the baseline, once there is one. */
  datatype Tracker = Tracker(last: Option<int64>)

  function Observed(g: Tracker, n: int64): (r: (Tracker, int64)) {
    if g.last.None? then (Tracker(Some(n)), 0)
    else
      var last := g.last.value;
      if n == Wrap(last + 1) then (Tracker(Some(n)), 0)
      else if n > Wrap(last + 1) then (Tracker(Some(n)), Wrap(Wrap(n - last) - 1))
      else if n < last then (Tracker(Some(n)), 0)
      else (g, 0)
  }

  class GapTracker {
    var last: int64
    var have: bool

    ghost function View(): Tracker
      reads this
    {
      Tracker(if have then Some(last) else None)
    }

    constructor ()
      ensures View() == Tracker(None)
    {
      last, have := 0, false;
    }

    method Observe(n: int64) returns (gap: int64)
      modifies this
      ensures (View(), gap) == Observed(old(View()), n)
    {
      if !have {
        have, last := true, n;
        return 0;
      }
      if n == Wrap(last + 1) {
        last := n;
        return 0;
      } else if n > Wrap(last + 1) {
        gap := Wrap(Wrap(n - last) - 1);
        last := n;
      } else if n < last {
        last := n;
        return 0;
      } else {
        return 0;
      }
    }
  }

  /** The documented table: what should be counted missing when `n` follows `last`. */
  function Skipped(last: int64, n: int64): nat {
    if n > last + 1 then n - last - 1 else 0
  }

  /** What RecordReceived adds to the counter: only positive gaps. */
  function Added(g: Tracker, n: int64): nat {
    var gap := Observed(g, n).1;
    if gap > 0 then gap else 0
  }

  /**
   Observe returns what its documentation says exactly when the distance fits 64 bits and the
   baseline is not the largest int64, or is followed by the least. In every case the new baseline
   is the number just seen.
   */
  lemma CountsAsDocumented(last: int64, n: int64)
    ensures var g := Tracker(Some(last));
      && Observed(g, n).0 == Tracker(Some(n))
      && (Observed(g, n).1 == Skipped(last, n) <==> n - last - 1 < TWO63 && (last < TWO63 - 1 || n == -TWO63))
  {
    ObservedExactly(last, n);
  }

  /**
   RecordReceived drops what is not positive, so its counter agrees on more: after the largest
   int64 it goes wrong only for a negative number other than the least.
   */
  lemma RecordsAsDocumented(last: int64, n: int64)
    ensures Added(Tracker(Some(last)), n) == Skipped(last, n) <==>
      n - last - 1 < TWO63 && !(last == TWO63 - 1 && -TWO63 < n < 0)
  {
    ObservedExactly(last, n);
  }

  /** Every return of Observe after the first: the documented one, or one of the three wrap-arounds. */
  lemma ObservedExactly(last: int64, n: int64)
    ensures Observed(Tracker(Some(last)), n).0 == Tracker(Some(n))
    ensures Observed(Tracker(Some(last)), n).1 ==
      if last == TWO63 - 1 && -TWO63 < n then (if n < 0 then n + TWO63 else n - TWO63)
      else if n - last - 1 >= TWO63 then n - last - 1 - TWO64
      else Skipped(last, n)
  {
    hide Wrap;
    var d := n - last;
    WrapDistance(last + 1);
    WrapTwice(d);
    WrapDistance(d - 1);
  }

  lemma WrapTwice(d: int)
    requires -TWO64 < d < TWO64
    ensures Wrap(Wrap(d) - 1) == Wrap(d - 1)
  {
    var k := if Wrap(d) == d then 0 else if Wrap(d) == d - TWO64 then 1 else -1;
    assert Wrap(d) == d - k * TWO64;
  }

  lemma WrapDistance(d: int)
    requires -TWO64 <= d < TWO64
    ensures Wrap(d) == if d < -TWO63 then d + TWO64 else if d < TWO63 then d else d - TWO64
  {
  }

  /** A lower number is documented never to count; after the largest int64 a negative one does. */
  lemma WrapCountsALowerNumber()
    ensures Added(Tracker(Some(TWO63 - 1)), -5) == TWO63 - 5 && Skipped(TWO63 - 1, -5) == 0
  {
    ObservedExactly(TWO63 - 1, -5);
  }

  /** A gap is documented never to be negative; after the largest int64 every natural returns one. */
  lemma WrapReturnsANegativeGap(n: int64)
    requires n >= 0
    ensures Observed(Tracker(Some(TWO63 - 1)), n).1 == n - TWO63 < 0 == Skipped(TWO63 - 1, n)
  {
    ObservedExactly(TWO63 - 1, n);
  }

  // ---- RecordReceived ------------------------------------------------------------

  datatype Receipt = Receipt(received: nat, gaps: nat, tracker: Tracker)

  function Receive(r: Receipt, data: string): Receipt {
    var n := ParseSeq(data);
    if n.None? then r.(received := r.received + 1)
    else Receipt(r.received + 1, r.gaps + Added(r.tracker, n.value), Observed(r.tracker, n.value).0)
  }

  /** A body without a number only counts as received; the first number only sets the baseline. */
  lemma ReceiveMeans(r: Receipt, data: string, n: int64)
    ensures Receive(r, data).received == r.received + 1
    ensures ParseSeq(data).None? ==> Receive(r, data).gaps == r.gaps && Receive(r, data).tracker == r.tracker
    ensures Observed(Tracker(None), n) == (Tracker(Some(n)), 0)
  {
    hide ParseSeq, Wrap;
  }

  class Recorder {
    var received: nat
    var gaps: nat

    constructor ()
      ensures received == 0 && gaps == 0
    {
      received, gaps := 0, 0;
    }
  }

  method RecordReceived(rec: Recorder, g: GapTracker, data: string)
    modifies rec, g
    ensures Receipt(rec.received, rec.gaps, g.View()) == Receive(old(Receipt(rec.received, rec.gaps, g.View())), data)
  {
    rec.received := rec.received + 1;
    var n := ParseSeq(data);
    if n.Some? {
      var gap := g.Observe(n.value);
      if gap > 0 {
        rec.gaps := rec.gaps + gap;
      }
    }
  }

  /** A whole subscription: every message recorded in arrival order. */
  function ReceiveAll(datas: seq<string>): Receipt {
    if datas == [] then Receipt(0, 0, Tracker(None))
    else Receive(ReceiveAll(datas[..|datas| - 1]), datas[|datas| - 1])
  }

  // ---- from publisher to subscriber ----------------------------------------------

  /** Messages of one publishing run, by index, in order; a message may arrive more than once. */
  ghost predicate InOrder(arrived: seq<nat>, n: nat) {
    (forall i :: 0 <= i < |arrived| ==> arrived[i] < n) &&
    (forall i, j :: 0 <= i < j < |arrived| ==> arrived[i] <= arrived[j])
  }

  ghost function Arrivals(msg: string, n: nat, arrived: seq<nat>): (r: seq<string>)
    ensures |r| == |arrived| && forall i :: 0 <= i < |r| ==> r[i] == Body(msg, n, arrived[i])
  {
    seq(|arrived|, i requires 0 <= i < |arrived| => Body(msg, n, arrived[i]))
  }

  ghost function Interval(a: nat, b: nat): (r: set<nat>)
    ensures forall x :: x in r <==> a <= x < b
  {
    if a < b then Interval(a, b - 1) + {b - 1} else {}
  }

  lemma {:induction false} IntervalSize(a: nat, b: nat)
    requires a <= b
    ensures |Interval(a, b)| == b - a
    decreases b
  {
    if a < b {
      IntervalSize(a, b - 1);
    }
  }

  /** The messages from the first arrival to the last that never arrived. */
  ghost function Lost(arrived: seq<nat>): set<nat>
    requires arrived != []
  {
    Interval(arrived[0], arrived[|arrived| - 1] + 1) - Elements(arrived)
  }

  /** What a number `x` after a number `last` skips. */
  function Jump(last: nat, x: nat): nat {
    if x > last + 1 then x - last - 1 else 0
  }

  lemma ArrivedUpToLast(arrived: seq<nat>, x: nat)
    requires arrived != [] && InOrder(arrived + [x], x + 1)
    ensures arrived[|arrived| - 1] <= x && forall y :: y in arrived ==> arrived[0] <= y <= arrived[|arrived| - 1]
  {
    var all := arrived + [x];
    assert all[|arrived| - 1] == arrived[|arrived| - 1] && all[|arrived|] == x;
    assert forall i :: 0 <= i < |arrived| ==> all[i] == arrived[i];
  }

  /** One more arrival loses exactly the messages jumped over. */
  lemma LostStep(arrived: seq<nat>, x: nat)
    requires arrived != [] && InOrder(arrived + [x], x + 1)
    ensures |Lost(arrived + [x])| == |Lost(arrived)| + Jump(arrived[|arrived| - 1], x)
  {
    hide Interval, InOrder;
    ArrivedUpToLast(arrived, x);
    var all, last := arrived + [x], arrived[|arrived| - 1];
    var jumped := Interval(last + 1, x);
    assert all[0] == arrived[0] && all[|all| - 1] == x;
    assert last in arrived;
    assert Lost(all) == Lost(arrived) + jumped;
    assert Lost(arrived) !! jumped;
    if x > last {
      IntervalSize(last + 1, x);
    } else {
      assert jumped == {};
    }
  }

  /** One numbered body through RecordReceived, after number `last` or as the first. */
  lemma ReceiveBody(msg: string, n: nat, r: Receipt, x: nat)
    requires 1 < n < TWO63 && x < n && (r.tracker.last.Some? ==> 1 <= r.tracker.last.value <= x + 1)
    ensures Receive(r, Body(msg, n, x)) ==
      Receipt(r.received + 1,
              r.gaps + (if r.tracker.last.None? then 0 else Jump(r.tracker.last.value - 1, x)),
              Tracker(Some(x + 1)))
  {
    hide ParseSeq, Wrap;
    ParseSeqRecovers(msg, x + 1);
    if r.tracker.last.Some? {
      ObservedExactly(r.tracker.last.value, x + 1);
    }
  }

  /**
   For a publishing run of n > 1 messages, whatever the text, and any in-order arrivals of it:
   the gap counter is the number of messages lost between the first and the last arrival.
   */
  lemma {:induction false} GapsAreLosses(msg: string, n: nat, arrived: seq<nat>)
    requires 1 < n < TWO63 && InOrder(arrived, n) && arrived != []
    ensures var r := ReceiveAll(Arrivals(msg, n, arrived));
      && r.received == |arrived| && r.gaps == |Lost(arrived)|
      && r.tracker == Tracker(Some(arrived[|arrived| - 1] + 1))
    decreases |arrived|
  {
    hide Receive, Lost, Body, Jump;
    var x, rest := arrived[|arrived| - 1], arrived[..|arrived| - 1];
    var datas := Arrivals(msg, n, arrived);
    assert datas[..|datas| - 1] == Arrivals(msg, n, rest);
    if rest == [] {
      assert arrived == [x];
      NothingLost(x);
    } else {
      GapsAreLosses(msg, n, rest);
      assert arrived == rest + [x];
      LostStep(rest, x);
    }
    ReceiveBody(msg, n, ReceiveAll(datas[..|datas| - 1]), x);
  }

  /** Without duplicates: gaps plus messages received is last - first + 1. */
  lemma GapsPlusReceived(msg: string, n: nat, arrived: seq<nat>)
    requires 1 < n < TWO63 && arrived != [] && (forall i :: 0 <= i < |arrived| ==> arrived[i] < n)
    requires forall i, j :: 0 <= i < j < |arrived| ==> arrived[i] < arrived[j]
    ensures var r := ReceiveAll(Arrivals(msg, n, arrived));
      r.gaps + r.received == arrived[|arrived| - 1] - arrived[0] + 1
  {
    hide ReceiveAll;
    GapsAreLosses(msg, n, arrived);
    LostAndReceived(arrived);
  }

  lemma {:induction false} LostAndReceived(arrived: seq<nat>)
    requires arrived != [] && forall i, j :: 0 <= i < j < |arrived| ==> arrived[i] < arrived[j]
    ensures |Lost(arrived)| + |arrived| == arrived[|arrived| - 1] - arrived[0] + 1
    decreases |arrived|
  {
    hide Lost;
    var last, rest := arrived[|arrived| - 1], arrived[..|arrived| - 1];
    if rest == [] {
      assert arrived == [last];
      NothingLost(last);
    } else {
      LostAndReceived(rest);
      assert arrived == rest + [last];
      LostStep(rest, last);
    }
  }

  lemma NothingLost(x: nat)
    ensures Lost([x]) == {}
  {
  }
}
