/**
 The clock probe: an NTP-style offset estimate from the successful round with the least
 round-trip time (section 8 of RFC 5905), in 64-bit nanoseconds.
 */
module ClockProbe {
  import opened Wrappers
  import opened Wire

  const MAX_INT64: int64 := TWO63 - 1

  /** Go's x / 2, which rounds toward zero. */
  function Half(x: int64): int64 {
    if x >= 0 then x / 2 else -(-(x as int) / 2)
  }

  /** The four clock readings of one round; the middle two are the server's. */
  datatype Stamps = Stamps(t1: int64, t2: int64, t3: int64, t4: int64)
  datatype Sample = Sample(offset: int64, rtt: int64)

  /** One turn of the loop: the envelope could not be filled, the call failed, or a reply came. */
  datatype Probe =
    | FillFailed
    | CallFailed
    | Replied(t1: Option<int64>, t2: Option<int64>, t3: Option<int64>, t4: int64, source: string, synced: bool)

  function ProbeSample(t1: Option<int64>, t2: Option<int64>, t3: Option<int64>, t4: int64): Option<Sample> {
    if t1.None? || t2.None? || t3.None? then None
    else Some(SampleOf(Stamps(t1.value, t2.value, t3.value, t4)))
  }

  function SampleOf(s: Stamps): Sample {
    Sample(Half(Wrap(Wrap(s.t2 - s.t1) + Wrap(s.t3 - s.t4))), Wrap(Wrap(s.t4 - s.t1) - Wrap(s.t3 - s.t2)))
  }

  function SampleAt(p: Probe): Option<Sample> {
    if p.Replied? then ProbeSample(p.t1, p.t2, p.t3, p.t4) else None
  }

  datatype Estimate = Estimate(ok: nat, rttMin: int64, offset: int64, uncertainty: int64, source: string, synced: bool)
  datatype Outcome = Estimated(e: Estimate) | NoSuccess | Failed

  function Successes(ps: seq<Probe>): nat {
    if ps == [] then 0
    else Successes(ps[..|ps| - 1]) + if SampleAt(ps[|ps| - 1]).Some? then 1 else 0
  }

  ghost predicate FirstLeast(ps: seq<Probe>, k: nat) {
    k < |ps| && SampleAt(ps[k]).Some? &&
    (forall j :: 0 <= j < |ps| && SampleAt(ps[j]).Some? ==> SampleAt(ps[k]).value.rtt <= SampleAt(ps[j]).value.rtt) &&
    (forall j :: 0 <= j < k && SampleAt(ps[j]).Some? ==> SampleAt(ps[k]).value.rtt < SampleAt(ps[j]).value.rtt)
  }

  /** Offset and RTT of the first least sample; of none when every RTT reads the maximum. */
  ghost predicate Best(ps: seq<Probe>, rttMin: int64, offset: int64) {
    if rttMin == MAX_INT64 then
      offset == 0 && forall j :: 0 <= j < |ps| && SampleAt(ps[j]).Some? ==> SampleAt(ps[j]).value.rtt == MAX_INT64
    else exists k: nat :: FirstLeast(ps, k) && SampleAt(ps[k]) == Some(Sample(offset, rttMin))
  }

  ghost predicate Latest(ps: seq<Probe>, source: string, synced: bool) {
    exists k :: 0 <= k < |ps| && SampleAt(ps[k]).Some? && ps[k].source == source && ps[k].synced == synced &&
      forall j :: k < j < |ps| ==> SampleAt(ps[j]).None?
  }

  ghost predicate Reports(ps: seq<Probe>, r: Outcome) {
    match r
    case Failed => exists k :: 0 <= k < |ps| && ps[k].FillFailed?
    case NoSuccess => forall k :: 0 <= k < |ps| ==> !ps[k].FillFailed? && SampleAt(ps[k]).None?
    case Estimated(e) =>
      && (forall k :: 0 <= k < |ps| ==> !ps[k].FillFailed?)
      && 0 < e.ok == Successes(ps) && Best(ps, e.rttMin, e.offset) && e.uncertainty == Half(e.rttMin)
      && Latest(ps, e.source, e.synced)
  }

  lemma BestStep(ps: seq<Probe>, p: Probe, rttMin: int64, offset: int64)
    requires Best(ps, rttMin, offset)
    ensures var s := SampleAt(p);
      if s.Some? && s.value.rtt < rttMin then Best(ps + [p], s.value.rtt, s.value.offset)
      else Best(ps + [p], rttMin, offset)
  {
    hide SampleAt;
    var qs, s := ps + [p], SampleAt(p);
    assert forall j :: 0 <= j < |ps| ==> qs[j] == ps[j];
    if s.Some? && s.value.rtt < rttMin {
      assert FirstLeast(qs, |ps|);
    } else if rttMin != MAX_INT64 {
      var k: nat :| FirstLeast(ps, k) && SampleAt(ps[k]) == Some(Sample(offset, rttMin));
      assert FirstLeast(qs, k);
    }
  }

  lemma LatestStep(ps: seq<Probe>, p: Probe, source: string, synced: bool)
    ensures SampleAt(p).Some? ==> Latest(ps + [p], p.source, p.synced)
    ensures SampleAt(p).None? && Latest(ps, source, synced) ==> Latest(ps + [p], source, synced)
  {
    hide ProbeSample;
    var qs := ps + [p];
    if SampleAt(p).Some? {
      assert qs[|ps|] == p;
    } else if Latest(ps, source, synced) {
      var k :| 0 <= k < |ps| && SampleAt(ps[k]).Some? && ps[k].source == source && ps[k].synced == synced &&
        forall j :: k < j < |ps| ==> SampleAt(ps[j]).None?;
      assert qs[k] == ps[k];
    }
  }

  lemma AnySuccess(ps: seq<Probe>, k: nat)
    requires k < |ps| && SampleAt(ps[k]).Some?
    ensures Successes(ps) > 0
  {
    hide SampleAt;
    if k < |ps| - 1 {
      AnySuccess(ps[..|ps| - 1], k);
    }
  }

  method RunProbe(ps: seq<Probe>) returns (r: Outcome)
    ensures Reports(ps, r)
  {
    hide Best, Latest, SampleAt, Half, Successes, Reports;
    var ok, rttMin, offset, source, synced := 0, MAX_INT64, 0, "", false;
    NothingBest();
    for i := 0 to |ps|
      invariant forall k :: 0 <= k < i ==> !ps[k].FillFailed?
      invariant ok == Successes(ps[..i]) && Best(ps[..i], rttMin, offset)
      invariant ok > 0 ==> Latest(ps[..i], source, synced)
    {
      if ps[i].FillFailed? {
        ReportsFailed(ps, i);
        return Failed;
      }
      assert ps[..i + 1] == ps[..i] + [ps[i]];
      BestStep(ps[..i], ps[i], rttMin, offset);
      LatestStep(ps[..i], ps[i], source, synced);
      SuccessesStep(ps[..i], ps[i]);
      var s := SampleAt(ps[i]);
      if s.Some? {
        OnlyReplies(ps[i]);
        ok, source, synced := ok + 1, ps[i].source, ps[i].synced;
        if s.value.rtt < rttMin {
          rttMin, offset := s.value.rtt, s.value.offset;
        }
      }
    }
    assert ps[..|ps|] == ps;
    if ok == 0 {
      ReportsNoSuccess(ps);
      return NoSuccess;
    }
    r := Estimated(Estimate(ok, rttMin, offset, Half(rttMin), source, synced));
    ReportsEstimate(ps, r.e);
  }

  lemma ReportsFailed(ps: seq<Probe>, i: nat)
    requires i < |ps| && ps[i].FillFailed?
    ensures Reports(ps, Failed)
  {
  }

  lemma ReportsNoSuccess(ps: seq<Probe>)
    requires (forall k :: 0 <= k < |ps| ==> !ps[k].FillFailed?) && Successes(ps) == 0
    ensures Reports(ps, NoSuccess)
  {
    hide SampleAt, Successes;
    forall k | 0 <= k < |ps|
      ensures SampleAt(ps[k]).None?
    {
      if SampleAt(ps[k]).Some? {
        AnySuccess(ps, k);
      }
    }
  }

  lemma ReportsEstimate(ps: seq<Probe>, e: Estimate)
    requires (forall k :: 0 <= k < |ps| ==> !ps[k].FillFailed?) && 0 < e.ok == Successes(ps)
    requires Best(ps, e.rttMin, e.offset) && e.uncertainty == Half(e.rttMin) && Latest(ps, e.source, e.synced)
    ensures Reports(ps, Estimated(e))
  {
    hide Best, Latest, Half, Successes;
  }

  lemma SuccessesStep(ps: seq<Probe>, p: Probe)
    ensures Successes(ps + [p]) == Successes(ps) + if SampleAt(p).Some? then 1 else 0
  {
    hide SampleAt;
    assert (ps + [p])[..|ps|] == ps;
  }

  lemma NothingBest()
    ensures Best([], MAX_INT64, 0) && Successes([]) == 0
  {
  }

  lemma OnlyReplies(p: Probe)
    requires SampleAt(p).Some?
    ensures p.Replied?
  {
  }

  /**
   When a round counts and what it yields: a reply with all three timestamps, and the four-timestamp
   formulas in wrapping 64-bit arithmetic with division toward zero.
   */
  lemma SampleMeans(p: Probe)
    ensures SampleAt(p).Some? <==> p.Replied? && p.t1.Some? && p.t2.Some? && p.t3.Some?
    ensures SampleAt(p).Some? ==>
      var t1, t2, t3, t4 := p.t1.value, p.t2.value, p.t3.value, p.t4;
      && SampleAt(p).value.offset == Half(Wrap((t2 - t1) + (t3 - t4)))
      && SampleAt(p).value.rtt == Wrap((t4 - t1) - (t3 - t2))
  {
    if SampleAt(p).Some? {
      SampleFormulas(p.t1.value, p.t2.value, p.t3.value, p.t4);
      hide SampleOf, Wrap, Half;
    }
  }

  lemma SampleFormulas(t1: int64, t2: int64, t3: int64, t4: int64)
    ensures var s := SampleOf(Stamps(t1, t2, t3, t4));
      s.offset == Half(Wrap((t2 - t1) + (t3 - t4))) && s.rtt == Wrap((t4 - t1) - (t3 - t2))
  {
    hide SampleOf, Wrap, Half;
    OffsetIsExact(Stamps(t1, t2, t3, t4));
    RttIsExact(Stamps(t1, t2, t3, t4), 0);
    assert (t4 - t1) - (t3 - t2) == Out(Stamps(t1, t2, t3, t4), 0) + Back(Stamps(t1, t2, t3, t4), 0);
  }

  lemma HalfTruncates(x: int64)
    ensures x == 2 * Half(x) + (if x % 2 == 0 then 0 else if x > 0 then 1 else -1)
  {
  }

  /** The rounds that count. */
  ghost function Counted(ps: seq<Probe>): (r: set<nat>)
    ensures forall k :: k in r <==> 0 <= k < |ps| && SampleAt(ps[k]).Some?
  {
    set k | 0 <= k < |ps| && SampleAt(ps[k]).Some?
  }

  lemma {:induction false} SuccessesCount(ps: seq<Probe>)
    ensures Successes(ps) == |Counted(ps)|
  {
    hide SampleAt;
    if ps == [] {
      assert Counted(ps) == {};
    } else {
      var n := |ps| - 1;
      SuccessesCount(ps[..n]);
      assert Counted(ps) == Counted(ps[..n]) + if SampleAt(ps[n]).Some? then {n} else {};
    }
  }

  // ---- the error bound -----------------------------------------------------------

  /** The server's clock is `theta` ahead, and neither leg of the round took negative time. */
  ghost predicate Causal(s: Stamps, theta: int) {
    Out(s, theta) >= 0 && Back(s, theta) >= 0
  }

  function Out(s: Stamps, theta: int): int {
    s.t2 - s.t1 - theta
  }

  function Back(s: Stamps, theta: int): int {
    s.t4 - s.t3 + theta
  }

  /** Twice the offset, before any wrap-around. */
  function Doubled(s: Stamps): int {
    (s.t2 - s.t1) + (s.t3 - s.t4)
  }

  function Abs(x: int): nat {
    if x < 0 then -x else x
  }

  lemma WrapOnce(x: int, y: int)
    requires (x - y) % TWO64 == 0
    ensures Wrap(x) == Wrap(y)
  {
    SameRemainder(x, y, (x - y) / TWO64);
  }

  lemma SameRemainder(x: int, y: int, q: int)
    requires x - y == q * TWO64
    ensures x % TWO64 == y % TWO64
  {
    var k := q - x / TWO64 + y / TWO64;
    assert x % TWO64 - y % TWO64 == k * TWO64;
    assert -TWO64 < k * TWO64 < TWO64;
    assert k == 0;
  }

  lemma WrapAdds(x: int, y: int)
    ensures Wrap(Wrap(x) + Wrap(y)) == Wrap(x + y) && Wrap(Wrap(x) - Wrap(y)) == Wrap(x - y)
  {
    MultiplesAdd(Wrap(x) - x, Wrap(y) - y);
    WrapOnce(Wrap(x) + Wrap(y), x + y);
    WrapOnce(Wrap(x) - Wrap(y), x - y);
  }

  lemma MultiplesAdd(a: int, b: int)
    requires a % TWO64 == 0 && b % TWO64 == 0
    ensures (a + b) % TWO64 == 0 && (a - b) % TWO64 == 0
  {
    assert a == a / TWO64 * TWO64 && b == b / TWO64 * TWO64;
    assert a + b == (a / TWO64 + b / TWO64) * TWO64 && a - b == (a / TWO64 - b / TWO64) * TWO64;
  }

  /** Only the final values can overflow: inner wrap-arounds cancel. */
  lemma OffsetIsExact(s: Stamps)
    ensures SampleOf(s).offset == Half(Wrap(Doubled(s)))
  {
    hide Wrap, Half;
    WrapAdds(s.t2 - s.t1, s.t3 - s.t4);
  }

  lemma RttIsExact(s: Stamps, theta: int)
    ensures SampleOf(s).rtt == Wrap(Out(s, theta) + Back(s, theta))
  {
    hide Wrap, Half;
    WrapAdds(s.t4 - s.t1, s.t3 - s.t2);
    assert (s.t4 - s.t1) - (s.t3 - s.t2) == Out(s, theta) + Back(s, theta);
  }

  /** Truncation against the exact offset, with legs `a` and `b`. */
  lemma HalfBound(theta: int, a: nat, b: nat, d: int64)
    requires d == 2 * theta + a - b && a + b < TWO63
    ensures Abs(Half(d) - theta) <= Half(a + b) + 1
    ensures Abs(Half(d) - theta) > Half(a + b) <==> (a + b) % 2 == 1 && ((a == 0 && d > 0) || (b == 0 && d < 0))
  {
  }

  /** An overflow moves the offset by 2^63 or more, which no round trip explains. */
  lemma OverflowBreaksBound(theta: int, a: nat, b: nat, d: int, w: int64)
    requires d == 2 * theta + a - b && a + b < TWO63 - 2 && w != d && (w - d) % TWO64 == 0
    ensures Abs(Half(w) - theta) > Half(a + b) + 1
  {
    assert Abs(w - d) >= TWO64;
  }

  /**
   One sample. With a round trip shorter than 2^63 - 2 ns, the offset is within half the round
   trip plus one of the truth exactly when the doubled offset fits 64 bits; it is out by that
   extra one exactly when the round trip is odd, one leg took no time and truncation moves away.
   */
  lemma SampleBound(s: Stamps, theta: int)
    requires Causal(s, theta) && Out(s, theta) + Back(s, theta) < TWO63 - 2
    ensures SampleOf(s).rtt == Out(s, theta) + Back(s, theta)
    ensures Abs(SampleOf(s).offset - theta) <= Half(SampleOf(s).rtt) + 1 <==> -TWO63 <= Doubled(s) < TWO63
    ensures -TWO63 <= Doubled(s) < TWO63 ==>
      (Abs(SampleOf(s).offset - theta) > Half(SampleOf(s).rtt) <==>
        SampleOf(s).rtt % 2 == 1 && ((Out(s, theta) == 0 && Doubled(s) > 0) || (Back(s, theta) == 0 && Doubled(s) < 0)))
  {
    hide SampleOf, Half, Abs;
    OffsetIsExact(s);
    RttIsExact(s, theta);
    var d, w, a, b := Doubled(s), Wrap(Doubled(s)), Out(s, theta), Back(s, theta);
    if -TWO63 <= d < TWO63 {
      HalfBound(theta, a, b, d);
    } else {
      OverflowBreaksBound(theta, a, b, d, w);
    }
  }

  /** All rounds of a probe share one true offset and took less than 2^63 - 2 ns. */
  ghost predicate TrueOffset(ps: seq<Probe>, theta: int) {
    forall k :: 0 <= k < |ps| && SampleAt(ps[k]).Some? ==>
      Causal(StampsOf(ps[k]), theta) && Out(StampsOf(ps[k]), theta) + Back(StampsOf(ps[k]), theta) < TWO63 - 2
  }

  function StampsOf(p: Probe): Stamps
    requires SampleAt(p).Some?
  {
    Stamps(p.t1.value, p.t2.value, p.t3.value, p.t4)
  }

  /**
   Whatever clockProbe reports is one actual sample, the first of least round-trip time; no other
   sample has a smaller bound; and the true offset lies within UncertaintyNs + 1 of OffsetNs
   exactly when that sample's doubled offset fits 64 bits.
   */
  lemma OffsetWithinUncertainty(ps: seq<Probe>, e: Estimate, theta: int) returns (k: nat)
    requires Reports(ps, Estimated(e)) && TrueOffset(ps, theta)
    ensures FirstLeast(ps, k) && SampleAt(ps[k]) == Some(Sample(e.offset, e.rttMin))
    ensures e.rttMin == Out(StampsOf(ps[k]), theta) + Back(StampsOf(ps[k]), theta)
    ensures Abs(e.offset - theta) <= e.uncertainty + 1 <==> -TWO63 <= Doubled(StampsOf(ps[k])) < TWO63
  {
    hide SampleOf, Half, Out, Back, Doubled, Causal;
    if e.rttMin == MAX_INT64 {
      var j :| 0 <= j < |ps| && SampleAt(ps[j]).Some?;
      SampleBound(StampsOf(ps[j]), theta);
    }
    k :| FirstLeast(ps, k) && SampleAt(ps[k]) == Some(Sample(e.offset, e.rttMin));
    SampleBound(StampsOf(ps[k]), theta);
  }

  /** The plain promise, within UncertaintyNs, fails: the server is 1 ns ahead, the reply takes 1 ns. */
  lemma UncertaintyAloneIsTooSmall()
    ensures var s := Stamps(0, 1, 1, 1);
      Causal(s, 1) && SampleOf(s) == Sample(0, 1) && Abs(SampleOf(s).offset - 1) > Half(SampleOf(s).rtt)
  {
    SampleBound(Stamps(0, 1, 1, 1), 1);
  }
}
