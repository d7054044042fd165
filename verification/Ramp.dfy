/** The saturation ramp: doubling rates until a step no longer holds. Rates are exact numbers. */
module Ramp {
  const MAX_RAMP_STEPS: nat := 24
  const P99_MULT := 10
  const LATE_FRAC := 0.01

  /** What one open-loop pass measures. */
  datatype Measured = Measured(p99: int, late: nat, sent: nat, elapsed: nat)

  /** `pass(i, rate)` is the measurement of step i; a step's series is named by its index. */
  type Pass = (nat, real) -> Measured

  datatype Verdict = Verdict(floor: int, knee: real, stopRate: real, reason: string)

  function LateFrac(m: Measured): real {
    if m.sent > 0 then m.late as real / m.sent as real else 0.0
  }

  /** Both bounds are strict, the p99 bound applies only to a positive floor and wins when both are breached. */
  function StepSustainable(p99: int, floor: int, lateFrac: real): (r: (bool, string))
    ensures r.0 <==> (floor <= 0 || p99 <= P99_MULT * floor) && lateFrac <= LATE_FRAC
    ensures r.1 == "p99" <==> !r.0 && floor > 0 && p99 > P99_MULT * floor
    ensures r.1 == "late" <==> !r.0 && (floor <= 0 || p99 <= P99_MULT * floor)
    ensures r.1 == "" <==> r.0
  {
    if floor > 0 && p99 > P99_MULT * floor then (false, "p99")
    else if lateFrac > LATE_FRAC then (false, "late")
    else (true, "")
  }

  function Pow2(i: nat): real {
    if i == 0 then 1.0 else 2.0 * Pow2(i - 1)
  }

  function Rate(base: real, i: nat): real {
    base * Pow2(i)
  }

  /** The configured floor, or the first step's p99 when none is configured. */
  function Floor(base: real, floor: int, pass: Pass): int {
    if floor <= 0 then pass(0, Rate(base, 0)).p99 else floor
  }

  function Judge(base: real, floor: int, pass: Pass, i: nat): (bool, string) {
    var m := pass(i, Rate(base, i));
    StepSustainable(m.p99, Floor(base, floor, pass), LateFrac(m))
  }

  predicate Holds(base: real, floor: int, pass: Pass, i: nat) {
    Judge(base, floor, pass, i).0
  }

  function Elapsed(base: real, pass: Pass, k: nat): nat {
    if k == 0 then 0 else Elapsed(base, pass, k - 1) + pass(k - 1, Rate(base, k - 1)).elapsed
  }

  /** `k` is the first step that does not hold, or the cap when the first 24 all do. */
  ghost predicate StopsAt(base: real, floor: int, pass: Pass, k: nat) {
    k <= MAX_RAMP_STEPS && (forall i :: 0 <= i < k ==> Holds(base, floor, pass, i)) &&
    (k < MAX_RAMP_STEPS ==> !Holds(base, floor, pass, k))
  }

  /** The verdict and the series reported for a ramp that stops at `k`. */
  ghost predicate Reported(base: real, floor: int, pass: Pass, k: nat, reported: nat, v: Verdict, total: nat) {
    v.floor == Floor(base, floor, pass) && total == Elapsed(base, pass, if k < MAX_RAMP_STEPS then k + 1 else k) &&
    if k == 0 then v.knee == 0.0 && v.stopRate == base && reported == 0 && v.reason == Judge(base, floor, pass, 0).1
    else if k < MAX_RAMP_STEPS then
      v.knee == Rate(base, k - 1) && v.stopRate == 2.0 * v.knee && reported == k - 1 &&
      v.reason == Judge(base, floor, pass, k).1
    else v.knee == Rate(base, k - 1) && v.stopRate == v.knee && reported == k - 1 && v.reason == "cap"
  }

  /** For every measurement function. `k` is where the ramp stops. */
  method RunRamp(base: real, floor: int, pass: Pass) returns (total: nat, reported: nat, v: Verdict, k: nat)
    ensures StopsAt(base, floor, pass, k) && Reported(base, floor, pass, k, reported, v, total)
    ensures k <= 24 && (v.reason == "cap" <==> k == 24)
  {
    hide Pow2;
    var fl := floor;
    v := Verdict(fl, 0.0, 0.0, "");
    total, k := 0, 0;
    var knee: int, last: int, capHit := -1, -1, true;
    for i := 0 to MAX_RAMP_STEPS
      invariant k == i && capHit && knee == last == i - 1 && total == Elapsed(base, pass, i)
      invariant forall j :: 0 <= j < i ==> Holds(base, floor, pass, j)
      invariant i == 0 ==> v == Verdict(floor, 0.0, 0.0, "") && fl == floor
      invariant i > 0 ==> v == Verdict(fl, Rate(base, i - 1), 0.0, "") && fl == Floor(base, floor, pass)
    {
      var rate := Rate(base, i);
      var m := pass(i, rate);
      total := total + m.elapsed;
      last := i;
      if fl <= 0 && i == 0 {
        fl := m.p99;
        v := v.(floor := fl);
      }
      var verdict := StepSustainable(m.p99, fl, LateFrac(m));
      assert verdict == Judge(base, floor, pass, i);
      if !verdict.0 {
        v := v.(stopRate := rate, reason := verdict.1);
        capHit := false;
        break;
      }
      v := v.(knee := rate);
      knee, k := i, i + 1;
    }
    if capHit {
      v := v.(reason := "cap", stopRate := v.knee);
    }
    if knee == -1 {
      knee := last;
    }
    reported := knee;
    Doubles(base, k);
  }

  /**
   When a step holds, in the measured numbers: its p99 is at most ten times the floor, unless there
   is no floor, and at most one request in a hundred was late. The floor is the configured one, or
   the p99 of the first step, at the base rate.
   */
  lemma HoldsMeans(base: real, floor: int, pass: Pass, i: nat)
    ensures var m, fl := pass(i, Rate(base, i)), if floor > 0 then floor else pass(0, base).p99;
      && Floor(base, floor, pass) == fl
      && (Holds(base, floor, pass, i) <==> (fl <= 0 || m.p99 <= 10 * fl) && (m.sent == 0 || 100 * m.late <= m.sent))
      && (Judge(base, floor, pass, i).1 == "p99" <==> fl > 0 && m.p99 > 10 * fl)
  {
    hide Pow2;
    Doubles(base, 0);
    LateMeans(pass(i, Rate(base, i)));
  }

  lemma RatioAtMost(a: real, b: real, c: real)
    requires b > 0.0
    ensures a / b <= c <==> a <= c * b
  {
    var q := a / b;
    assert a == q * b;
    if q <= c {
      assert (c - q) * b >= 0.0;
    } else {
      assert (q - c) * b > 0.0;
    }
  }

  lemma LateMeans(m: Measured)
    ensures LateFrac(m) <= LATE_FRAC <==> m.sent == 0 || 100 * m.late <= m.sent
  {
    if m.sent > 0 {
      RatioAtMost(m.late as real, m.sent as real, 0.01);
      assert m.late as real <= 0.01 * m.sent as real <==> 100 * m.late <= m.sent;
    }
  }

  function Total(ds: seq<nat>): nat {
    if ds == [] then 0 else Total(ds[..|ds| - 1]) + ds[|ds| - 1]
  }

  function TimeOf(base: real, pass: Pass, i: nat): nat {
    pass(i, Rate(base, i)).elapsed
  }

  /** The elapsed time is that of all passes together. */
  lemma {:induction false} ElapsedIsTotal(base: real, pass: Pass, k: nat)
    ensures Elapsed(base, pass, k) == Total(seq(k, i requires 0 <= i < k => TimeOf(base, pass, i)))
  {
    if k > 0 {
      ElapsedIsTotal(base, pass, k - 1);
      var ds := seq(k, i requires 0 <= i < k => TimeOf(base, pass, i));
      assert ds[..k - 1] == seq(k - 1, i requires 0 <= i < k - 1 => TimeOf(base, pass, i));
    }
  }

  lemma Doubles(base: real, k: nat)
    ensures Rate(base, 0) == base && (k > 0 ==> Rate(base, k) == 2.0 * Rate(base, k - 1))
  {
  }

  /** A floor taken from the first step is never breached by that step: only lateness can stop it there. */
  lemma MeasuredFloorStopsOnLate(base: real, floor: int, pass: Pass, reported: nat, v: Verdict, total: nat)
    requires floor <= 0 && StopsAt(base, floor, pass, 0) && Reported(base, floor, pass, 0, reported, v, total)
    ensures v.reason == "late"
  {
    assert !Holds(base, floor, pass, 0);
  }

  lemma {:induction false} RatesGrow(base: real, i: nat, j: nat)
    requires base > 0.0 && i < j
    ensures 0.0 < Rate(base, i) < Rate(base, j)
    decreases j
  {
    PowersArePositive(i);
    PowersArePositive(j - 1);
    Doubles(base, j);
    assert Rate(base, i) > 0.0 && Rate(base, j - 1) > 0.0;
    if i < j - 1 {
      RatesGrow(base, i, j - 1);
    }
  }

  lemma {:induction false} PowersArePositive(i: nat)
    ensures Pow2(i) > 0.0
  {
    if i > 0 {
      PowersArePositive(i - 1);
    }
  }

  /**
   When a rate that saturates keeps saturating as the load doubles, the knee separates the offered
   rates: a step within the cap is sustainable exactly when its rate is at most the knee.
   */
  lemma KneeSeparates(base: real, floor: int, pass: Pass, k: nat, reported: nat, v: Verdict, total: nat, i: nat)
    requires base > 0.0 && StopsAt(base, floor, pass, k) && Reported(base, floor, pass, k, reported, v, total)
    requires forall j :: 0 <= j < MAX_RAMP_STEPS - 1 && !Holds(base, floor, pass, j) ==>
      !Holds(base, floor, pass, j + 1)
    requires i < MAX_RAMP_STEPS
    ensures Holds(base, floor, pass, i) <==> Rate(base, i) <= v.knee
  {
    hide Rate, Holds;
    if k <= i {
      StaysSaturated(base, floor, pass, k, i);
      if k > 0 {
        RatesGrow(base, k - 1, i);
      } else {
        RatesGrow(base, i, i + 1);
      }
    } else if i < k - 1 {
      RatesGrow(base, i, k - 1);
    }
  }

  lemma {:induction false} StaysSaturated(base: real, floor: int, pass: Pass, k: nat, i: nat)
    requires k <= i < MAX_RAMP_STEPS && !Holds(base, floor, pass, k)
    requires forall j :: 0 <= j < MAX_RAMP_STEPS - 1 && !Holds(base, floor, pass, j) ==>
      !Holds(base, floor, pass, j + 1)
    ensures !Holds(base, floor, pass, i)
    decreases i
  {
    hide Holds;
    if k < i {
      StaysSaturated(base, floor, pass, k, i - 1);
      assert !Holds(base, floor, pass, i - 1 + 1);
    }
  }
}
