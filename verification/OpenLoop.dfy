/**
 openPass: a sender on a fixed schedule draws jobs from a channel of `inflight` and hands each to a
 new goroutine, which records one outcome and then puts the job back; in every interleaving.
 */
module OpenLoop {
  import opened Sequences

  /** The goroutine of one request: waiting for the reply, outcome recorded, or job put back. */
  datatype Phase = Sending | Recorded | Returned
  datatype Request = Request(job: nat, phase: Phase)

  predicate Running(r: Request) {
    !r.phase.Returned?
  }

  /**
   Request number i is `requests[i]`. `held` is the job the sender has drawn and not yet handed on.
   `free` is the channel, oldest first. `late` and `sent` are the series' counters.
   */
  datatype Pass = Pass(
    inflight: nat, interval: nat, duration: int,
    free: seq<nat>, held: seq<nat>, requests: seq<Request>, log: seq<nat>, late: nat, sent: nat)

  /** One millisecond: how far behind its instant a request may be handed on without counting as late. */
  const LATE_THRESHOLD := 1_000_000

  /** `lag` is how far behind its intended instant, in nanoseconds, the sender hands a request on. */
  datatype Move =
    | Draw
    | Launch(lag: int)
    | Record(i: nat)
    | PutBack(i: nat)

  /** `raw` is the truncated quotient of one second by the rate. */
  function Begin(inflight: nat, raw: int, duration: int): Pass {
    Pass(inflight, if raw < 1 then 1 else raw, duration, seq(inflight, i => i), [], [], [], 0, 0)
  }

  /** The next intended instant is before the deadline. */
  predicate Due(s: Pass) {
    |s.requests| * s.interval < s.duration
  }

  predicate Possible(s: Pass, m: Move) {
    match m
    case Draw => s.held == [] && s.free != [] && Due(s)
    case Launch(_) => |s.held| == 1
    case Record(i) => i < |s.requests| && s.requests[i].phase.Sending?
    case PutBack(i) => i < |s.requests| && s.requests[i].phase.Recorded? && |s.free| < s.inflight
  }

  function Moved(s: Pass, m: Move): Pass
    requires Possible(s, m)
  {
    match m
    case Draw => s.(free := s.free[1..], held := [s.free[0]])
    case Launch(lag) =>
      s.(held := [],
         requests := s.requests + [Request(s.held[0], Sending)],
         late := s.late + if lag > LATE_THRESHOLD then 1 else 0)
    case Record(i) =>
      s.(requests := s.requests[i := s.requests[i].(phase := Recorded)], log := s.log + [i], sent := s.sent + 1)
    case PutBack(i) =>
      s.(requests := s.requests[i := s.requests[i].(phase := Returned)], free := s.free + [s.requests[i].job])
  }

  /** The sender has reached its deadline and every goroutine is done. */
  predicate Over(s: Pass) {
    s.held == [] && !Due(s) && forall i :: 0 <= i < |s.requests| ==> s.requests[i].phase.Returned?
  }

  // ---- where the jobs are ----------------------------------------------------------

  /** The jobs of goroutines that have not put theirs back. */
  function Owned(rs: seq<Request>): multiset<nat> {
    if rs == [] then multiset{} else Owned(rs[..|rs| - 1]) + Own(rs[|rs| - 1])
  }

  function Own(r: Request): multiset<nat> {
    if r.phase.Returned? then multiset{} else multiset{r.job}
  }

  /** Every job, wherever it is: in the channel, with the sender, or with a goroutine. */
  function Jobs(s: Pass): multiset<nat> {
    multiset(s.free) + multiset(s.held) + Owned(s.requests)
  }

  /** One each of 0, 1, ..., k - 1. */
  ghost function OneEach(k: nat): (r: multiset<nat>)
    ensures |r| == k && forall x: nat :: r[x] == if x < k then 1 else 0
  {
    if k == 0 then multiset{} else OneEach(k - 1) + multiset{k - 1}
  }

  lemma {:induction false} OneEachIsRange(k: nat)
    ensures multiset(seq(k, i => i)) == OneEach(k)
  {
    if k > 0 {
      assert seq(k, i => i) == seq(k - 1, i => i) + [k - 1];
      OneEachIsRange(k - 1);
    }
  }

  lemma {:induction false} OwnedUpdate(rs: seq<Request>, i: nat, r: Request)
    requires i < |rs|
    ensures Own(rs[i]) <= Owned(rs) && Owned(rs[i := r]) == Owned(rs) - Own(rs[i]) + Own(r)
  {
    var t, n := rs[i := r], |rs| - 1;
    if i == n {
      assert t[..n] == rs[..n];
    } else {
      assert t[..n] == rs[..n][i := r];
      OwnedUpdate(rs[..n], i, r);
    }
  }

  lemma OwnedAppend(rs: seq<Request>, r: Request)
    ensures Owned(rs + [r]) == Owned(rs) + Own(r)
  {
    assert (rs + [r])[..|rs|] == rs;
  }

  lemma {:induction false} NothingOwned(rs: seq<Request>)
    requires forall i :: 0 <= i < |rs| ==> rs[i].phase.Returned?
    ensures Owned(rs) == multiset{}
  {
    if rs != [] {
      NothingOwned(rs[..|rs| - 1]);
    }
  }

  // ---- the invariant ---------------------------------------------------------------

  /** The numbers recorded, once each, are those of requests past sending. */
  ghost predicate Logged(s: Pass) {
    Distinct(s.log) && s.sent == |s.log| &&
    forall i :: i in s.log <==> 0 <= i < |s.requests| && !s.requests[i].phase.Sending?
  }

  /** The number of intended instants before the deadline: duration / interval, rounded up. */
  function Instants(interval: nat, duration: int): nat
    requires interval > 0
  {
    if duration <= 0 then 0 else (duration + interval - 1) / interval
  }

  lemma {:induction false} TimesMonotone(a: int, b: int, c: nat)
    requires a <= b
    ensures a * c <= b * c
  {
    assert (b - a) * c >= 0;
  }

  /** Instant `k` is before the deadline exactly for k below that number. */
  lemma InstantsCount(interval: nat, duration: int, k: nat)
    requires interval > 0
    ensures k * interval < duration <==> k < Instants(interval, duration)
  {
    if duration > 0 {
      var m := Instants(interval, duration);
      assert (m - 1) * interval < duration <= m * interval;
      if k < m {
        TimesMonotone(k, m - 1, interval);
      } else {
        TimesMonotone(m, k, interval);
      }
    }
  }

  ghost predicate PassInv(s: Pass) {
    s.interval > 0 && |s.held| <= 1 && Jobs(s) == OneEach(s.inflight) && Logged(s) &&
    s.late <= |s.requests| && |s.requests| + |s.held| <= Instants(s.interval, s.duration)
  }

  lemma BeginSatisfiesInv(inflight: nat, raw: int, duration: int)
    ensures PassInv(Begin(inflight, raw, duration))
  {
    OneEachIsRange(inflight);
  }

  lemma HandOver(a: seq<nat>, x: nat)
    ensures multiset([x] + a) == multiset{x} + multiset(a) && multiset(a + [x]) == multiset(a) + multiset{x}
  {
  }

  /** A job moved from one holder to another changes no total. */
  lemma Regroup(f: multiset<nat>, h: multiset<nat>, o: multiset<nat>, x: multiset<nat>)
    requires x <= o
    ensures (f + x) + h + (o - x) == f + h + o
  {
  }

  lemma DrawKeepsJobs(s: Pass)
    requires Possible(s, Draw)
    ensures Jobs(Moved(s, Draw)) == Jobs(s)
  {
    hide Owned;
    assert s.free == [s.free[0]] + s.free[1..];
    HandOver(s.free[1..], s.free[0]);
    assert multiset(s.free) + multiset(s.held) == multiset(s.free[1..]) + multiset([s.free[0]]);
  }

  lemma LaunchKeepsJobs(s: Pass, lag: int)
    requires Possible(s, Launch(lag))
    ensures Jobs(Moved(s, Launch(lag))) == Jobs(s)
  {
    hide Owned;
    assert s.held == [s.held[0]];
    OwnedAppend(s.requests, Request(s.held[0], Sending));
  }

  lemma PutBackKeepsJobs(s: Pass, i: nat)
    requires Possible(s, PutBack(i))
    ensures Jobs(Moved(s, PutBack(i))) == Jobs(s)
  {
    hide Owned;
    var x := s.requests[i].job;
    OwnedUpdate(s.requests, i, s.requests[i].(phase := Returned));
    assert Owned(Moved(s, PutBack(i)).requests) == Owned(s.requests) - multiset{x};
    HandOver(s.free, x);
    Regroup(multiset(s.free), multiset(s.held), Owned(s.requests), multiset{x});
  }

  lemma RecordKeepsJobs(s: Pass, i: nat)
    requires Possible(s, Record(i))
    ensures Jobs(Moved(s, Record(i))) == Jobs(s)
  {
    hide Owned;
    OwnedUpdate(s.requests, i, s.requests[i].(phase := Recorded));
    assert Owned(Moved(s, Record(i)).requests) == Owned(s.requests);
  }

  lemma MoveKeepsJobs(s: Pass, m: Move)
    requires Possible(s, m)
    ensures Jobs(Moved(s, m)) == Jobs(s)
  {
    hide Jobs, Moved;
    match m
    case Draw => DrawKeepsJobs(s);
    case Launch(lag) => LaunchKeepsJobs(s, lag);
    case Record(i) => RecordKeepsJobs(s, i);
    case PutBack(i) => PutBackKeepsJobs(s, i);
  }

  lemma MoveKeepsLog(s: Pass, m: Move)
    requires PassInv(s) && Possible(s, m)
    ensures Logged(Moved(s, m))
  {
    hide Owned, OneEach;
    var t := Moved(s, m);
    assert forall i :: 0 <= i < |s.requests| && (m.Record? ==> i != m.i) ==>
      t.requests[i].phase.Sending? == s.requests[i].phase.Sending?;
  }

  lemma MoveKeepsInv(s: Pass, m: Move)
    requires PassInv(s) && Possible(s, m)
    ensures PassInv(Moved(s, m))
  {
    hide Owned, OneEach, Logged;
    MoveKeepsJobs(s, m);
    MoveKeepsLog(s, m);
    InstantsCount(s.interval, s.duration, |s.requests|);
  }

  // ---- every pass ------------------------------------------------------------------

  function Returns(rs: seq<Request>): nat {
    if rs == [] then 0 else Returns(rs[..|rs| - 1]) + if rs[|rs| - 1].phase.Returned? then 1 else 0
  }

  lemma {:induction false} ReturnsUpdate(rs: seq<Request>, i: nat, r: Request)
    requires i < |rs|
    ensures Returns(rs[i := r]) ==
      Returns(rs) - (if rs[i].phase.Returned? then 1 else 0) + (if r.phase.Returned? then 1 else 0)
    ensures Returns(rs) <= |rs|
  {
    var t, n := rs[i := r], |rs| - 1;
    if i == n {
      assert t[..n] == rs[..n];
      ReturnsBound(rs);
    } else {
      assert t[..n] == rs[..n][i := r];
      ReturnsUpdate(rs[..n], i, r);
    }
  }

  lemma {:induction false} ReturnsBound(rs: seq<Request>)
    ensures Returns(rs) <= |rs|
    ensures Returns(rs) == |rs| <==> forall i :: 0 <= i < |rs| ==> rs[i].phase.Returned?
  {
    if rs != [] {
      ReturnsBound(rs[..|rs| - 1]);
    }
  }

  /** How many moves led here: each request takes a draw, a launch, a record and a put-back. */
  function Moves(s: Pass): nat {
    2 * |s.requests| + |s.held| + |s.log| + Returns(s.requests)
  }

  lemma MovesGrow(s: Pass, m: Move)
    requires Possible(s, m)
    ensures Moves(Moved(s, m)) == Moves(s) + 1
  {
    match m
    case Draw =>
    case Launch(_) => assert Moved(s, m).requests[..|s.requests|] == s.requests;
    case Record(i) => ReturnsUpdate(s.requests, i, s.requests[i].(phase := Recorded));
    case PutBack(i) => ReturnsUpdate(s.requests, i, s.requests[i].(phase := Returned));
  }

  /** The log is no longer than the requests, and as long exactly when none is still sending. */
  lemma LogSize(s: Pass)
    requires Logged(s)
    ensures |s.log| <= |s.requests|
    ensures (forall i :: 0 <= i < |s.requests| ==> !s.requests[i].phase.Sending?) ==> EachOnce(s.log, |s.requests|)
  {
    DistinctSize(s.log);
    assert Elements(s.log) <= Below(|s.requests|);
    SubsetSize(Elements(s.log), Below(|s.requests|));
    if forall i :: 0 <= i < |s.requests| ==> !s.requests[i].phase.Sending? {
      assert Elements(s.log) == Below(|s.requests|);
    }
  }

  /** A goroutine that owns a job never blocks putting it back, and no two own the same one. */
  lemma JobsApart(s: Pass, i: nat, j: nat)
    requires PassInv(s) && i < j < |s.requests| && Running(s.requests[i]) && Running(s.requests[j])
    ensures s.requests[i].job != s.requests[j].job
  {
    var none := Request(0, Returned);
    OwnedUpdate(s.requests, i, none);
    OwnedUpdate(s.requests[i := none], j, none);
    var x := s.requests[i].job;
    assert Owned(s.requests)[x] <= Jobs(s)[x];
  }

  lemma RoomToPutBack(s: Pass, i: nat)
    requires PassInv(s) && i < |s.requests| && !s.requests[i].phase.Returned?
    ensures |s.free| < s.inflight && s.requests[i].job !in s.free && s.requests[i].job !in s.held
  {
    OwnedUpdate(s.requests, i, s.requests[i]);
    var x := s.requests[i].job;
    assert x in Owned(s.requests);
    assert Jobs(s)[x] <= 1;
    assert |Jobs(s)| == |s.free| + |s.held| + |Owned(s.requests)|;
  }

  lemma SomeMove(s: Pass)
    requires PassInv(s) && s.inflight > 0 && !Over(s)
    ensures exists m :: Possible(s, m)
  {
    if s.held != [] {
      assert Possible(s, Launch(0));
    } else if i :| 0 <= i < |s.requests| && !s.requests[i].phase.Returned? {
      RoomToPutBack(s, i);
      assert Possible(s, if s.requests[i].phase.Sending? then Record(i) else PutBack(i));
    } else {
      NothingOwned(s.requests);
      assert |Jobs(s)| == |s.free|;
      assert Possible(s, Draw);
    }
  }

  ghost predicate PassRun(ss: seq<Pass>, ms: seq<Move>, inflight: nat, raw: int, duration: int) {
    |ss| == |ms| + 1 && ss[0] == Begin(inflight, raw, duration) &&
    forall i :: 0 <= i < |ms| ==> Possible(ss[i], ms[i]) && ss[i + 1] == Moved(ss[i], ms[i])
  }

  lemma {:induction false} PassKeepsInv(ss: seq<Pass>, ms: seq<Move>, inflight: nat, raw: int, duration: int, k: nat)
    requires PassRun(ss, ms, inflight, raw, duration) && k < |ss|
    ensures PassInv(ss[k]) && Moves(ss[k]) == k
    ensures ss[k].inflight == inflight && ss[k].interval == ss[0].interval && ss[k].duration == duration
    decreases k
  {
    hide PassInv, Moves, Returns;
    if k == 0 {
      BeginSatisfiesInv(inflight, raw, duration);
      NoMoves(inflight, raw, duration);
    } else {
      PassKeepsInv(ss, ms, inflight, raw, duration, k - 1);
      assert Possible(ss[k - 1], ms[k - 1]) && ss[k] == Moved(ss[k - 1], ms[k - 1]);
      MoveKeepsInv(ss[k - 1], ms[k - 1]);
      MovesGrow(ss[k - 1], ms[k - 1]);
    }
  }

  lemma NoMoves(inflight: nat, raw: int, duration: int)
    ensures Moves(Begin(inflight, raw, duration)) == 0
  {
  }

  /**
   Every interleaving of an open-loop pass, at every moment: at most `inflight` requests are
   outstanding, no job has two owners, late <= dispatched; some move is possible until the pass is
   over, which it is after exactly four moves per instant, with each number sent and recorded once.
   */
  lemma OpenLoopDispatchesEachOnce(ss: seq<Pass>, ms: seq<Move>, inflight: nat, raw: int, duration: int, k: nat)
    requires PassRun(ss, ms, inflight, raw, duration) && inflight > 0 && k < |ss|
    ensures var (s, n) := (ss[k], Instants(if raw < 1 then 1 else raw, duration));
      && |Owned(s.requests)| <= inflight && s.late <= |s.requests| <= n
      && (forall i, j :: 0 <= i < j < |s.requests| && Running(s.requests[i]) && Running(s.requests[j]) ==>
            s.requests[i].job != s.requests[j].job)
      && (!Over(s) ==> exists m :: Possible(s, m))
      && (Over(s) <==> k == 4 * n)
      && (Over(s) ==> |s.requests| == n && EachOnce(s.log, n) && s.late <= s.sent == n)
  {
    hide Owned, Returns, Logged;
    var s, n := ss[k], Instants(if raw < 1 then 1 else raw, duration);
    PassKeepsInv(ss, ms, inflight, raw, duration, k);
    assert |Jobs(s)| == |s.free| + |s.held| + |Owned(s.requests)|;
    forall i, j | 0 <= i < j < |s.requests| && Running(s.requests[i]) && Running(s.requests[j])
      ensures s.requests[i].job != s.requests[j].job
    {
      JobsApart(s, i, j);
    }
    if !Over(s) {
      SomeMove(s);
    }
    OverExactly(s);
  }

  lemma OverExactly(s: Pass)
    requires PassInv(s)
    ensures Over(s) <==> Moves(s) == 4 * Instants(s.interval, s.duration)
    ensures Over(s) ==> |s.requests| == Instants(s.interval, s.duration) && EachOnce(s.log, |s.requests|)
    ensures s.sent == |s.log|
  {
    hide Returns, Jobs, Distinct;
    InstantsCount(s.interval, s.duration, |s.requests|);
    LogSize(s);
    ReturnsBound(s.requests);
  }

  /** openPass under any scheduling; `lag(i)` is what the clock says when request i is handed on. */
  method OpenPass(inflight: nat, raw: int, duration: int, lag: nat -> int)
      returns (log: seq<nat>, late: nat, sent: nat)
    requires inflight > 0
    ensures var n := Instants(if raw < 1 then 1 else raw, duration);
      EachOnce(log, n) && sent == n && late == Behind(lag, n) <= sent
  {
    hide PassInv, Moves, Moved;
    var s := Begin(inflight, raw, duration);
    BeginSatisfiesInv(inflight, raw, duration);
    while !Over(s)
      invariant PassInv(s) && s.inflight == inflight && s.duration == duration
      invariant s.late == Behind(lag, |s.requests|)
      invariant s.interval == if raw < 1 then 1 else raw
      decreases 4 * Instants(s.interval, s.duration) - Moves(s)
    {
      MovesBound(s);
      var choice: bool := *;
      var sender := choice || forall i :: 0 <= i < |s.requests| ==> s.requests[i].phase.Returned?;
      var m;
      if s.held != [] && sender {
        HeldIsOne(s);
        m := Launch(lag(|s.requests|));
      } else if s.held == [] && s.free != [] && Due(s) && sender {
        m := Draw;
      } else {
        Unfinished(s);
        var i :| 0 <= i < |s.requests| && !s.requests[i].phase.Returned?;
        RoomToPutBack(s, i);
        m := if s.requests[i].phase.Sending? then Record(i) else PutBack(i);
      }
      MoveKeepsInv(s, m);
      MovesGrow(s, m);
      MovedKeepsPlan(s, m);
      MovedCountsLate(s, m);
      MovesBound(Moved(s, m));
      s := Moved(s, m);
    }
    OverExactly(s);
    LateBound(s);
    return s.log, s.late, s.sent;
  }

  /** How many of the first `n` requests are handed on more than a millisecond late. */
  function Behind(lag: nat -> int, n: nat): nat {
    if n == 0 then 0 else Behind(lag, n - 1) + if lag(n - 1) > 1_000_000 then 1 else 0
  }

  lemma MovedCountsLate(s: Pass, m: Move)
    requires Possible(s, m)
    ensures var t := Moved(s, m);
      if m.Launch? then
        |t.requests| == |s.requests| + 1 && t.late == s.late + (if m.lag > 1_000_000 then 1 else 0)
      else |t.requests| == |s.requests| && t.late == s.late
  {
  }

  /** The requests a run of moves hands on late. */
  function LateMoves(ms: seq<Move>): nat {
    if ms == [] then 0
    else
      var m := ms[|ms| - 1];
      LateMoves(ms[..|ms| - 1]) + if m.Launch? && m.lag > 1_000_000 then 1 else 0
  }

  /** In every interleaving the counter is exactly the number of requests handed on late. */
  lemma {:induction false} LateIsCounted(ss: seq<Pass>, ms: seq<Move>, inflight: nat, raw: int, duration: int, k: nat)
    requires PassRun(ss, ms, inflight, raw, duration) && k < |ss|
    ensures ss[k].late == LateMoves(ms[..k])
    decreases k
  {
    if k > 0 {
      LateIsCounted(ss, ms, inflight, raw, duration, k - 1);
      assert Possible(ss[k - 1], ms[k - 1]) && ss[k - 1 + 1] == Moved(ss[k - 1], ms[k - 1]);
      MovedCountsLate(ss[k - 1], ms[k - 1]);
      assert ms[..k][..k - 1] == ms[..k - 1];
    }
  }

  lemma MovesBound(s: Pass)
    requires PassInv(s)
    ensures s.interval > 0 && Moves(s) <= 4 * Instants(s.interval, s.duration)
  {
    hide Jobs, Returns;
    LogSize(s);
    ReturnsBound(s.requests);
  }

  lemma HeldIsOne(s: Pass)
    requires PassInv(s) && s.held != []
    ensures |s.held| == 1
  {
  }

  lemma MovedKeepsPlan(s: Pass, m: Move)
    requires Possible(s, m)
    ensures var t := Moved(s, m); t.inflight == s.inflight && t.interval == s.interval && t.duration == s.duration
  {
  }

  /** With no job to draw or hand on and the pass not over, some goroutine is still running. */
  lemma Unfinished(s: Pass)
    requires PassInv(s) && s.inflight > 0 && !Over(s) && (s.held == [] ==> s.free == [] || !Due(s) || Busy(s))
    requires s.held != [] ==> Busy(s)
    ensures Busy(s)
  {
    if !Busy(s) {
      NothingOwned(s.requests);
    }
  }

  ghost predicate Busy(s: Pass) {
    exists i :: 0 <= i < |s.requests| && !s.requests[i].phase.Returned?
  }

  lemma LateBound(s: Pass)
    requires PassInv(s)
    ensures s.late <= |s.requests|
  {
  }
}
