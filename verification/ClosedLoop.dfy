/** runClosed: workers that share an atomic sequence counter, in every interleaving. */
module ClosedLoop {
  import opened Sequences

  /** A worker is about to take a number, waiting for the reply to one, or has returned. */
  datatype Worker = Idle | Waiting(i: nat) | Done

  /** `taken` is the counter plus one; `log` lists the numbers whose outcome is recorded. */
  datatype State = State(n: nat, workers: seq<Worker>, taken: nat, log: seq<nat>, good: set<nat>, ok: nat, errs: nat)

  datatype Step = Take(w: nat) | Finish(w: nat, success: bool)

  function Start(n: nat, inflight: nat): State {
    State(n, seq(inflight, _ => Idle), 0, [], {}, 0, 0)
  }

  predicate Enabled(s: State, st: Step) {
    st.w < |s.workers| && match st case Take(w) => s.workers[w].Idle? case Finish(w, _) => s.workers[w].Waiting?
  }

  function Apply(s: State, st: Step): State
    requires Enabled(s, st)
  {
    match st
    case Take(w) =>
      s.(taken := s.taken + 1, workers := s.workers[w := if s.taken >= s.n then Done else Waiting(s.taken)])
    case Finish(w, success) =>
      var i := s.workers[w].i;
      var s1 := s.(workers := s.workers[w := Idle], log := s.log + [i]);
      if success then s1.(ok := s.ok + 1, good := s.good + {i}) else s1.(errs := s.errs + 1)
  }

  predicate Ended(s: State) {
    forall w :: 0 <= w < |s.workers| ==> s.workers[w].Done?
  }

  function Issued(s: State): nat {
    if s.taken < s.n then s.taken else s.n
  }

  ghost predicate InFlight(s: State, i: nat) {
    exists w :: 0 <= w < |s.workers| && s.workers[w] == Waiting(i)
  }

  /** The numbers issued are split between the log and the workers, one place each. */
  ghost predicate Split(s: State) {
    Distinct(s.log) &&
    (forall i :: i in s.log ==> i < Issued(s) && !InFlight(s, i)) &&
    (forall w :: 0 <= w < |s.workers| && s.workers[w].Waiting? ==> s.workers[w].i < Issued(s)) &&
    (forall w, v :: 0 <= w < v < |s.workers| && s.workers[w].Waiting? ==> s.workers[w] != s.workers[v]) &&
    (forall i :: 0 <= i < Issued(s) ==> i in s.log || InFlight(s, i))
  }

  ghost predicate Counted(s: State) {
    s.ok + s.errs == |s.log| && s.ok == |s.good| && (forall i :: i in s.good ==> i in s.log)
  }

  ghost predicate Inv(s: State) {
    Split(s) && Counted(s) && forall w :: 0 <= w < |s.workers| && s.workers[w].Done? ==> s.taken > s.n
  }

  lemma StartSatisfiesInv(n: nat, inflight: nat)
    ensures Inv(Start(n, inflight))
  {
  }

  lemma TakeKeepsSplit(s: State, w: nat)
    requires Inv(s) && Enabled(s, Take(w))
    ensures Split(Apply(s, Take(w)))
  {
    var t := Apply(s, Take(w));
    forall i | InFlight(t, i)
      ensures InFlight(s, i) || (i == s.taken && s.taken < s.n)
    {
      var v :| 0 <= v < |t.workers| && t.workers[v] == Waiting(i);
      assert v != w ==> s.workers[v] == Waiting(i);
    }
    forall i | 0 <= i < Issued(t)
      ensures i in t.log || InFlight(t, i)
    {
      if i == s.taken {
        assert t.workers[w] == Waiting(i);
      } else if i !in s.log {
        var v :| 0 <= v < |s.workers| && s.workers[v] == Waiting(i);
        assert t.workers[v] == Waiting(i);
      }
    }
  }

  lemma FinishKeepsSplit(s: State, w: nat, success: bool)
    requires Inv(s) && Enabled(s, Finish(w, success))
    ensures Split(Apply(s, Finish(w, success)))
  {
    var t, x := Apply(s, Finish(w, success)), s.workers[w].i;
    assert InFlight(s, x);
    forall i | InFlight(t, i)
      ensures InFlight(s, i) && i != x
    {
      var v :| 0 <= v < |t.workers| && t.workers[v] == Waiting(i);
      assert s.workers[v] == Waiting(i) && v != w;
    }
    forall i | 0 <= i < Issued(t)
      ensures i in t.log || InFlight(t, i)
    {
      if i !in s.log && i != x {
        var v :| 0 <= v < |s.workers| && s.workers[v] == Waiting(i);
        assert t.workers[v] == Waiting(i);
      }
    }
  }

  lemma StepKeepsInv(s: State, st: Step)
    requires Inv(s) && Enabled(s, st)
    ensures Inv(Apply(s, st))
  {
    match st
    case Take(w) => TakeKeepsSplit(s, w);
    case Finish(w, success) =>
      FinishKeepsSplit(s, w, success);
      assert InFlight(s, s.workers[w].i);
  }

  ghost predicate Run(ss: seq<State>, sts: seq<Step>, n: nat, inflight: nat) {
    |ss| == |sts| + 1 && ss[0] == Start(n, inflight) &&
    forall i :: 0 <= i < |sts| ==> Enabled(ss[i], sts[i]) && ss[i + 1] == Apply(ss[i], sts[i])
  }

  lemma {:induction false} RunKeepsInv(ss: seq<State>, sts: seq<Step>, n: nat, inflight: nat, k: nat)
    requires Run(ss, sts, n, inflight) && k < |ss|
    ensures Inv(ss[k]) && ss[k].n == n && |ss[k].workers| == inflight && Work(ss[k]) + k == Work(ss[0])
    decreases k
  {
    if k == 0 {
      StartSatisfiesInv(n, inflight);
    } else {
      RunKeepsInv(ss, sts, n, inflight, k - 1);
      assert Enabled(ss[k - 1], sts[k - 1]) && ss[k] == Apply(ss[k - 1], sts[k - 1]);
      StepKeepsInv(ss[k - 1], sts[k - 1]);
      WorkShrinks(ss[k - 1], sts[k - 1]);
    }
  }

  // ---- termination ---------------------------------------------------------------

  /** Steps a worker still owes besides those for numbers not yet taken. */
  function Due(w: Worker): nat {
    match w case Idle => 1 case Waiting(_) => 2 case Done => 0
  }

  function Owed(ws: seq<Worker>): nat {
    if ws == [] then 0
    else Owed(ws[..|ws| - 1]) + Due(ws[|ws| - 1])
  }

  /** The number of steps left, whatever the interleaving. */
  function Work(s: State): nat {
    2 * (s.n - Issued(s)) + Owed(s.workers)
  }

  lemma {:induction false} OwedUpdate(ws: seq<Worker>, w: nat, x: Worker)
    requires w < |ws|
    ensures Owed(ws[w := x]) == Owed(ws) - Due(ws[w]) + Due(x)
  {
    var t := ws[w := x];
    if w == |ws| - 1 {
      assert t[..w] == ws[..w];
    } else {
      assert t[..|ws| - 1] == ws[..|ws| - 1][w := x];
      OwedUpdate(ws[..|ws| - 1], w, x);
    }
  }

  lemma WorkShrinks(s: State, st: Step)
    requires Enabled(s, st)
    ensures Work(Apply(s, st)) == Work(s) - 1
  {
    OwedUpdate(s.workers, st.w, Apply(s, st).workers[st.w]);
  }

  lemma {:induction false} OwedAtStart(k: nat)
    ensures Owed(seq(k, _ => Idle)) == k
  {
    if k > 0 {
      assert seq(k, _ => Idle)[..k - 1] == seq(k - 1, _ => Idle);
      OwedAtStart(k - 1);
    }
  }

  // ---- what a run achieves -------------------------------------------------------

  lemma EndedEachOnce(s: State)
    requires Inv(s) && Ended(s) && s.workers != []
    ensures EachOnce(s.log, s.n) && s.ok + s.errs == s.n
  {
    assert s.workers[0].Done?;
    forall i: nat
      ensures i in s.log <==> i < s.n
    {
      assert !InFlight(s, i);
    }
    DistinctSize(s.log);
    assert Elements(s.log) == Below(s.n);
  }

  /**
   Every interleaving of one or more workers: at any time the recorded and the outstanding numbers
   are exactly those issued; a step is possible until all workers have returned; after exactly
   2n + inflight steps they have, with each number issued once and n outcomes recorded.
   */
  lemma ClosedLoopIssuesEachOnce(ss: seq<State>, sts: seq<Step>, n: nat, inflight: nat, k: nat)
    requires Run(ss, sts, n, inflight) && inflight > 0 && k < |ss|
    ensures Split(ss[k]) && k <= 2 * n + inflight
    ensures Ended(ss[k]) <==> k == 2 * n + inflight
    ensures Ended(ss[k]) ==> EachOnce(ss[k].log, n) && ss[k].ok + ss[k].errs == n
    ensures !Ended(ss[k]) ==> exists st :: Enabled(ss[k], st)
  {
    RunKeepsInv(ss, sts, n, inflight, k);
    OwedAtStart(inflight);
    var s := ss[k];
    if Ended(s) {
      EndedEachOnce(s);
      NothingOwed(s.workers);
      assert s.workers[0].Done?;
    } else {
      var w :| 0 <= w < |s.workers| && !s.workers[w].Done?;
      assert Enabled(s, if s.workers[w].Idle? then Take(w) else Finish(w, true));
      OwedUpdate(s.workers, w, Done);
    }
  }

  lemma {:induction false} NothingOwed(ws: seq<Worker>)
    requires forall w :: 0 <= w < |ws| ==> ws[w].Done?
    ensures Owed(ws) == 0
  {
    if ws != [] {
      NothingOwed(ws[..|ws| - 1]);
    }
  }

  /**
   runClosed under any scheduling: `replies(i)` is whether request i succeeds. Each number is sent
   once, and the successes counted are exactly the requests that succeed.
   */
  method RunClosed(n: nat, inflight: nat, replies: nat -> bool) returns (log: seq<nat>, ok: nat, errs: nat)
    requires inflight > 0
    ensures EachOnce(log, n) && ok + errs == n
    ensures exists good: set<nat> :: |good| == ok && forall i :: i in good <==> 0 <= i < n && replies(i)
  {
    hide Inv, Work;
    var s := Start(n, inflight);
    StartSatisfiesInv(n, inflight);
    while !Ended(s)
      invariant Inv(s) && s.n == n && |s.workers| == inflight
      invariant forall i :: i in s.good <==> i in s.log && replies(i)
      decreases Work(s)
    {
      var w :| 0 <= w < |s.workers| && !s.workers[w].Done?;
      var st := if s.workers[w].Idle? then Take(w) else Finish(w, replies(s.workers[w].i));
      StepKeepsInv(s, st);
      WorkShrinks(s, st);
      s := Apply(s, st);
    }
    EndedEachOnce(s);
    AllCounted(s);
    return s.log, s.ok, s.errs;
  }

  lemma AllCounted(s: State)
    requires Inv(s)
    ensures s.ok == |s.good|
  {
  }
}
