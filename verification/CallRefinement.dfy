/**
 What single calls of the whole system do, in every behaviour: they leave nothing behind in the
 correlator's table, and each is a RetryClient.Call as its method specifies it.
 */
module CallRefinement {
  import opened Wrappers
  import opened Rpc
  import opened Service
  import opened Retry
  import opened EffectivelyOnce

  // ---- the correlator's table ----------------------------------------------------

  predicate InProgress(p: Phase) {
    p == Ready || p == Waiting
  }

  /** Every entry belongs to an attempt in progress, under that attempt's id; ids are not shared. */
  ghost predicate PendingInv(s: System) {
    (forall id :: id in s.pending ==>
       s.pending[id] in s.calls && s.calls[s.pending[id]].id == id && InProgress(s.calls[s.pending[id]].phase)) &&
    (forall c :: c in s.calls ==> s.calls[c].id in s.issued) &&
    (forall c, d :: c in s.calls && d in s.calls && c != d ==> s.calls[c].id != s.calls[d].id)
  }

  /** An attempt is issued under an id nobody has had. */
  lemma IssueKeepsPending(s: System, c: nat, call: Call, req: Request)
    requires PendingInv(s) && call.id !in s.issued && InProgress(call.phase)
    requires c in s.calls ==> !InProgress(s.calls[c].phase)
    ensures PendingInv(s.(calls := s.calls[c := call],
                          issued := s.issued[call.id := req],
                          pending := s.pending[call.id := c]))
  {
    assert call.id !in s.pending;
  }

  /** A call stays in progress, or its entry goes. */
  lemma CallKeepsPending(s: System, t: System, c: nat)
    requires PendingInv(s) && c in s.calls && t.issued == s.issued
    requires c in t.calls && t.calls == s.calls[c := t.calls[c]] && t.calls[c].id == s.calls[c].id
    requires t.pending == s.pending || t.pending == s.pending - {s.calls[c].id}
    requires InProgress(t.calls[c].phase) || s.calls[c].id !in t.pending
    ensures PendingInv(t)
  {
  }

  lemma StepKeepsPending(s: System, st: Step, max: nat)
    requires PendingInv(s) && CanStep(s, st, max)
    ensures PendingInv(Next(s, st, max))
  {
    var t := Next(s, st, max);
    match st {
      case Begin(c, req, key) => IssueKeepsPending(s, c, t.calls[c], t.issued[req.requestId]);
      case Resume(c, id) => IssueKeepsPending(s, c, t.calls[c], t.issued[id]);
      case ServeOne(_, _, _, _) => SamePending(s, t);
      case Crash(_) => SamePending(s, t);
      case DeliverReply(_) => SamePending(s, t);
      case _ =>
        hide PendingInv, Retryable;
        OwnEntry(s, st.c);
        CallKeepsPending(s, t, st.c);
    }
  }

  lemma SamePending(s: System, t: System)
    requires PendingInv(s) && t.calls == s.calls && t.issued == s.issued
    requires forall id :: id in t.pending ==> id in s.pending && t.pending[id] == s.pending[id]
    ensures PendingInv(t)
  {
  }

  /** A call between attempts has no entry. */
  lemma OwnEntry(s: System, c: nat)
    requires PendingInv(s) && c in s.calls
    ensures !InProgress(s.calls[c].phase) ==> s.calls[c].id !in s.pending
  {
  }

  /** In every behaviour a call that has returned, or is between attempts, leaves no entry behind. */
  lemma {:induction false} ReturnedCallsLeaveNoEntry(
      ss: seq<System>, sts: seq<Step>, ttl: int, now: int, max: nat, n: nat)
    requires Behaviour(ss, sts, ttl, now, max) && n < |ss|
    ensures PendingInv(ss[n])
    ensures forall c :: c in ss[n].calls && !InProgress(ss[n].calls[c].phase) ==> ss[n].calls[c].id !in ss[n].pending
    decreases n
  {
    hide CanStep, Next;
    if n > 0 {
      ReturnedCallsLeaveNoEntry(ss, sts, ttl, now, max, n - 1);
      assert CanStep(ss[n - 1], sts[n - 1], max) && ss[n] == Next(ss[n - 1], sts[n - 1], max);
      StepKeepsPending(ss[n - 1], sts[n - 1], max);
    }
  }

  // ---- a call can complete -----------------------------------------------------------

  ghost predicate SentUnder(s: System, id: string) {
    exists r :: r in s.sent && r.requestId == id
  }

  /** Replies answer sent requests; an attempt not yet sent is registered; a waiting one is, or has its reply. */
  ghost predicate Registered(s: System) {
    (forall r :: r in s.replies ==> SentUnder(s, r.requestId)) &&
    (forall r :: r in s.sent ==> r.requestId in s.issued) &&
    (forall c :: c in s.calls ==> Placed(s, c))
  }

  /** The table leads replies to the call's current attempt to the call. */
  predicate Awaits(s: System, c: nat) {
    c in s.calls && s.calls[c].id in s.pending && s.pending[s.calls[c].id] == c
  }

  lemma SentGrows(s: System, t: System, id: string)
    requires SentUnder(s, id) && s.sent <= t.sent
    ensures SentUnder(t, id)
  {
  }

  lemma StepKeepsReplies(s: System, st: Step, max: nat)
    requires Registered(s) && KeyedIds(s) && CanStep(s, st, max)
    ensures var t := Next(s, st, max);
      (forall r :: r in t.replies ==> SentUnder(t, r.requestId)) && forall r :: r in t.sent ==> r.requestId in t.issued
  {
    hide Apply, Ended, Begun, Resumed;
    var t := Next(s, st, max);
    forall r | r in t.replies
      ensures SentUnder(t, r.requestId)
    {
      if r in s.replies {
        SentGrows(s, t, r.requestId);
      } else {
        HandleMeans(s.svc.cache, st.req, st.t0, st.t1, st.result);
        assert st.req in t.sent && st.req.requestId == r.requestId;
      }
    }
  }

  /** A call is where it should be. */
  ghost predicate Placed(s: System, c: nat) {
    (InPhase(s, c, Ready) ==> Awaits(s, c) && !SentUnder(s, s.calls[c].id)) &&
    (InPhase(s, c, Waiting) ==> Awaits(s, c) || s.calls[c].id in s.inbox)
  }

  /** An attempt issued under an id nobody has had. */
  lemma IssuedIsPlaced(s: System, t: System, c: nat)
    requires Registered(s) && t.sent == s.sent && InPhase(t, c, Ready)
    requires t.calls[c].id !in s.issued && t.pending == s.pending[t.calls[c].id := c]
    ensures Placed(t, c)
  {
  }

  /** Somebody else's step, or a delivery: the entry stays or the reply is in the inbox. */
  lemma BystanderIsPlaced(s: System, t: System, c: nat, other: string)
    requires Registered(s) && c in s.calls && c in t.calls && t.calls[c] == s.calls[c] && s.calls[c].id != other
    requires s.inbox.Keys <= t.inbox.Keys
    requires forall id :: id in s.pending && id != other ==> (id in t.pending && t.pending[id] == s.pending[id])
    requires forall r :: r in t.sent ==> r in s.sent || r.requestId == other
    ensures Placed(t, c)
  {
    assert SentUnder(t, t.calls[c].id) ==> SentUnder(s, s.calls[c].id);
  }

  lemma DeliveryKeepsPlaced(s: System, resp: Response, c: nat, max: nat)
    requires Registered(s) && resp in s.replies && c in s.calls
    ensures Placed(Next(s, DeliverReply(resp), max), c)
  {
    var t := Next(s, DeliverReply(resp), max);
    assert SentUnder(s, resp.requestId) && Placed(s, c);
    assert SentUnder(t, t.calls[c].id) ==> SentUnder(s, s.calls[c].id);
  }

  lemma PublishKeepsPlaced(s: System, d: nat, c: nat, max: nat)
    requires Registered(s) && KeyedIds(s) && PendingInv(s) && CanStep(s, Publish(d), max) && c in s.calls
    ensures Placed(Next(s, Publish(d), max), c)
  {
    hide KeyedIds, PendingInv;
    var t := Next(s, Publish(d), max);
    if c != d {
      OthersIds(s, c, d);
      BystanderIsPlaced(s, t, c, s.calls[d].id);
    }
  }

  lemma OthersIds(s: System, c: nat, d: nat)
    requires KeyedIds(s) && PendingInv(s) && c in s.calls && d in s.calls && c != d
    ensures s.calls[c].id != s.calls[d].id && s.calls[d].id in s.issued
    ensures s.issued[s.calls[d].id].requestId == s.calls[d].id
  {
  }

  lemma StepKeepsWaiters(s: System, st: Step, max: nat, c: nat)
    requires Registered(s) && KeyedIds(s) && PendingInv(s) && CanStep(s, st, max) && c in Next(s, st, max).calls
    ensures Placed(Next(s, st, max), c)
  {
    hide Registered, KeyedIds, PendingInv, Placed, Apply, Handle, Ended;
    var t := Next(s, st, max);
    match st {
      case Begin(d, _, _) =>
        if c == d {
          IssuedIsPlaced(s, t, c);
        } else {
          FreshId(s, c, st.req.requestId);
          BystanderIsPlaced(s, t, c, st.req.requestId);
        }
      case Resume(d, id) =>
        if c == d {
          IssuedIsPlaced(s, t, c);
        } else {
          FreshId(s, c, id);
          BystanderIsPlaced(s, t, c, id);
        }
      case Publish(d) => PublishKeepsPlaced(s, d, c, max);
      case DeliverReply(resp) => DeliveryKeepsPlaced(s, resp, c, max);
      case ServeOne(_, _, _, _) => UntouchedIsPlaced(s, t, c);
      case Crash(_) => UntouchedIsPlaced(s, t, c);
      case _ =>
        if c == st.c {
          EndedIsPlaced(s, st, max);
        } else {
          OthersIds(s, c, st.c);
          BystanderIsPlaced(s, t, c, s.calls[st.c].id);
        }
    }
  }

  lemma FreshId(s: System, c: nat, id: string)
    requires PendingInv(s) && c in s.calls && id !in s.issued
    ensures s.calls[c].id != id
  {
  }

  lemma UntouchedIsPlaced(s: System, t: System, c: nat)
    requires Registered(s) && t.calls == s.calls && t.pending == s.pending && t.inbox == s.inbox && t.sent == s.sent
    ensures Placed(t, c)
  {
  }

  lemma EndedIsPlaced(s: System, st: Step, max: nat)
    requires EndsAttempt(st) && CanStep(s, st, max)
    ensures Placed(Next(s, st, max), st.c)
  {
    hide Retryable;
  }

  lemma {:induction false} CallsAreRegistered(ss: seq<System>, sts: seq<Step>, ttl: int, now: int, max: nat, n: nat)
    requires Behaviour(ss, sts, ttl, now, max) && n < |ss|
    ensures Registered(ss[n])
    decreases n
  {
    if n > 0 {
      hide CanStep, Next, SystemInv;
      var s, st := ss[n - 1], sts[n - 1];
      assert CanStep(s, st, max) && ss[n - 1 + 1] == Next(s, st, max);
      CallsAreRegistered(ss, sts, ttl, now, max, n - 1);
      BehaviourKeepsInv(ss, sts, ttl, now, max, n - 1);
      ReturnedCallsLeaveNoEntry(ss, sts, ttl, now, max, n - 1);
      IdsAreKeyed(s);
      StepKeepsReplies(s, st, max);
      forall c | c in ss[n].calls
        ensures Placed(ss[n], c)
      {
        StepKeepsWaiters(s, st, max, c);
      }
    }
  }

  lemma IdsAreKeyed(s: System)
    requires SystemInv(s)
    ensures KeyedIds(s)
  {
  }

  /** The call holds this response and has returned, or backs off if it is transient and an attempt is left. */
  predicate Holds(s: System, c: nat, resp: Response, attempt: nat, max: nat) {
    && c in s.calls && s.calls[c].last == Outcome(Some(resp), None) && s.calls[c].attempt == attempt
    && s.calls[c].phase ==
         (if (resp.status == Timeout || resp.status == Unavailable) && attempt != max then BackingOff else Done)
    && s.calls[c].id !in s.pending
  }

  /** A reply to a waiting call can be delivered and received, and then the call holds it. */
  lemma ReplyReachesCall(s: System, c: nat, resp: Response, max: nat)
    requires InPhase(s, c, Waiting) && Awaits(s, c) && resp in s.replies && resp.requestId == s.calls[c].id
    ensures CanStep(s, DeliverReply(resp), max)
    ensures CanStep(Next(s, DeliverReply(resp), max), Receive(c), max)
    ensures Holds(Next(Next(s, DeliverReply(resp), max), Receive(c), max), c, resp, s.calls[c].attempt, max)
  {
  }

  /**
   In every behaviour an attempt about to be sent can be: published, served with whatever the method
   does, its reply delivered and received. The call then holds exactly the service's answer to it.
   */
  lemma CallCanComplete(
      ss: seq<System>, sts: seq<Step>, ttl: int, now: int, max: nat, n: nat,
      c: nat, t0: int, t1: int, result: MethodResult)
    returns (published: System, served: System, delivered: System, done: System, resp: Response)
    requires Behaviour(ss, sts, ttl, now, max) && n < |ss| && InPhase(ss[n], c, Ready) && ss[n].svc.now <= t0 <= t1
    ensures resp == Handle(ss[n].svc.cache, Sending(ss[n].calls[c]), t0, t1, result).resp
    ensures CanStep(ss[n], Publish(c), max) && published == Next(ss[n], Publish(c), max)
    ensures var serve := ServeOne(Sending(ss[n].calls[c]), t0, t1, result);
      CanStep(published, serve, max) && served == Next(published, serve, max)
    ensures CanStep(served, DeliverReply(resp), max) && delivered == Next(served, DeliverReply(resp), max)
    ensures CanStep(delivered, Receive(c), max) && done == Next(delivered, Receive(c), max)
    ensures Holds(done, c, resp, ss[n].calls[c].attempt, max)
  {
    var s, call := ss[n], ss[n].calls[c];
    BehaviourKeepsInv(ss, sts, ttl, now, max, n);
    CallsAreRegistered(ss, sts, ttl, now, max, n);
    hide SystemInv, Registered, Behaviour, Holds;
    IdsAreKeyed(s);
    AnswerAddressed(s.svc.cache, Sending(call), t0, t1, result);
    ReadyAwaits(s, c);
    hide Handle, Retryable, Apply, SentUnder;
    resp := Handle(s.svc.cache, Sending(call), t0, t1, result).resp;
    published := Next(s, Publish(c), max);
    served := Next(published, ServeOne(Sending(call), t0, t1, result), max);
    ReplyReachesCall(served, c, resp, max);
    delivered := Next(served, DeliverReply(resp), max);
    done := Next(delivered, Receive(c), max);
  }

  lemma ReadyAwaits(s: System, c: nat)
    requires Registered(s) && InPhase(s, c, Ready)
    ensures Awaits(s, c)
  {
  }

  lemma AnswerAddressed(cache: Cache, req: Request, t0: int, t1: int, result: MethodResult)
    ensures Handle(cache, req, t0, t1, result).resp.requestId == req.requestId
  {
    HandleMeans(cache, req, t0, t1, result);
  }

  // ---- every call is a RetryClient.Call --------------------------------------------

  /** The finished attempts: the caller's request under one key, ids minted after the first, retryable but the last. */
  ghost predicate Tried(call: Call, max: nat) {
    && call.key != "" && (call.orig.idempotencyKey != "" ==> call.key == call.orig.idempotencyKey)
    && (call.attempt == 1 ==> call.id == call.orig.requestId) && (call.attempt > 1 ==> call.id != "")
    && (forall i :: 0 <= i < |call.tried| ==>
          call.tried[i].req == call.orig.(requestId := call.tried[i].req.requestId, idempotencyKey := call.key))
    && (forall i :: 1 <= i < |call.tried| ==> call.tried[i].req.requestId != "")
    && (|call.tried| > 0 ==> call.tried[0].req.requestId == call.orig.requestId)
    && (forall i :: 0 <= i < |call.tried| - 1 ==> Retryable(call.tried[i].outcome))
  }

  ghost predicate RetryInv(call: Call, max: nat) {
    && Tried(call, max) && 1 <= call.attempt <= max
    && |call.tried| == (if InProgress(call.phase) then call.attempt - 1 else call.attempt)
    && (!InProgress(call.phase) ==> call.tried[call.attempt - 1].outcome == call.last)
    && (call.phase == BackingOff ==> call.attempt < max && Retryable(call.last))
    && (InProgress(call.phase) && call.attempt > 1 ==> Retryable(call.tried[call.attempt - 2].outcome))
  }

  lemma BegunRetries(req: Request, key: string, max: nat)
    requires max >= 1 && key != "" && (req.idempotencyKey != "" ==> key == req.idempotencyKey)
    ensures RetryInv(Begun(req, key), max)
  {
  }

  lemma EndedRetries(call: Call, o: Outcome, max: nat)
    requires RetryInv(call, max) && InProgress(call.phase)
    ensures RetryInv(Ended(call, o, max), max)
  {
    hide Retryable;
  }

  lemma ResumedRetries(call: Call, id: string, max: nat)
    requires RetryInv(call, max) && call.phase == BackingOff && id != ""
    ensures RetryInv(Resumed(call, id), max)
  {
    hide Retryable;
  }

  lemma MovedRetries(call: Call, p: Phase, max: nat)
    requires RetryInv(call, max) && ((call.phase == Ready && p == Waiting) || (call.phase == BackingOff && p == Done))
    ensures RetryInv(call.(phase := p), max)
  {
    hide Retryable;
  }

  lemma StepKeepsRetry(s: System, st: Step, max: nat, c: nat)
    requires CanStep(s, st, max) && max >= 1 && c in Next(s, st, max).calls
    requires c in s.calls ==> RetryInv(s.calls[c], max)
    ensures RetryInv(Next(s, st, max).calls[c], max)
  {
    hide Apply, Handle, RetryInv, Begun, Ended, Resumed;
    match st {
      case Begin(d, req, key) => BegunRetries(req, key, max);
      case Publish(d) =>
        if d == c {
          MovedRetries(s.calls[c], Waiting, max);
        }
      case PublishFails(d, err, _) =>
        if d == c {
          EndedRetries(s.calls[c], Outcome(None, Some(err)), max);
        }
      case Receive(d) =>
        if d == c {
          EndedRetries(s.calls[c], Outcome(Some(s.inbox[s.calls[c].id]), None), max);
        }
      case ContextEnds(d, err) =>
        if d == c {
          EndedRetries(s.calls[c], Outcome(None, Some(err)), max);
        }
      case Resume(d, id) =>
        if d == c {
          ResumedRetries(s.calls[c], id, max);
        }
      case GiveUp(d) =>
        if d == c {
          MovedRetries(s.calls[c], Done, max);
        }
      case _ =>
    }
  }

  lemma {:induction false} CallsRetry(ss: seq<System>, sts: seq<Step>, ttl: int, now: int, max: nat, n: nat, c: nat)
    requires Behaviour(ss, sts, ttl, now, max) && n < |ss| && max >= 1 && c in ss[n].calls
    ensures RetryInv(ss[n].calls[c], max)
    decreases n
  {
    hide CanStep, Next, RetryInv;
    if n > 0 {
      assert CanStep(ss[n - 1], sts[n - 1], max) && ss[n] == Next(ss[n - 1], sts[n - 1], max);
      if c in ss[n - 1].calls {
        CallsRetry(ss, sts, ttl, now, max, n - 1, c);
      }
      StepKeepsRetry(ss[n - 1], sts[n - 1], max, c);
    }
  }

  /** In every behaviour no call makes more than `max` attempts, nor starts with none. */
  lemma AttemptsBounded(ss: seq<System>, sts: seq<Step>, ttl: int, now: int, max: nat, n: nat, c: nat)
    requires Behaviour(ss, sts, ttl, now, max) && n < |ss| && max >= 1 && c in ss[n].calls
    ensures 1 <= ss[n].calls[c].attempt <= max
  {
    CallsRetry(ss, sts, ttl, now, max, n, c);
  }

  function Requests(tried: seq<Try>): seq<Request> {
    seq(|tried|, i requires 0 <= i < |tried| => tried[i].req)
  }

  /** The world in which RetryClient.Call does what this call did. */
  function WorldOf(call: Call): World {
    World(i => if 1 < i <= |call.tried| then call.tried[i - 1].req.requestId else call.key,
          (i, _) => if 1 <= i <= |call.tried| then call.tried[i - 1].outcome else Outcome(None, None),
          (_, r) => r,
          i => i < |call.tried|)
  }

  lemma WorldSends(call: Call, max: nat)
    requires RetryInv(call, max) && call.phase == Done
    ensures Sends(WorldOf(call), call.orig, Requests(call.tried)) && MintsIds(WorldOf(call))
  {
    hide Retryable;
    var w, sent := WorldOf(call), Requests(call.tried);
    forall i | 0 <= i < |sent|
      ensures sent[i] ==
        call.orig.(requestId := if i == 0 then call.orig.requestId else w.mint(i + 1), idempotencyKey := call.key)
    {
      assert i > 0 ==> w.mint(i + 1) == call.tried[i].req.requestId;
    }
  }

  lemma WorldGoesOn(call: Call, max: nat)
    requires RetryInv(call, max) && call.phase == Done
    ensures var w, sent := WorldOf(call), Requests(call.tried);
      |sent| == call.attempt && GoesOn(w, sent, |sent| - 1) && w.inner(|sent|, sent[|sent| - 1]) == call.last
  {
    hide Retryable;
    var w, sent := WorldOf(call), Requests(call.tried);
    forall i | 0 <= i < |sent|
      ensures w.inner(i + 1, sent[i]) == call.tried[i].outcome && (i < |sent| - 1 ==> Retried(w, sent[i], i + 1))
    {
    }
  }

  /**
   Refinement: in every behaviour a call that has returned made exactly the attempts, and returns
   exactly the outcome, that RetryClient.Call makes and returns in some world.
   */
  lemma ReturnedCallIsARetryCall(ss: seq<System>, sts: seq<Step>, ttl: int, now: int, max: nat, n: nat, c: nat)
    requires Behaviour(ss, sts, ttl, now, max) && n < |ss| && max >= 1 && InPhase(ss[n], c, Done)
    ensures var call := ss[n].calls[c]; var w := WorldOf(call);
      MintsIds(w) && IsCall(w, call.orig, max, Requests(call.tried), call.last)
  {
    hide Retryable, RetryInv, Sends, GoesOn, Requests;
    CallsRetry(ss, sts, ttl, now, max, n, c);
    var call := ss[n].calls[c];
    WorldSends(call, max);
    WorldGoesOn(call, max);
    LimitHolds(call, max);
  }

  lemma LimitHolds(call: Call, max: nat)
    requires RetryInv(call, max)
    ensures 1 <= call.attempt <= max && (call.phase == Done ==> !WorldOf(call).awake(call.attempt))
  {
  }
}
