/**
 The whole request path as one step system: retrying callers, a correlator matching replies
 by request id, a transport that loses, delays, reorders and duplicates, and the idempotent
 service. Sent requests and published replies stay available for ever, so serving one twice,
 late, out of order or never are all runs of the system.
 */
module EffectivelyOnce {
  import opened Wrappers
  import opened Rpc
  import opened Service

  datatype Phase = Ready | Waiting | BackingOff | Done

  /** A finished attempt. */
  datatype Try = Try(req: Request, outcome: Outcome)

  /**
   One RetryClient.Call for the caller's request `orig`: the attempt in progress, its request id,
   the last outcome, and all finished attempts.
   */
  datatype Call = Call(
    orig: Request, key: string, attempt: nat, id: string, phase: Phase, last: Outcome, tried: seq<Try>)

  datatype System = System(
    svc: Svc,
    calls: map<nat, Call>,
    issued: map<string, Request>,
    sent: set<Request>,
    replies: set<Response>,
    pending: map<string, nat>,
    inbox: map<string, Response>)

  /** A publish may fail after the request was persisted (`landed`). */
  datatype Step =
    | Begin(c: nat, req: Request, key: string)
    | Publish(c: nat)
    | PublishFails(c: nat, err: Error, landed: bool)
    | ServeOne(req: Request, t0: int, t1: int, result: MethodResult)
    | Crash(at: int)
    | DeliverReply(resp: Response)
    | Receive(c: nat)
    | ContextEnds(c: nat, err: Error)
    | Resume(c: nat, id: string)
    | GiveUp(c: nat)

  function Initial(ttl: int, now: int): System {
    System(StartService(ttl, now), map[], map[], {}, {}, map[], map[])
  }

  predicate InPhase(s: System, c: nat, p: Phase) {
    c in s.calls && s.calls[c].phase == p
  }

  /** Request ids are minted: none is issued twice. An absent key is minted too. */
  predicate CanStep(s: System, st: Step, max: nat) {
    match st
    case Begin(c, req, key) =>
      c !in s.calls && req.requestId !in s.issued && key != "" &&
      (req.idempotencyKey != "" ==> key == req.idempotencyKey)
    case Publish(c) => InPhase(s, c, Ready) && s.calls[c].id in s.issued
    case PublishFails(c, _, _) => InPhase(s, c, Ready) && s.calls[c].id in s.issued
    case ServeOne(req, t0, t1, result) => req in s.sent && Enabled(s.svc, Serve(req, t0, t1, result))
    case Crash(at) => Enabled(s.svc, Restart(at))
    case DeliverReply(resp) => resp in s.replies
    case Receive(c) => InPhase(s, c, Waiting) && s.calls[c].id in s.inbox
    case ContextEnds(c, _) => InPhase(s, c, Waiting)
    case Resume(c, id) => InPhase(s, c, BackingOff) && id != "" && id !in s.issued
    case GiveUp(c) => InPhase(s, c, BackingOff)
  }

  /** The end of an attempt: the deferred cancel, then return or back off. */
  function EndAttempt(s: System, c: nat, o: Outcome, max: nat): System
    requires c in s.calls
  {
    s.(calls := s.calls[c := Ended(s.calls[c], o, max)], pending := s.pending - {s.calls[c].id})
  }

  function Ended(call: Call, o: Outcome, max: nat): Call {
    call.(phase := if !Retryable(o) || call.attempt == max then Done else BackingOff,
          last := o,
          tried := call.tried + [Try(Sending(call), o)])
  }

  function Begun(req: Request, key: string): Call {
    Call(req, key, 1, req.requestId, Ready, Outcome(None, None), [])
  }

  function Resumed(call: Call, id: string): Call {
    call.(attempt := call.attempt + 1, id := id, phase := Ready)
  }

  /** The clone the current attempt sends. */
  function Sending(call: Call): Request {
    call.orig.(requestId := call.id, idempotencyKey := call.key)
  }

  function Next(s: System, st: Step, max: nat): System
    requires CanStep(s, st, max)
  {
    match st
    case Begin(c, req, key) =>
      s.(calls := s.calls[c := Begun(req, key)],
         issued := s.issued[req.requestId := req.(idempotencyKey := key)],
         pending := s.pending[req.requestId := c])
    case Publish(c) =>
      s.(calls := s.calls[c := s.calls[c].(phase := Waiting)], sent := s.sent + {s.issued[s.calls[c].id]})
    case PublishFails(c, err, landed) =>
      var s1 := if landed then s.(sent := s.sent + {s.issued[s.calls[c].id]}) else s;
      EndAttempt(s1, c, Outcome(None, Some(err)), max)
    case ServeOne(req, t0, t1, result) =>
      s.(svc := Apply(s.svc, Serve(req, t0, t1, result)),
         replies := s.replies + {Handle(s.svc.cache, req, t0, t1, result).resp})
    case Crash(at) => s.(svc := Apply(s.svc, Restart(at)))
    case DeliverReply(resp) =>
      if resp.requestId in s.pending then
        s.(pending := s.pending - {resp.requestId}, inbox := s.inbox[resp.requestId := resp])
      else s
    case Receive(c) => EndAttempt(s, c, Outcome(Some(s.inbox[s.calls[c].id]), None), max)
    case ContextEnds(c, err) => EndAttempt(s, c, Outcome(None, Some(err)), max)
    case Resume(c, id) =>
      s.(calls := s.calls[c := Resumed(s.calls[c], id)],
         issued := s.issued[id := Sending(Resumed(s.calls[c], id))],
         pending := s.pending[id := c])
    case GiveUp(c) => s.(calls := s.calls[c := s.calls[c].(phase := Done)])
  }

  // ---- invariants --------------------------------------------------------------

  /** `payload` is what an OK execution of `key` answered. */
  ghost predicate Answered(log: seq<Execution>, key: string, payload: Option<string>) {
    exists i :: 0 <= i < |log| && log[i].key == key && CompletedOK(log[i]) && log[i].resp.payload == payload
  }

  /** A genuine reply: it answers an issued request, and an OK one carries an execution's payload. */
  ghost predicate Genuine(s: System, resp: Response) {
    resp.requestId in s.issued &&
    (resp.status == OK ==> Answered(s.svc.log, s.issued[resp.requestId].idempotencyKey, resp.payload))
  }

  ghost predicate KeyedIds(s: System) {
    (forall id :: id in s.issued ==> s.issued[id].requestId == id && s.issued[id].idempotencyKey != "") &&
    (forall r :: r in s.sent ==> r.requestId in s.issued && s.issued[r.requestId] == r) &&
    (forall c :: c in s.calls ==> s.calls[c].id in s.issued && s.issued[s.calls[c].id] == Sending(s.calls[c])) &&
    (forall c :: c in s.calls ==> s.calls[c].key != "")
  }

  ghost predicate GenuineReplies(s: System) {
    (forall r :: r in s.replies ==> Genuine(s, r)) &&
    (forall id :: id in s.inbox ==> s.inbox[id].requestId == id && Genuine(s, s.inbox[id]))
  }

  /** The response a finished attempt holds is addressed to that attempt. */
  ghost predicate GenuineOutcome(s: System, call: Call) {
    call.last.resp.Some? && call.phase != Ready && call.phase != Waiting ==>
      call.last.resp.value.requestId == call.id && Genuine(s, call.last.resp.value)
  }

  ghost predicate SystemInv(s: System) {
    Inv(s.svc) && KeyedIds(s) && GenuineReplies(s) && forall c :: c in s.calls ==> GenuineOutcome(s, s.calls[c])
  }

  /** Ids, replies and outcomes survive when ids are only added and the log only grows. */
  lemma GenuineGrows(s: System, s': System, resp: Response)
    requires Genuine(s, resp)
    requires forall id :: id in s.issued ==> id in s'.issued && s'.issued[id] == s.issued[id]
    requires s.svc.log <= s'.svc.log
    ensures Genuine(s', resp)
  {
    if resp.status == OK {
      var key := s.issued[resp.requestId].idempotencyKey;
      var i :| 0 <= i < |s.svc.log| && s.svc.log[i].key == key && CompletedOK(s.svc.log[i]) &&
               s.svc.log[i].resp.payload == resp.payload;
      assert s'.svc.log[i] == s.svc.log[i];
    }
  }

  /** The wrapper answers the request it was given, from an execution of that request's key. */
  lemma ServedReplyIsGenuine(s: System, st: Step, max: nat)
    requires Inv(s.svc) && KeyedIds(s) && st.ServeOne? && CanStep(s, st, max)
    ensures Genuine(Next(s, st, max), Handle(s.svc.cache, st.req, st.t0, st.t1, st.result).resp)
  {
    var s', h := Next(s, st, max), Handle(s.svc.cache, st.req, st.t0, st.t1, st.result);
    var key := st.req.idempotencyKey;
    if h.executed {
      var n := |s.svc.log|;
      assert s'.svc.log[n].key == key && s'.svc.log[n].resp == h.resp;
    } else {
      assert key in s.svc.cache.entries && s.svc.cache.ttl > 0;
      assert FromLog(s.svc, key);
      var i :| Guarded(s.svc, i) && s.svc.log[i].key == key &&
               s.svc.cache.entries[key] == Cached(s.svc.log[i].resp, s.svc.log[i].end + s.svc.cache.ttl);
      assert s'.svc.log[i].resp.payload == h.resp.payload;
    }
  }

  lemma LogGrows(s: Svc, e: Event)
    requires Enabled(s, e)
    ensures s.log <= Apply(s, e).log
  {
  }

  lemma ServeKeepsInv(s: System, st: Step, max: nat)
    requires SystemInv(s) && (st.ServeOne? || st.Crash?) && CanStep(s, st, max)
    ensures SystemInv(Next(s, st, max))
  {
    hide Handle, Inv, Genuine;
    var s' := Next(s, st, max);
    var e := if st.ServeOne? then Serve(st.req, st.t0, st.t1, st.result) else Restart(st.at);
    ApplyKeepsInv(s.svc, e);
    LogGrows(s.svc, e);
    if st.ServeOne? {
      ServedReplyIsGenuine(s, st, max);
    }
    forall r | Genuine(s, r) ensures Genuine(s', r) {
      GenuineGrows(s, s', r);
    }
  }

  predicate EndsAttempt(st: Step) {
    st.PublishFails? || st.Receive? || st.ContextEnds? || st.GiveUp?
  }

  /** Changing only where one call stands keeps the invariant, if its outcome is genuine. */
  lemma CallUpdateKeepsInv(s: System, c: nat, call: Call, sent: set<Request>, pending: map<string, nat>)
    requires SystemInv(s) && c in s.calls && Sending(call) == Sending(s.calls[c]) && call.key == s.calls[c].key
    requires GenuineOutcome(s, call)
    requires forall r :: r in sent ==> r in s.sent || r == s.issued[call.id]
    ensures SystemInv(s.(calls := s.calls[c := call], sent := sent, pending := pending))
  {
    hide Inv, Answered;
    var s' := s.(calls := s.calls[c := call], sent := sent, pending := pending);
    assert forall r :: Genuine(s, r) <==> Genuine(s', r);
  }

  lemma EndAttemptKeepsInv(s: System, st: Step, max: nat)
    requires SystemInv(s) && EndsAttempt(st) && CanStep(s, st, max)
    ensures SystemInv(Next(s, st, max))
  {
    hide Inv, Genuine;
    var s' := Next(s, st, max);
    CallUpdateKeepsInv(s, st.c, s'.calls[st.c], s'.sent, s'.pending);
  }

  /** `s` after call `c` issues an attempt. */
  function Issued(s: System, c: nat, call: Call, pending: map<string, nat>): System {
    s.(calls := s.calls[c := call], issued := s.issued[call.id := Sending(call)], pending := pending)
  }

  lemma IssueKeepsKeys(s: System, c: nat, call: Call, pending: map<string, nat>)
    requires KeyedIds(s) && call.id !in s.issued && call.key != ""
    ensures KeyedIds(Issued(s, c, call, pending))
  {
    hide Sending;
    assert Sending(call).requestId == call.id && Sending(call).idempotencyKey == call.key by {
      SendingIsKeyed(call);
    }
  }

  lemma SendingIsKeyed(call: Call)
    ensures Sending(call).requestId == call.id && Sending(call).idempotencyKey == call.key
  {
  }

  lemma IssueUpdateKeepsInv(s: System, c: nat, call: Call, pending: map<string, nat>)
    requires SystemInv(s) && call.id !in s.issued && call.key != "" && call.phase == Ready
    ensures SystemInv(Issued(s, c, call, pending))
  {
    IssueKeepsKeys(s, c, call, pending);
    hide Inv, Genuine, KeyedIds, Sending;
    var s' := Issued(s, c, call, pending);
    forall r | Genuine(s, r) ensures Genuine(s', r) {
      GenuineGrows(s, s', r);
    }
    forall d | d in s'.calls ensures GenuineOutcome(s', s'.calls[d]) {
      assert d != c ==> GenuineOutcome(s, s.calls[d]);
    }
  }

  lemma IssueKeepsInv(s: System, st: Step, max: nat)
    requires SystemInv(s) && (st.Begin? || st.Resume?) && CanStep(s, st, max)
    ensures SystemInv(Next(s, st, max))
  {
    if st.Begin? {
      BegunSends(st.req, st.key);
      IssueUpdateKeepsInv(s, st.c, Begun(st.req, st.key), s.pending[st.req.requestId := st.c]);
    } else {
      assert s.calls[st.c].key != "";
      IssueUpdateKeepsInv(s, st.c, Resumed(s.calls[st.c], st.id), s.pending[st.id := st.c]);
    }
    hide SystemInv;
  }

  lemma BegunSends(req: Request, key: string)
    ensures Sending(Begun(req, key)) == req.(idempotencyKey := key)
  {
  }

  lemma MoveKeepsInv(s: System, st: Step, max: nat)
    requires SystemInv(s) && (st.Publish? || st.DeliverReply?) && CanStep(s, st, max)
    ensures SystemInv(Next(s, st, max))
  {
    var s' := Next(s, st, max);
    if st.Publish? {
      hide Inv, Genuine, Sending;
      CallUpdateKeepsInv(s, st.c, s'.calls[st.c], s'.sent, s'.pending);
    } else {
      DeliverKeepsInv(s, st.resp, s'.pending);
    }
  }

  lemma DeliverKeepsInv(s: System, resp: Response, pending: map<string, nat>)
    requires SystemInv(s) && resp in s.replies
    ensures SystemInv(s.(pending := pending, inbox := s.inbox[resp.requestId := resp]))
    ensures SystemInv(s.(pending := pending))
  {
    hide Inv, Answered, Sending;
    var t := s.(pending := pending, inbox := s.inbox[resp.requestId := resp]);
    assert forall r :: Genuine(s, r) <==> Genuine(t, r);
    assert forall r :: Genuine(s, r) <==> Genuine(s.(pending := pending), r);
  }

  ghost predicate Behaviour(ss: seq<System>, sts: seq<Step>, ttl: int, now: int, max: nat) {
    |ss| == |sts| + 1 && ss[0] == Initial(ttl, now) &&
    forall i :: 0 <= i < |sts| ==> CanStep(ss[i], sts[i], max) && ss[i + 1] == Next(ss[i], sts[i], max)
  }

  lemma {:induction false} BehaviourKeepsInv(ss: seq<System>, sts: seq<Step>, ttl: int, now: int, max: nat, n: nat)
    requires Behaviour(ss, sts, ttl, now, max) && n < |ss|
    ensures SystemInv(ss[n]) && ss[n].svc.cache.ttl == ttl
    decreases n
  {
    hide SystemInv, CanStep, Next;
    if n == 0 {
      InitialSatisfiesInv(ttl, now);
    } else {
      BehaviourKeepsInv(ss, sts, ttl, now, max, n - 1);
      var st := sts[n - 1];
      assert CanStep(ss[n - 1], st, max) && ss[n] == Next(ss[n - 1], st, max);
      TtlIsFixed(ss[n - 1], st, max);
      if st.ServeOne? || st.Crash? {
        ServeKeepsInv(ss[n - 1], st, max);
      } else if EndsAttempt(st) {
        EndAttemptKeepsInv(ss[n - 1], st, max);
      } else if st.Begin? || st.Resume? {
        IssueKeepsInv(ss[n - 1], st, max);
      } else {
        MoveKeepsInv(ss[n - 1], st, max);
      }
    }
  }

  lemma InitialSatisfiesInv(ttl: int, now: int)
    ensures SystemInv(Initial(ttl, now)) && Initial(ttl, now).svc.cache.ttl == ttl
  {
  }

  lemma TtlIsFixed(s: System, st: Step, max: nat)
    requires CanStep(s, st, max)
    ensures Next(s, st, max).svc.cache.ttl == s.svc.cache.ttl
  {
  }

  // ---- the guarantee -----------------------------------------------------------

  /** In every behaviour, restarts and any uptime included, OK completions of a key in one life are a ttl apart. */
  lemma AtMostOnce(ss: seq<System>, sts: seq<Step>, ttl: int, now: int, max: nat, n: nat, i: nat, j: nat)
    requires Behaviour(ss, sts, ttl, now, max) && ttl > 0 && n < |ss|
    requires var log := ss[n].svc.log; i < j < |log| && Rivals(log[i], log[j])
    ensures ss[n].svc.log[j].start > ss[n].svc.log[i].end + ttl
  {
    hide Rivals;
    BehaviourKeepsInv(ss, sts, ttl, now, max, n);
  }

  /** Execution `i` is an OK one of `key`, and no other of its life is within a ttl of it. */
  ghost predicate AloneInTtl(log: seq<Execution>, ttl: int, key: string, i: nat) {
    i < |log| && log[i].key == key && CompletedOK(log[i]) &&
    forall j :: 0 <= j < |log| && j != i && Rivals(log[i], log[j]) ==>
      log[j].start > log[i].end + ttl || log[i].start > log[j].end + ttl
  }

  /** Every OK execution of `key` was in the current life, its ttl not passed yet. */
  ghost predicate CurrentWithinTtl(s: Svc, key: string) {
    forall i :: 0 <= i < |s.log| && s.log[i].key == key && CompletedOK(s.log[i]) ==>
      s.log[i].life == s.life && s.now <= s.log[i].end + s.cache.ttl
  }

  ghost predicate TheExecution(log: seq<Execution>, key: string, i: int) {
    0 <= i < |log| && log[i].key == key && CompletedOK(log[i]) &&
    forall j :: 0 <= j < |log| && log[j].key == key && CompletedOK(log[j]) ==> j == i
  }

  /**
   In every behaviour, when a call has returned with an OK response: the response carries the id of
   the attempt that returned and the payload of an OK execution of the call's key, which no other
   one of its service life is within a ttl of. While the key is current that execution is the only one.
   */
  lemma EffectivelyOnce(ss: seq<System>, sts: seq<Step>, ttl: int, now: int, max: nat, n: nat, c: nat) returns (i: nat)
    requires Behaviour(ss, sts, ttl, now, max) && ttl > 0 && n < |ss|
    requires InPhase(ss[n], c, Done)
    requires var last := ss[n].calls[c].last; last.resp.Some? && last.resp.value.status == OK
    ensures var call, log := ss[n].calls[c], ss[n].svc.log; var resp := call.last.resp.value;
      && resp.requestId == call.id && call.key != ""
      && AloneInTtl(log, ttl, call.key, i) && log[i].resp.payload == resp.payload
      && (CurrentWithinTtl(ss[n].svc, call.key) ==> TheExecution(log, call.key, i))
  {
    hide Covered, FromLog;
    BehaviourKeepsInv(ss, sts, ttl, now, max, n);
    var s, call := ss[n], ss[n].calls[c];
    assert GenuineOutcome(s, call);
    i :| 0 <= i < |s.svc.log| && s.svc.log[i].key == call.key && CompletedOK(s.svc.log[i]) &&
         s.svc.log[i].resp.payload == call.last.resp.value.payload;
    if CurrentWithinTtl(s.svc, call.key) {
      OnlyOne(s.svc, call.key, i);
    }
  }

  lemma OnlyOne(s: Svc, key: string, i: int)
    requires Inv(s) && s.cache.ttl > 0 && CurrentWithinTtl(s, key) && key != ""
    requires 0 <= i < |s.log| && s.log[i].key == key && CompletedOK(s.log[i])
    ensures TheExecution(s.log, key, i)
  {
    hide Covered, FromLog;
    forall j | 0 <= j < |s.log| && s.log[j].key == key && CompletedOK(s.log[j]) ensures j == i {
      assert Rivals(s.log[i], s.log[j]) && Rivals(s.log[j], s.log[i]);
    }
  }
}
