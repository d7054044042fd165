/**
 The durable JetStream responder: fetch, decode, handle, reply, ack. The process may crash
 between any two steps, acks and terminations may be lost, and the broker redelivers whatever
 it retains and has not seen acked or terminated.
 */
module JetStream {
  import opened Wrappers
  import opened Rpc
  import opened Service

  /** How far the delivery in hand has got. */
  datatype Progress = Fetched | Handled(resp: Response) | Replied(resp: Response)

  datatype Delivery = Delivery(msg: nat, progress: Progress)

  /** A handler return: for which message, with which response. */
  datatype HandlerReturn = HandlerReturn(msg: nat, resp: Response)

  /**
   `bodies` are the persisted messages by stream sequence (None: bytes that do not decode), those
   in `inboxes` name a reply inbox; `retained`, `acked` and `termed` are the broker's view of them;
   `answers`, `replied` and `unencoded` (a response that would not encode) are what the responder
   did over all its lives.
   */
  datatype State = State(
    bodies: seq<Option<Request>>,
    inboxes: set<nat>,
    retained: set<nat>,
    acked: set<nat>,
    termed: set<nat>,
    batch: seq<nat>,
    inHand: Option<Delivery>,
    svc: Svc,
    answers: seq<HandlerReturn>,
    replied: set<HandlerReturn>,
    unencoded: set<nat>)

  datatype Step =
    | Persist(body: Option<Request>, inbox: bool)
    | Expire(msg: nat)
    | Fetch(msgs: seq<nat>)
    | PickNext
    | Terminate(lost: bool)
    | HandlerReturns(t0: int, t1: int, result: MethodResult)
    | PublishReply(encodes: bool)
    | Ack(lost: bool)
    | Crash(at: int)

  predicate Deliverable(s: State, msg: nat) {
    msg in s.retained && msg !in s.acked && msg !in s.termed
  }

  predicate Decodable(s: State, msg: nat) {
    msg < |s.bodies| && s.bodies[msg].Some?
  }

  function Initial(ttl: int, now: int): State {
    State([], {}, {}, {}, {}, [], None, StartService(ttl, now), [], {}, {})
  }

  predicate Enabled(s: State, st: Step) {
    match st
    case Persist(_, _) => true
    case Expire(msg) => msg in s.retained
    case Fetch(msgs) => s.batch == [] && s.inHand.None? && forall m :: m in msgs ==> Deliverable(s, m)
    case PickNext => s.inHand.None? && s.batch != []
    case Terminate(_) => s.inHand.Some? && s.inHand.value.progress.Fetched? && !Decodable(s, s.inHand.value.msg)
    case HandlerReturns(t0, t1, result) =>
      s.inHand.Some? && s.inHand.value.progress.Fetched? && Decodable(s, s.inHand.value.msg) &&
      Service.Enabled(s.svc, Serve(s.bodies[s.inHand.value.msg].value, t0, t1, result))
    case PublishReply(_) => s.inHand.Some? && s.inHand.value.progress.Handled?
    case Ack(_) => s.inHand.Some? && s.inHand.value.progress.Replied?
    case Crash(at) => Service.Enabled(s.svc, Restart(at))
  }

  function Apply(s: State, st: Step): State
    requires Enabled(s, st)
  {
    match st
    case Persist(body, inbox) =>
      s.(bodies := s.bodies + [body], retained := s.retained + {|s.bodies|},
         inboxes := if inbox then s.inboxes + {|s.bodies|} else s.inboxes)
    case Expire(msg) => s.(retained := s.retained - {msg})
    case Fetch(msgs) => s.(batch := msgs)
    case PickNext => s.(batch := s.batch[1..], inHand := Some(Delivery(s.batch[0], Fetched)))
    case Terminate(lost) =>
      s.(inHand := None, termed := if lost then s.termed else s.termed + {s.inHand.value.msg})
    case HandlerReturns(t0, t1, result) =>
      var msg := s.inHand.value.msg;
      var req := s.bodies[msg].value;
      var resp := Handle(s.svc.cache, req, t0, t1, result).resp;
      s.(svc := Service.Apply(s.svc, Serve(req, t0, t1, result)),
         inHand := Some(Delivery(msg, Progress.Handled(resp))),
         answers := s.answers + [HandlerReturn(msg, resp)])
    case PublishReply(encodes) =>
      var d := s.inHand.value;
      var s1 := s.(inHand := Some(Delivery(d.msg, Progress.Replied(d.progress.resp))));
      if d.msg !in s.inboxes then s1
      else if encodes then s1.(replied := s.replied + {HandlerReturn(d.msg, d.progress.resp)})
      else s1.(unencoded := s.unencoded + {d.msg})
    case Ack(lost) =>
      s.(inHand := None, acked := if lost then s.acked else s.acked + {s.inHand.value.msg})
    case Crash(at) => s.(svc := Service.Apply(s.svc, Restart(at)), batch := [], inHand := None)
  }

  // ---- invariants --------------------------------------------------------------

  ghost predicate HandledOnce(answers: seq<HandlerReturn>, msg: nat) {
    exists i :: 0 <= i < |answers| && answers[i].msg == msg
  }

  /** The reply was published, or there was nobody to publish it to or nothing to publish. */
  ghost predicate Answered(s: State, msg: nat) {
    (exists r :: r in s.replied && r.msg == msg) || msg !in s.inboxes || msg in s.unencoded
  }

  /** An OK answer rests on an OK execution of its request's key, or the request has no key. */
  ghost predicate Backed(s: State, a: HandlerReturn) {
    Decodable(s, a.msg) && a.resp.requestId == s.bodies[a.msg].value.requestId &&
    (a.resp.status == OK ==>
      exists i :: 0 <= i < |s.svc.log| && s.svc.log[i].key == s.bodies[a.msg].value.idempotencyKey &&
                  CompletedOK(s.svc.log[i]) && s.svc.log[i].resp.payload == a.resp.payload)
  }

  ghost predicate InHandInv(s: State) {
    s.inHand.Some? ==>
      s.inHand.value.msg < |s.bodies| &&
      (!s.inHand.value.progress.Fetched? ==>
         HandlerReturn(s.inHand.value.msg, s.inHand.value.progress.resp) in s.answers) &&
      (s.inHand.value.progress.Replied? ==> Answered(s, s.inHand.value.msg))
  }

  ghost predicate BrokerInv(s: State) {
    (forall m :: m in s.acked ==> m < |s.bodies| && HandledOnce(s.answers, m) && Answered(s, m)) &&
    (forall m :: m in s.termed ==> m < |s.bodies| && !Decodable(s, m)) &&
    (forall m :: m in s.batch ==> m < |s.bodies|) &&
    (forall m :: m in s.retained ==> m < |s.bodies|)
  }

  /** Answers are backed, and what was published as a reply is what the handler returned. */
  ghost predicate AnswersInv(s: State) {
    (forall i :: 0 <= i < |s.answers| ==> Backed(s, s.answers[i])) &&
    (forall r :: r in s.replied ==> r in s.answers)
  }

  ghost predicate Inv(s: State) {
    Service.Inv(s.svc) && InHandInv(s) && BrokerInv(s) && AnswersInv(s)
  }

  lemma BackedGrows(s: State, s': State, a: HandlerReturn)
    requires Backed(s, a) && s.bodies <= s'.bodies && s.svc.log <= s'.svc.log
    ensures Backed(s', a)
  {
    if a.resp.status == OK {
      var i :| 0 <= i < |s.svc.log| && s.svc.log[i].key == s.bodies[a.msg].value.idempotencyKey &&
               CompletedOK(s.svc.log[i]) && s.svc.log[i].resp.payload == a.resp.payload;
      assert s'.svc.log[i] == s.svc.log[i];
    }
  }

  lemma HandledOnceGrows(answers: seq<HandlerReturn>, more: seq<HandlerReturn>, msg: nat)
    requires HandledOnce(answers, msg) && answers <= more
    ensures HandledOnce(more, msg)
  {
    var i :| 0 <= i < |answers| && answers[i].msg == msg;
    assert more[i] == answers[i];
  }

  lemma NewAnswerIsBacked(s: State, st: Step)
    requires Inv(s) && st.HandlerReturns? && Enabled(s, st)
    ensures var s' := Apply(s, st); Backed(s', s'.answers[|s.answers|])
  {
    var s', req := Apply(s, st), s.bodies[s.inHand.value.msg].value;
    var h := Handle(s.svc.cache, req, st.t0, st.t1, st.result);
    if h.executed {
      var n := |s.svc.log|;
      assert s'.svc.log[n].key == req.idempotencyKey && s'.svc.log[n].resp == h.resp;
    } else {
      var key := req.idempotencyKey;
      assert FromLog(s.svc, key);
      var i :| Guarded(s.svc, i) && s.svc.log[i].key == key &&
               s.svc.cache.entries[key] == Cached(s.svc.log[i].resp, s.svc.log[i].end + s.svc.cache.ttl);
      assert s'.svc.log[i].resp.payload == h.resp.payload;
    }
  }

  /** What the handler returns for a delivery: the marked replay of a cached answer, or its method's answer. */
  lemma HandlerReturnMeans(s: State, st: Step)
    requires st.HandlerReturns? && Enabled(s, st)
    ensures var s', msg, req := Apply(s, st), s.inHand.value.msg, s.bodies[s.inHand.value.msg].value;
      && |s'.answers| == |s.answers| + 1 && s.answers <= s'.answers
      && s'.answers[|s.answers|].msg == msg
      && s'.inHand == Some(Delivery(msg, Progress.Handled(s'.answers[|s.answers|].resp)))
      && var resp, key := s'.answers[|s.answers|].resp, req.idempotencyKey;
         if Live(s.svc.cache, key, st.t0) then IsReplay(resp, s.svc.cache.entries[key].resp, req.requestId)
         else IsAnswer(resp, req, st.result)
  {
    HandleMeans(s.svc.cache, s.bodies[s.inHand.value.msg].value, st.t0, st.t1, st.result);
    hide Handle, IsReplay, IsAnswer, IsUpdated;
  }

  lemma ServiceStepKeepsInv(s: State, st: Step)
    requires Inv(s) && (st.HandlerReturns? || st.Crash?) && Enabled(s, st)
    ensures Inv(Apply(s, st))
  {
    hide Handle, Service.Inv, Backed, HandledOnce;
    var s' := Apply(s, st);
    if st.Crash? {
      ApplyKeepsInv(s.svc, Restart(st.at));
    } else {
      ApplyKeepsInv(s.svc, Serve(s.bodies[s.inHand.value.msg].value, st.t0, st.t1, st.result));
      NewAnswerIsBacked(s, st);
      NewestIsHandled(s'.answers);
    }
    forall m | HandledOnce(s.answers, m) ensures HandledOnce(s'.answers, m) {
      HandledOnceGrows(s.answers, s'.answers, m);
    }
    forall a | Backed(s, a) ensures Backed(s', a) {
      LogGrowsHere(s, st);
      BackedGrows(s, s', a);
    }
  }

  lemma ReturnIsHandling(answers: seq<HandlerReturn>, r: HandlerReturn)
    requires r in answers
    ensures HandledOnce(answers, r.msg)
  {
  }

  lemma NewestIsHandled(answers: seq<HandlerReturn>)
    requires answers != []
    ensures HandledOnce(answers, answers[|answers| - 1].msg)
  {
  }

  lemma LogGrowsHere(s: State, st: Step)
    requires Enabled(s, st)
    ensures s.svc.log <= Apply(s, st).svc.log && s.bodies <= Apply(s, st).bodies
  {
  }

  lemma BrokerStepKeepsInv(s: State, st: Step)
    requires Inv(s) && !st.HandlerReturns? && !st.Crash? && Enabled(s, st)
    ensures Inv(Apply(s, st))
  {
    hide Backed, HandledOnce;
    var s' := Apply(s, st);
    forall a | Backed(s, a) ensures Backed(s', a) {
      BackedGrows(s, s', a);
    }
    if st.Ack? {
      ReturnIsHandling(s.answers, HandlerReturn(s.inHand.value.msg, s.inHand.value.progress.resp));
    }
    if st.PickNext? {
      assert s.batch[0] in s.batch && forall m :: m in s.batch[1..] ==> m in s.batch;
    }
    assert forall m :: 0 <= m < |s.bodies| ==> s'.bodies[m] == s.bodies[m];
  }

  ghost predicate Behaviour(ss: seq<State>, sts: seq<Step>, ttl: int, now: int) {
    |ss| == |sts| + 1 && ss[0] == Initial(ttl, now) &&
    forall i :: 0 <= i < |sts| ==> Enabled(ss[i], sts[i]) && ss[i + 1] == Apply(ss[i], sts[i])
  }

  lemma {:induction false} BehaviourKeepsInv(ss: seq<State>, sts: seq<Step>, ttl: int, now: int, n: nat)
    requires Behaviour(ss, sts, ttl, now) && n < |ss|
    ensures Inv(ss[n]) && ss[n].svc.cache.ttl == ttl
    decreases n
  {
    hide Inv, Enabled, Apply;
    if n == 0 {
      InitialSatisfiesInv(ttl, now);
    } else {
      BehaviourKeepsInv(ss, sts, ttl, now, n - 1);
      var s, st := ss[n - 1], sts[n - 1];
      assert Enabled(s, st) && ss[n] == Apply(s, st);
      TtlIsFixed(s, st);
      if st.HandlerReturns? || st.Crash? {
        ServiceStepKeepsInv(s, st);
      } else {
        BrokerStepKeepsInv(s, st);
      }
    }
  }

  lemma InitialSatisfiesInv(ttl: int, now: int)
    ensures Inv(Initial(ttl, now)) && Initial(ttl, now).svc.cache.ttl == ttl
  {
  }

  lemma TtlIsFixed(s: State, st: Step)
    requires Enabled(s, st)
    ensures Apply(s, st).svc.cache.ttl == s.svc.cache.ttl
  {
  }

  // ---- guarantees --------------------------------------------------------------

  /**
   At least once: in every reachable state an acked request has had its handler return and, if it
   named an inbox and its response encodes, its reply published; a terminated one does not decode,
   so a retained decodable request is still
   deliverable or was handled.
   */
  lemma AtLeastOnce(ss: seq<State>, sts: seq<Step>, ttl: int, now: int, msg: nat)
    requires Behaviour(ss, sts, ttl, now)
    ensures var s := ss[|sts|];
      (msg in s.acked ==> HandledOnce(s.answers, msg) && Answered(s, msg)) &&
      (msg in s.termed ==> !Decodable(s, msg)) &&
      (msg in s.retained && Decodable(s, msg) ==> Deliverable(s, msg) || HandledOnce(s.answers, msg))
  {
    BehaviourKeepsInv(ss, sts, ttl, now, |sts|);
  }

  /** In every behaviour a published reply is the handler's own response, addressed to its request. */
  lemma RepliesAreTheHandlers(ss: seq<State>, sts: seq<Step>, ttl: int, now: int, n: nat, r: HandlerReturn)
    requires Behaviour(ss, sts, ttl, now) && n < |ss| && r in ss[n].replied
    ensures r in ss[n].answers && r.msg in ss[n].inboxes
    ensures Decodable(ss[n], r.msg) && r.resp.requestId == ss[n].bodies[r.msg].value.requestId
  {
    hide Inv;
    BehaviourKeepsInv(ss, sts, ttl, now, n);
    ReplyAddressed(ss[n], r);
    RepliesHaveInboxes(ss, sts, ttl, now, n, r);
  }

  lemma ReplyAddressed(s: State, r: HandlerReturn)
    requires Inv(s) && r in s.replied
    ensures r in s.answers && Decodable(s, r.msg) && r.resp.requestId == s.bodies[r.msg].value.requestId
  {
    var i :| 0 <= i < |s.answers| && s.answers[i] == r;
    assert Backed(s, s.answers[i]);
  }

  lemma {:induction false} RepliesHaveInboxes(
      ss: seq<State>, sts: seq<Step>, ttl: int, now: int, n: nat, r: HandlerReturn)
    requires Behaviour(ss, sts, ttl, now) && n < |ss| && r in ss[n].replied
    ensures r.msg in ss[n].inboxes
    decreases n
  {
    if n > 0 {
      hide Handle;
      assert Enabled(ss[n - 1], sts[n - 1]) && ss[n - 1 + 1] == Apply(ss[n - 1], sts[n - 1]);
      if r in ss[n - 1].replied {
        RepliesHaveInboxes(ss, sts, ttl, now, n - 1, r);
      }
    }
  }

  /**
   Exactly-once effect: however often redelivery runs the handler, an OK answer carries the
   payload of an OK execution of its key, and in one responder life those executions are more
   than a ttl apart.
   */
  lemma OnceInEffect(ss: seq<State>, sts: seq<Step>, ttl: int, now: int, a: nat)
    requires Behaviour(ss, sts, ttl, now) && ttl > 0 && a < |ss[|sts|].answers|
    ensures var s := ss[|sts|]; Apart(s.svc.log, ttl) && Backed(s, s.answers[a])
  {
    BehaviourKeepsInv(ss, sts, ttl, now, |sts|);
  }

  /** The step takes the message off the broker's list: it expires, or its ack or termination arrives. */
  predicate Settles(s: State, st: Step, msg: nat) {
    match st
    case Expire(m) => m == msg
    case Ack(lost) => !lost && s.inHand.Some? && s.inHand.value.msg == msg
    case Terminate(lost) => !lost && s.inHand.Some? && s.inHand.value.msg == msg
    case _ => false
  }

  lemma DeliverableStep(s: State, st: Step, msg: nat)
    requires Enabled(s, st) && msg < |s.bodies|
    ensures msg < |Apply(s, st).bodies|
    ensures Deliverable(Apply(s, st), msg) <==> Deliverable(s, msg) && !Settles(s, st, msg)
  {
    hide Handle;
  }

  lemma PersistedIsDeliverable(s: State, st: Step)
    requires Inv(s) && Enabled(s, st) && st.Persist?
    ensures Deliverable(Apply(s, st), |s.bodies|) && |Apply(s, st).bodies| == |s.bodies| + 1
  {
    hide Service.Inv;
  }

  /**
   In every behaviour a persisted message can be delivered exactly as long as no step has settled
   it, however often it was fetched, handled, or in hand when the responder crashed.
   */
  lemma {:induction false} DeliverableUntilSettled(
      ss: seq<State>, sts: seq<Step>, ttl: int, now: int, n: nat, m: nat, msg: nat)
    requires Behaviour(ss, sts, ttl, now) && n < m < |ss| && sts[n].Persist? && msg == |ss[n].bodies|
    ensures msg < |ss[m].bodies|
    ensures Deliverable(ss[m], msg) <==> forall x :: n < x < m ==> !Settles(ss[x], sts[x], msg)
    decreases m
  {
    hide Enabled, Apply, Settles, Inv;
    assert Enabled(ss[m - 1], sts[m - 1]) && ss[m - 1 + 1] == Apply(ss[m - 1], sts[m - 1]);
    if m - 1 == n {
      BehaviourKeepsInv(ss, sts, ttl, now, n);
      PersistedIsDeliverable(ss[n], sts[n]);
    } else {
      DeliverableUntilSettled(ss, sts, ttl, now, n, m - 1, msg);
      DeliverableStep(ss[m - 1], sts[m - 1], msg);
    }
  }

  /** In every behaviour a crash leaves whatever was not settled before it ready to be fetched again. */
  lemma CrashRedelivers(ss: seq<State>, sts: seq<Step>, ttl: int, now: int, n: nat, m: nat, msg: nat)
    requires Behaviour(ss, sts, ttl, now) && n < m < |ss| && sts[n].Persist? && msg == |ss[n].bodies|
    requires sts[m - 1].Crash? && forall x :: n < x < m ==> !Settles(ss[x], sts[x], msg)
    ensures Enabled(ss[m], Fetch([msg]))
  {
    hide Settles, Inv;
    DeliverableUntilSettled(ss, sts, ttl, now, n, m, msg);
    assert Enabled(ss[m - 1], sts[m - 1]) && ss[m - 1 + 1] == Apply(ss[m - 1], sts[m - 1]);
  }

  // ---- the responder's loop body -------------------------------------------------

  /** What happens around one delivery: clock ticks, the method's result, encoding, and a lost ack. */
  datatype Around = Around(wait: nat, run: nat, result: MethodResult, encodes: bool, lost: bool)

  /** The broker has taken the message off its redelivery list. */
  predicate Settled(s: State, msg: nat) {
    msg in s.acked || msg in s.termed
  }

  /** What `handle` leaves behind for a message that can be decoded. */
  ghost predicate Served(s: State, msg: nat) {
    Decodable(s, msg) ==> HandledOnce(s.answers, msg) && Answered(s, msg)
  }

  /** Nothing that was settled, served or persisted before is undone. */
  ghost predicate Extends(s: State, s0: State) {
    s.bodies == s0.bodies && s0.acked <= s.acked && s0.termed <= s.termed &&
    forall m: nat :: Served(s0, m) ==> Served(s, m)
  }

  /** `handle`, run to its end without a crash. */
  method HandleOne(s0: State, a: Around) returns (s: State)
    requires Inv(s0) && s0.inHand.Some? && s0.inHand.value.progress.Fetched?
    ensures Inv(s) && s.inHand.None? && s.batch == s0.batch && Extends(s, s0)
    ensures Served(s, s0.inHand.value.msg) && (!a.lost ==> Settled(s, s0.inHand.value.msg))
  {
    hide Inv, Apply, Enabled;
    var msg := s0.inHand.value.msg;
    InHandIsPersisted(s0);
    if s0.bodies[msg].None? {
      CanTerminate(s0, a.lost);
      BrokerStepKeepsInv(s0, Terminate(a.lost));
      s := Apply(s0, Terminate(a.lost));
      return;
    }
    var t0 := s0.svc.now + a.wait;
    var handle := HandlerReturns(t0, t0 + a.run, a.result);
    CanHandle(s0, a);
    HandleSteps(s0, handle, a.encodes, a.lost);
    s := Apply(s0, handle);
    s := Apply(s, PublishReply(a.encodes));
    s := Apply(s, Ack(a.lost));
  }

  lemma InHandIsPersisted(s: State)
    requires Inv(s) && s.inHand.Some?
    ensures s.inHand.value.msg < |s.bodies|
  {
  }

  lemma CanHandle(s: State, a: Around)
    requires s.inHand.Some? && s.inHand.value.progress.Fetched? && Decodable(s, s.inHand.value.msg)
    ensures var t0 := s.svc.now + a.wait; Enabled(s, HandlerReturns(t0, t0 + a.run, a.result))
  {
  }

  lemma CanTerminate(s: State, lost: bool)
    requires s.inHand.Some? && s.inHand.value.progress.Fetched? && !Decodable(s, s.inHand.value.msg)
    ensures Enabled(s, Terminate(lost))
    ensures var s' := Apply(s, Terminate(lost));
      s'.inHand.None? && s'.batch == s.batch && Extends(s', s) && (!lost ==> Settled(s', s.inHand.value.msg))
  {
  }

  lemma HandleSteps(s: State, handle: Step, encodes: bool, lost: bool)
    requires Inv(s) && handle.HandlerReturns? && Enabled(s, handle)
    ensures Enabled(Apply(s, handle), PublishReply(encodes))
    ensures Enabled(Apply(Apply(s, handle), PublishReply(encodes)), Ack(lost))
    ensures var t, msg := Apply(Apply(Apply(s, handle), PublishReply(encodes)), Ack(lost)), s.inHand.value.msg;
      Inv(t) && t.inHand.None? && t.batch == s.batch && Extends(t, s) && Served(t, msg) && (!lost ==> Settled(t, msg))
  {
    hide Inv, Handle;
    var s1 := Apply(s, handle);
    ServiceStepKeepsInv(s, handle);
    var s2 := Apply(s1, PublishReply(encodes));
    BrokerStepKeepsInv(s1, PublishReply(encodes));
    BrokerStepKeepsInv(s2, Ack(lost));
    NewestIsHandled(s1.answers);
    forall m: nat | Served(s, m)
      ensures Served(s1, m)
    {
      if Decodable(s, m) {
        HandledOnceGrows(s.answers, s1.answers, m);
      }
    }
  }

  /** The loop over one fetched batch: every message is handled, and those whose ack arrives are settled. */
  method ServeBatch(s0: State, around: nat -> Around) returns (s: State)
    requires Inv(s0) && s0.inHand.None?
    ensures Inv(s) && s.batch == [] && s.inHand.None? && Extends(s, s0)
    ensures forall i :: 0 <= i < |s0.batch| ==> Served(s, s0.batch[i]) && (!around(i).lost ==> Settled(s, s0.batch[i]))
  {
    hide Inv, Apply, Enabled, Served;
    s := s0;
    var i := 0;
    while s.batch != []
      invariant i <= |s0.batch| && s.batch == s0.batch[i..] && Inv(s) && s.inHand.None? && Extends(s, s0)
      invariant forall j :: 0 <= j < i ==> Served(s, s0.batch[j]) && (!around(j).lost ==> Settled(s, s0.batch[j]))
      decreases |s.batch|
    {
      PickStep(s);
      BrokerStepKeepsInv(s, PickNext);
      s := Apply(s, PickNext);
      s := HandleOne(s, around(i));
      i := i + 1;
    }
  }

  /** A fetched batch is served as it was fetched. */
  lemma FetchStep(s: State, msgs: seq<nat>)
    requires Enabled(s, Fetch(msgs))
    ensures var s' := Apply(s, Fetch(msgs));
      s'.batch == msgs && s'.inHand.None? && Extends(s', s) && s'.acked == s.acked
  {
  }

  lemma PickStep(s: State)
    requires s.batch != [] && s.inHand.None?
    ensures Enabled(s, PickNext)
    ensures var s' := Apply(s, PickNext);
      s'.batch == s.batch[1..] && s'.inHand == Some(Delivery(s.batch[0], Fetched)) && Extends(s', s) &&
      s'.acked == s.acked && s'.termed == s.termed
  {
  }
}
