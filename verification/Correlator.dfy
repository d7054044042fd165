/**
 The Correlator: asynchronous replies routed to waiting calls by request id. Deliver first
 removes the id and then sends, as two separate steps, so a removal by one goroutine may be
 followed by anything before its send.
 */
module Correlator {
  import opened Wrappers
  import opened Rpc

  datatype Result = Reply(resp: Response) | Failure(err: Error)

  /** A registered channel: buffered contents, and everything ever sent to it. */
  datatype Channel = Channel(id: string, buf: seq<Result>, history: seq<Result>, cancelled: bool)

  datatype InFlight = InFlight(ch: nat, result: Result)

  /** `sending` holds, per goroutine, a value whose id was removed but which was not sent yet. */
  datatype State = State(pending: map<string, nat>, chans: seq<Channel>, sending: map<nat, InFlight>)

  const Empty := State(map[], [], map[])

  const CAPACITY := 1

  datatype Step =
    | Register(id: string)
    | Cancel(ch: nat)
    | Remove(t: nat, resp: Response)
    | RemoveForShutdown(t: nat, id: string, err: Error)
    | Send(t: nat)
    | Receive(ch: nat)

  /** Deliver finds somebody waiting for the response. */
  predicate Delivers(s: State, resp: Response) {
    resp.requestId in s.pending
  }

  predicate Enabled(s: State, st: Step) {
    match st
    case Register(_) => true
    case Cancel(ch) => ch < |s.chans|
    case Remove(t, _) => t !in s.sending
    case RemoveForShutdown(t, id, _) => t !in s.sending && id in s.pending
    case Send(t) => t in s.sending && s.sending[t].ch < |s.chans| && |s.chans[s.sending[t].ch].buf| < CAPACITY
    case Receive(ch) => ch < |s.chans| && s.chans[ch].buf != []
  }

  function Take(s: State, t: nat, id: string, result: Result): State
    requires id in s.pending
  {
    s.(pending := s.pending - {id}, sending := s.sending[t := InFlight(s.pending[id], result)])
  }

  function Apply(s: State, st: Step): State
    requires Enabled(s, st)
  {
    match st
    case Register(id) =>
      s.(pending := s.pending[id := |s.chans|], chans := s.chans + [Channel(id, [], [], false)])
    case Cancel(ch) =>
      if s.chans[ch].cancelled then s
      else s.(pending := s.pending - {s.chans[ch].id}, chans := s.chans[ch := s.chans[ch].(cancelled := true)])
    case Remove(t, resp) => if Delivers(s, resp) then Take(s, t, resp.requestId, Reply(resp)) else s
    case RemoveForShutdown(t, id, err) => Take(s, t, id, Failure(err))
    case Send(t) =>
      var f := s.sending[t];
      var c := s.chans[f.ch];
      s.(chans := s.chans[f.ch := c.(buf := c.buf + [f.result], history := c.history + [f.result])],
         sending := s.sending - {t})
    case Receive(ch) => s.(chans := s.chans[ch := s.chans[ch].(buf := s.chans[ch].buf[1..])])
  }

  // ---- invariants --------------------------------------------------------------

  /** The result may go to a channel registered under `id`. */
  predicate Addressed(id: string, r: Result) {
    r.Reply? ==> r.resp.requestId == id
  }

  /** Nothing was sent to the channel and nobody is about to. */
  ghost predicate Untouched(s: State, ch: nat) {
    ch < |s.chans| && s.chans[ch].history == [] && forall t :: t in s.sending ==> s.sending[t].ch != ch
  }

  ghost predicate ChannelInv(c: Channel) {
    |c.history| <= 1 && |c.buf| <= |c.history| && forall i :: 0 <= i < |c.history| ==> Addressed(c.id, c.history[i])
  }

  ghost predicate SendingInv(s: State, t: nat)
    requires t in s.sending
  {
    var f := s.sending[t];
    f.ch < |s.chans| && s.chans[f.ch].history == [] && Addressed(s.chans[f.ch].id, f.result) &&
    forall u :: u in s.sending && s.sending[u].ch == f.ch ==> u == t
  }

  ghost predicate Inv(s: State) {
    (forall ch :: 0 <= ch < |s.chans| ==> ChannelInv(s.chans[ch])) &&
    (forall id :: id in s.pending ==> Untouched(s, s.pending[id]) && s.chans[s.pending[id]].id == id) &&
    (forall t :: t in s.sending ==> SendingInv(s, t))
  }

  lemma TakeKeepsInv(s: State, t: nat, id: string, result: Result)
    requires Inv(s) && id in s.pending && t !in s.sending && Addressed(id, result)
    ensures Inv(Take(s, t, id, result))
  {
    var s', ch := Take(s, t, id, result), s.pending[id];
    assert Untouched(s, ch);
    forall u | u in s'.sending ensures SendingInv(s', u) {
      if u != t {
        assert SendingInv(s, u);
      }
    }
    forall i | i in s'.pending ensures Untouched(s', s'.pending[i]) && s'.chans[s'.pending[i]].id == i {
      assert Untouched(s, s.pending[i]);
    }
  }

  lemma SendKeepsInv(s: State, t: nat)
    requires Inv(s) && Enabled(s, Send(t))
    ensures Inv(Apply(s, Send(t)))
  {
    var s', f := Apply(s, Send(t)), s.sending[t];
    assert SendingInv(s, t);
    forall u | u in s'.sending ensures SendingInv(s', u) {
      assert SendingInv(s, u);
    }
    forall i | i in s'.pending ensures Untouched(s', s'.pending[i]) && s'.chans[s'.pending[i]].id == i {
      assert Untouched(s, s.pending[i]);
    }
  }

  lemma RegisterKeepsInv(s: State, id: string)
    requires Inv(s)
    ensures Inv(Apply(s, Register(id)))
  {
    var s' := Apply(s, Register(id));
    forall u | u in s'.sending ensures SendingInv(s', u) {
      assert SendingInv(s, u);
    }
    forall i | i in s'.pending ensures Untouched(s', s'.pending[i]) && s'.chans[s'.pending[i]].id == i {
      if i == id {
        forall u | u in s'.sending ensures s'.sending[u].ch != |s.chans| {
          assert SendingInv(s, u);
        }
      } else {
        assert Untouched(s, s.pending[i]);
      }
    }
  }

  lemma StepKeepsInv(s: State, st: Step)
    requires Inv(s) && Enabled(s, st)
    ensures Inv(Apply(s, st))
  {
    match st
    case Register(id) => RegisterKeepsInv(s, id);
    case Send(t) => SendKeepsInv(s, t);
    case Remove(t, resp) =>
      if Delivers(s, resp) {
        TakeKeepsInv(s, t, resp.requestId, Reply(resp));
      }
    case RemoveForShutdown(t, id, err) => TakeKeepsInv(s, t, id, Failure(err));
    case Cancel(ch) => ChannelUpdateKeepsInv(s, Apply(s, st), ch);
    case Receive(ch) => ChannelUpdateKeepsInv(s, Apply(s, st), ch);
  }

  /** Cancelling or receiving changes neither identity nor history of a channel. */
  lemma ChannelUpdateKeepsInv(s: State, s': State, ch: nat)
    requires Inv(s) && ch < |s.chans| == |s'.chans| && s'.sending == s.sending
    requires s'.chans[ch].id == s.chans[ch].id && s'.chans[ch].history == s.chans[ch].history
    requires |s'.chans[ch].buf| <= |s.chans[ch].buf|
    requires forall i :: 0 <= i < |s.chans| && i != ch ==> s'.chans[i] == s.chans[i]
    requires forall id :: id in s'.pending ==> id in s.pending && s'.pending[id] == s.pending[id]
    ensures Inv(s')
  {
    forall u | u in s'.sending ensures SendingInv(s', u) {
      assert SendingInv(s, u);
    }
    forall i | i in s'.pending ensures Untouched(s', s'.pending[i]) && s'.chans[s'.pending[i]].id == i {
      assert Untouched(s, s.pending[i]);
    }
  }

  // ---- every interleaving ------------------------------------------------------

  ghost predicate Interleaving(ss: seq<State>, sts: seq<Step>) {
    |ss| == |sts| + 1 && ss[0] == Empty &&
    forall i :: 0 <= i < |sts| ==> Enabled(ss[i], sts[i]) && ss[i + 1] == Apply(ss[i], sts[i])
  }

  lemma {:induction false} InterleavingKeepsInv(ss: seq<State>, sts: seq<Step>, n: nat)
    requires Interleaving(ss, sts) && n < |ss|
    ensures Inv(ss[n])
    decreases n
  {
    if n > 0 {
      InterleavingKeepsInv(ss, sts, n - 1);
      assert Enabled(ss[n - 1], sts[n - 1]) && ss[n] == Apply(ss[n - 1], sts[n - 1]);
      StepKeepsInv(ss[n - 1], sts[n - 1]);
    }
  }

  /**
   Over every interleaving, even with reused ids: a channel is sent at most one value, which is
   a reply to the id it was registered under or a failure, and no send ever has to wait.
   */
  lemma SentAtMostOnceAndNeverBlocks(ss: seq<State>, sts: seq<Step>)
    requires Interleaving(ss, sts)
    ensures var s := ss[|sts|];
      (forall ch :: 0 <= ch < |s.chans| ==>
         |s.chans[ch].history| <= 1 &&
         forall i :: 0 <= i < |s.chans[ch].history| ==> Addressed(s.chans[ch].id, s.chans[ch].history[i])) &&
      (forall t :: t in s.sending ==> Enabled(s, Send(t)))
  {
    InterleavingKeepsInv(ss, sts, |sts|);
    var s := ss[|sts|];
    forall t | t in s.sending ensures Enabled(s, Send(t)) {
      assert SendingInv(s, t);
    }
  }

  /** The values taken out of a channel. */
  ghost function ReceivedOn(ss: seq<State>, sts: seq<Step>, ch: nat, n: nat): seq<Result>
    requires n <= |sts| < |ss|
  {
    if n == 0 then []
    else
      var got := ReceivedOn(ss, sts, ch, n - 1);
      var s, st := ss[n - 1], sts[n - 1];
      if st == Receive(ch) && Enabled(s, st) then got + [s.chans[ch].buf[0]] else got
  }

  /** What a step does to a channel's contents. */
  lemma StepChannels(s: State, st: Step, ch: nat)
    requires Enabled(s, st) && ch < |s.chans|
    ensures var t := Apply(s, st);
      && ch < |t.chans| && t.chans[ch].id == s.chans[ch].id
      && (if st == Receive(ch) then
            t.chans[ch].buf == s.chans[ch].buf[1..] && t.chans[ch].history == s.chans[ch].history
          else if st.Send? && s.sending[st.t].ch == ch then
            t.chans[ch].buf == s.chans[ch].buf + [s.sending[st.t].result] &&
            t.chans[ch].history == s.chans[ch].history + [s.sending[st.t].result]
          else t.chans[ch].buf == s.chans[ch].buf && t.chans[ch].history == s.chans[ch].history)
  {
  }

  /** Over every interleaving: the value sent to a channel was received from it or is waiting in it. */
  lemma {:induction false} SentIsReceivedOrWaiting(ss: seq<State>, sts: seq<Step>, n: nat, ch: nat)
    requires Interleaving(ss, sts) && n < |ss|
    ensures if ch < |ss[n].chans| then ss[n].chans[ch].history == ReceivedOn(ss, sts, ch, n) + ss[n].chans[ch].buf
            else ReceivedOn(ss, sts, ch, n) == []
    decreases n
  {
    hide Apply, Enabled;
    if n > 0 {
      var s, st := ss[n - 1], sts[n - 1];
      assert Enabled(s, st) && ss[n - 1 + 1] == Apply(s, st);
      SentIsReceivedOrWaiting(ss, sts, n - 1, ch);
      ChannelStep(s, st, ch, ReceivedOn(ss, sts, ch, n - 1));
    }
  }

  /** One step keeps what was received followed by what waits equal to what was sent. */
  lemma ChannelStep(s: State, st: Step, ch: nat, got: seq<Result>)
    requires Enabled(s, st)
    requires if ch < |s.chans| then s.chans[ch].history == got + s.chans[ch].buf else got == []
    ensures st == Receive(ch) ==> ch < |s.chans| && s.chans[ch].buf != []
    ensures var t, more := Apply(s, st), if st == Receive(ch) then got + [s.chans[ch].buf[0]] else got;
      if ch < |t.chans| then t.chans[ch].history == more + t.chans[ch].buf else more == []
  {
    if ch < |s.chans| {
      StepChannels(s, st, ch);
      hide Apply;
      var buf := s.chans[ch].buf;
      if st == Receive(ch) {
        assert got + buf == (got + [buf[0]]) + buf[1..];
      } else if st.Send? {
        assert got + (buf + [s.sending[st.t].result]) == (got + buf) + [s.sending[st.t].result];
      }
    }
  }

  /** The step ends the wait of whoever is registered under `id`: delivery, shutdown, cancel or another registration. */
  predicate Ends(s: State, st: Step, id: string) {
    match st
    case Register(i) => i == id
    case Cancel(ch) => ch < |s.chans| && !s.chans[ch].cancelled && s.chans[ch].id == id
    case Remove(_, resp) => resp.requestId == id
    case RemoveForShutdown(_, i, _) => i == id
    case _ => false
  }

  lemma WaitStep(s: State, st: Step, id: string, ch: nat)
    requires Enabled(s, st) && ch < |s.chans|
    ensures var t := Apply(s, st);
      id in t.pending && t.pending[id] == ch <==> id in s.pending && s.pending[id] == ch && !Ends(s, st, id)
  {
  }

  /**
   Over every interleaving a registration waits exactly until a step ends it: until then every reply
   to its id is delivered to its channel.
   */
  lemma {:induction false} WaitsUntilEnded(ss: seq<State>, sts: seq<Step>, n: nat, m: nat, id: string)
    requires Interleaving(ss, sts) && n < m < |ss| && sts[n] == Register(id)
    ensures var ch := |ss[n].chans|;
      && ch < |ss[m].chans| && ss[m].chans[ch].id == id
      && (id in ss[m].pending && ss[m].pending[id] == ch <==> forall x :: n < x < m ==> !Ends(ss[x], sts[x], id))
    decreases m
  {
    hide Ends;
    var s, st, ch := ss[m - 1], sts[m - 1], |ss[n].chans|;
    assert Enabled(s, st) && ss[m - 1 + 1] == Apply(s, st);
    if n < m - 1 {
      WaitsUntilEnded(ss, sts, n, m - 1, id);
      hide Apply, Enabled;
      StepChannels(s, st, ch);
      WaitStep(s, st, id, ch);
    }
  }

  /** Ids are not reused: what Register's documentation demands of callers. */
  ghost predicate DistinctIds(ss: seq<State>, sts: seq<Step>) {
    |ss| == |sts| + 1 &&
    forall i, ch :: 0 <= i < |sts| && sts[i].Register? && 0 <= ch < |ss[i].chans| ==> ss[i].chans[ch].id != sts[i].id
  }

  ghost predicate NoLeak(s: State) {
    forall ch :: 0 <= ch < |s.chans| && s.chans[ch].cancelled ==> s.chans[ch].id !in s.pending
  }

  lemma {:induction false} NoLeakEver(ss: seq<State>, sts: seq<Step>, n: nat)
    requires Interleaving(ss, sts) && DistinctIds(ss, sts) && n < |ss|
    ensures NoLeak(ss[n])
    decreases n
  {
    if n > 0 {
      NoLeakEver(ss, sts, n - 1);
      assert Enabled(ss[n - 1], sts[n - 1]) && ss[n] == Apply(ss[n - 1], sts[n - 1]);
    }
  }

  /** With distinct ids, once a call has cancelled (returned), no reply to it is ever delivered again. */
  lemma LateRepliesReportFalse(ss: seq<State>, sts: seq<Step>, n: nat, ch: nat, resp: Response)
    requires Interleaving(ss, sts) && DistinctIds(ss, sts) && n < |ss|
    requires ch < |ss[n].chans| && ss[n].chans[ch].cancelled && resp.requestId == ss[n].chans[ch].id
    ensures ss[n].chans[ch].id !in ss[n].pending && !Delivers(ss[n], resp)
  {
    NoLeakEver(ss, sts, n);
  }

  /** Cancel takes the entry of the channel's id away, marks the channel, and does nothing a second time. */
  lemma CancelOnce(s: State, ch: nat)
    requires ch < |s.chans|
    ensures var t := Apply(s, Cancel(ch));
      && t.chans[ch].cancelled && Apply(t, Cancel(ch)) == t && t.sending == s.sending
      && t.chans == s.chans[ch := s.chans[ch].(cancelled := true)]
      && t.pending == if s.chans[ch].cancelled then s.pending else s.pending - {s.chans[ch].id}
  {
    if s.chans[ch].cancelled {
      assert s.chans == s.chans[ch := s.chans[ch].(cancelled := true)];
    }
  }

  /** Why ids must be distinct: the first caller's cancel removes the second caller's entry. */
  lemma ReusedIdLosesTheSecondCaller(id: string)
    ensures var s2 := Apply(Apply(Empty, Register(id)), Register(id));
      id in s2.pending && s2.pending[id] == 1 &&
      var s3 := Apply(s2, Cancel(0)); id !in s3.pending && !s3.chans[1].cancelled && s3.chans[1].history == []
  {
  }

  // ---- the object --------------------------------------------------------------

  /** The methods between whose critical sections the steps above interleave. */
  class Table {
    var pending: map<string, nat>
    var chans: seq<Channel>
    var sending: map<nat, InFlight>

    ghost function View(): State
      reads this
    {
      State(pending, chans, sending)
    }

    constructor ()
      ensures View() == Empty
    {
      pending, chans, sending := map[], [], map[];
    }

    method Register(id: string) returns (ch: nat)
      modifies this
      ensures View() == Apply(old(View()), Step.Register(id)) && ch == |old(chans)|
    {
      ch := |chans|;
      chans := chans + [Channel(id, [], [], false)];
      pending := pending[id := ch];
    }

    method Cancel(ch: nat)
      requires ch < |chans|
      modifies this
      ensures View() == Apply(old(View()), Step.Cancel(ch))
    {
      if !chans[ch].cancelled {
        pending := pending - {chans[ch].id};
        chans := chans[ch := chans[ch].(cancelled := true)];
      }
    }

    /** Deliver without interference: it reports whether anybody was waiting, and sends iff so. */
    method Deliver(t: nat, resp: Response) returns (ok: bool)
      requires Inv(View()) && t !in sending
      modifies this
      ensures Inv(View())
      ensures ok == Delivers(old(View()), resp)
      ensures ok ==> View() == Apply(Apply(old(View()), Remove(t, resp)), Send(t))
      ensures ok ==>
        var ch := old(pending)[resp.requestId];
        ch < |chans| && chans[ch].buf == [Reply(resp)] && resp.requestId !in pending
      ensures !ok ==> View() == old(View())
    {
      ok := resp.requestId in pending;
      if ok {
        ghost var s := View();
        StepKeepsInv(s, Remove(t, resp));
        sending := sending[t := InFlight(pending[resp.requestId], Reply(resp))];
        pending := pending - {resp.requestId};
        SendOne(t);
      }
    }

    method SendOne(t: nat)
      requires Inv(View()) && t in sending
      modifies this
      ensures Enabled(old(View()), Send(t)) && View() == Apply(old(View()), Send(t)) && Inv(View())
      ensures var f := old(sending)[t]; f.ch < |chans| && chans[f.ch].buf == [f.result]
    {
      ghost var s := View();
      assert SendingInv(s, t);
      StepKeepsInv(s, Send(t));
      var f := sending[t];
      var c := chans[f.ch];
      chans := chans[f.ch := c.(buf := c.buf + [f.result], history := c.history + [f.result])];
      sending := sending - {t};
    }

    /** `<-ch` in Call: the value waiting in the channel. */
    method Receive(ch: nat) returns (r: Result)
      requires Inv(View()) && ch < |chans| && chans[ch].buf != []
      modifies this
      ensures View() == Apply(old(View()), Step.Receive(ch)) && Inv(View()) && old(chans)[ch].buf == [r]
    {
      StepKeepsInv(View(), Step.Receive(ch));
      r := chans[ch].buf[0];
      chans := chans[ch := chans[ch].(buf := chans[ch].buf[1..])];
    }

    /** One turn of Shutdown's Range. */
    method FailOne(t: nat, id: string, err: Error)
      requires Inv(View()) && t !in sending && id in pending
      modifies this
      ensures Inv(View()) && pending == old(pending) - {id} && sending == old(sending)
      ensures var ch := old(pending)[id];
        ch < |old(chans)| &&
        var c := old(chans)[ch];
        chans == old(chans)[ch := c.(buf := [Failure(err)], history := [Failure(err)])]
    {
      ghost var s := View();
      assert Untouched(s, pending[id]);
      StepKeepsInv(s, RemoveForShutdown(t, id, err));
      sending := sending[t := InFlight(pending[id], Failure(err))];
      pending := pending - {id};
      assert chans[s.pending[id]].history + [Failure(err)] == [Failure(err)];
      hide Inv;
      SendOne(t);
    }

    /** Every caller waiting when Shutdown starts gets the error, and nobody waits afterwards. */
    method Shutdown(t: nat, err: Error)
      requires Inv(View()) && t !in sending
      modifies this
      ensures Inv(View()) && pending == map[] && sending == old(sending) && |chans| == |old(chans)|
      ensures forall ch :: 0 <= ch < |chans| ==> chans[ch].id == old(chans)[ch].id
      ensures forall ch :: 0 <= ch < |chans| ==>
        if ch in old(pending).Values then chans[ch].buf == chans[ch].history == [Failure(err)]
        else chans[ch] == old(chans)[ch]
    {
      hide Inv;
      ghost var waiting, chans0 := pending.Values, chans;
      while pending != map[]
        invariant Inv(View()) && sending == old(sending) && |chans| == |chans0|
        invariant pending.Values <= waiting
        invariant forall ch :: 0 <= ch < |chans| ==> chans[ch].id == chans0[ch].id
        invariant forall ch :: 0 <= ch < |chans| && ch in waiting && ch !in pending.Values ==>
          chans[ch].buf == chans[ch].history == [Failure(err)]
        invariant forall ch :: 0 <= ch < |chans| && (ch !in waiting || ch in pending.Values) ==> chans[ch] == chans0[ch]
        decreases |pending|
      {
        var id :| id in pending;
        ValuesWithout(View(), id);
        FailOne(t, id, err);
      }
    }
  }

  /** Each waiting channel has one entry, so removing an entry removes exactly its channel. */
  lemma ValuesWithout(s: State, id: string)
    requires Inv(s) && id in s.pending
    ensures (s.pending - {id}).Values == s.pending.Values - {s.pending[id]}
    ensures |s.pending - {id}| < |s.pending|
  {
    var rest := s.pending - {id};
    assert s.pending == rest[id := s.pending[id]];
    forall v | v in s.pending.Values - {s.pending[id]} ensures v in rest.Values {
      var k :| k in s.pending && s.pending[k] == v;
      assert k in rest;
    }
    forall k | k in rest ensures rest[k] != s.pending[id] {
      assert s.chans[s.pending[k]].id == k && s.chans[s.pending[id]].id == id;
    }
  }
}
