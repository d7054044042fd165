/**
 The in-memory fan-out broker. Publish snapshots the topic's subscribers under the lock and
 then sends to them one by one without it, so subscriptions, cancellations, receives and other
 publishes interleave with the sends.
 */
module Broker {

  /** `buf` is the subscriber's channel, `log` all it was ever sent; both hold publish numbers. */
  datatype Subscriber = Subscriber(topic: string, buf: seq<nat>, log: seq<nat>)

  /** One Publish call. `publisher` is the goroutine making it. */
  datatype Pub = Pub(
    topic: string,
    publisher: nat,
    snapshot: set<nat>,
    todo: set<nat>,
    delivered: set<nat>,
    dropped: set<nat>,
    returned: bool)

  datatype State = State(
    bufSize: nat,
    registry: map<string, set<nat>>,
    subs: seq<Subscriber>,
    cancelled: set<nat>,
    pubs: seq<Pub>)

  const DEFAULT_SUB_BUFFER := 256

  function NewBroker(bufSize: int): (s: State)
    ensures s.bufSize == if bufSize > 0 then bufSize else 256
  {
    State(if bufSize <= 0 then DEFAULT_SUB_BUFFER else bufSize, map[], [], {}, [])
  }

  datatype Step =
    | Subscribe(topic: string)
    | Cancel(sub: nat)
    | Snapshot(topic: string, publisher: nat)
    | SendTo(pub: nat, sub: nat)
    | Return(pub: nat)
    | Receive(sub: nat)

  function Registered(registry: map<string, set<nat>>, topic: string): set<nat> {
    if topic in registry then registry[topic] else {}
  }

  function Enroll(registry: map<string, set<nat>>, topic: string, sub: nat): map<string, set<nat>> {
    registry[topic := Registered(registry, topic) + {sub}]
  }

  function Remove(registry: map<string, set<nat>>, topic: string, sub: nat): map<string, set<nat>> {
    if topic !in registry then registry
    else if registry[topic] - {sub} == {} then registry - {topic}
    else registry[topic := registry[topic] - {sub}]
  }

  predicate Enabled(s: State, st: Step) {
    match st
    case Subscribe(_) => true
    case Cancel(sub) => sub < |s.subs|
    case Snapshot(_, publisher) =>
      forall p :: 0 <= p < |s.pubs| && s.pubs[p].publisher == publisher ==> s.pubs[p].returned
    case SendTo(pub, sub) => pub < |s.pubs| && sub in s.pubs[pub].todo && sub < |s.subs|
    case Return(pub) => pub < |s.pubs| && !s.pubs[pub].returned && s.pubs[pub].todo == {}
    case Receive(sub) => sub < |s.subs| && s.subs[sub].buf != []
  }

  function Apply(s: State, st: Step): State
    requires Enabled(s, st)
  {
    match st
    case Subscribe(topic) =>
      s.(registry := Enroll(s.registry, topic, |s.subs|), subs := s.subs + [Subscriber(topic, [], [])])
    case Cancel(sub) =>
      if sub in s.cancelled then s
      else s.(registry := Remove(s.registry, s.subs[sub].topic, sub), cancelled := s.cancelled + {sub})
    case Snapshot(topic, publisher) =>
      var targets := Registered(s.registry, topic);
      s.(pubs := s.pubs + [Pub(topic, publisher, targets, targets, {}, {}, false)])
    case SendTo(pub, sub) =>
      var p, c := s.pubs[pub], s.subs[sub];
      if |c.buf| < s.bufSize then
        s.(subs := s.subs[sub := c.(buf := c.buf + [pub], log := c.log + [pub])],
           pubs := s.pubs[pub := p.(todo := p.todo - {sub}, delivered := p.delivered + {sub})])
      else s.(pubs := s.pubs[pub := p.(todo := p.todo - {sub}, dropped := p.dropped + {sub})])
    case Return(pub) => s.(pubs := s.pubs[pub := s.pubs[pub].(returned := true)])
    case Receive(sub) => s.(subs := s.subs[sub := s.subs[sub].(buf := s.subs[sub].buf[1..])])
  }

  // ---- invariants --------------------------------------------------------------

  /** No topic keeps an empty set, and the registry holds exactly the live subscribers, by topic. */
  ghost predicate RegistryInv(s: State) {
    (forall i :: i in s.cancelled ==> i < |s.subs|) &&
    (forall t :: t in s.registry ==> s.registry[t] != {}) &&
    (forall t, i :: i in Registered(s.registry, t) ==> i < |s.subs| && s.subs[i].topic == t && i !in s.cancelled) &&
    (forall i :: 0 <= i < |s.subs| && i !in s.cancelled ==> i in Registered(s.registry, s.subs[i].topic))
  }

  /** Every target is still to do, delivered or dropped, and only one of these. */
  ghost predicate PubInv(s: State, p: Pub) {
    p.snapshot == p.todo + p.delivered + p.dropped &&
    p.todo !! p.delivered !! p.dropped && (p.returned ==> p.todo == {}) &&
    forall i :: i in p.snapshot ==> i < |s.subs| && s.subs[i].topic == p.topic
  }

  /** The channel is bounded and is the unread end of the log, which holds one copy per delivery. */
  ghost predicate SubInv(s: State, i: nat)
    requires i < |s.subs|
  {
    var c := s.subs[i];
    |c.buf| <= s.bufSize && |c.buf| <= |c.log| && c.buf == c.log[|c.log| - |c.buf|..] &&
    (forall x :: 0 <= x < |c.log| ==> c.log[x] < |s.pubs| && i in s.pubs[c.log[x]].delivered) &&
    (forall x, y :: 0 <= x < y < |c.log| ==> c.log[x] != c.log[y])
  }

  /** A publisher's unreturned publish is its latest, and its messages are logged in order. */
  ghost predicate OrderInv(s: State) {
    (forall p, q :: 0 <= p < q < |s.pubs| && s.pubs[p].publisher == s.pubs[q].publisher ==> s.pubs[p].returned) &&
    (forall i, x, y :: 0 <= i < |s.subs| && 0 <= x < y < |s.subs[i].log| ==>
       InOrder(s.pubs, s.subs[i].log[x], s.subs[i].log[y]))
  }

  ghost predicate InOrder(pubs: seq<Pub>, p: nat, q: nat) {
    p < |pubs| && q < |pubs| && (pubs[p].publisher == pubs[q].publisher ==> p < q)
  }

  /** Whoever a publish delivered to has its message in the log. */
  ghost predicate LoggedInv(s: State) {
    forall p, i :: 0 <= p < |s.pubs| && i in s.pubs[p].delivered ==> i < |s.subs| && p in s.subs[i].log
  }

  ghost predicate Inv(s: State) {
    s.bufSize > 0 && RegistryInv(s) && OrderInv(s) && LoggedInv(s) &&
    (forall p :: 0 <= p < |s.pubs| ==> PubInv(s, s.pubs[p])) &&
    (forall i :: 0 <= i < |s.subs| ==> SubInv(s, i))
  }

  lemma SameRegistry(s: State, s': State)
    requires RegistryInv(s) && s'.registry == s.registry && s'.cancelled == s.cancelled && |s'.subs| == |s.subs|
    requires forall i :: 0 <= i < |s.subs| ==> s'.subs[i].topic == s.subs[i].topic
    ensures RegistryInv(s')
  {
  }

  lemma EnrolledAre(registry: map<string, set<nat>>, topic: string, sub: nat, t: string)
    ensures Registered(Enroll(registry, topic, sub), t) ==
      if t == topic then Registered(registry, t) + {sub} else Registered(registry, t)
  {
  }

  lemma SubscribeKeepsRegistry(s: State, topic: string)
    requires RegistryInv(s)
    ensures RegistryInv(Apply(s, Subscribe(topic)))
  {
    hide Registered, Enroll;
    var s', sub := Apply(s, Subscribe(topic)), |s.subs|;
    forall t
      ensures Registered(s'.registry, t) ==
        if t == topic then Registered(s.registry, t) + {sub} else Registered(s.registry, t)
    {
      EnrolledAre(s.registry, topic, sub, t);
    }
    forall t, i | i in Registered(s'.registry, t)
      ensures i < |s'.subs| && s'.subs[i].topic == t && i !in s'.cancelled
    {
      if i != sub {
        assert i in Registered(s.registry, t);
        RegisteredIsLive(s, t, i);
      } else if t != topic {
        assert i in Registered(s.registry, t);
        RegisteredIsLive(s, t, i);
      }
    }
    forall i | 0 <= i < |s'.subs| && i !in s'.cancelled
      ensures i in Registered(s'.registry, s'.subs[i].topic)
    {
      assert i < |s.subs| ==> i in Registered(s.registry, s.subs[i].topic);
    }
    assert forall t :: t in s'.registry ==> s'.registry[t] != {} by {
      EnrollLeavesNoEmptySet(s, topic, sub);
    }
  }

  lemma EnrollLeavesNoEmptySet(s: State, topic: string, sub: nat)
    requires RegistryInv(s)
    ensures forall t :: t in Enroll(s.registry, topic, sub) ==> Enroll(s.registry, topic, sub)[t] != {}
  {
    assert sub in Enroll(s.registry, topic, sub)[topic];
  }

  lemma CancelKeepsRegistry(s: State, sub: nat)
    requires RegistryInv(s) && Enabled(s, Cancel(sub))
    ensures RegistryInv(Apply(s, Cancel(sub)))
  {
    var s' := Apply(s, Cancel(sub));
    if sub !in s.cancelled {
      forall t ensures Registered(s'.registry, t) == Registered(s.registry, t) - {sub} {
        assert t != s.subs[sub].topic ==> sub !in Registered(s.registry, t);
      }
    }
  }

  lemma SubscribeKeepsInv(s: State, topic: string)
    requires Inv(s)
    ensures Inv(Apply(s, Subscribe(topic)))
  {
    hide RegistryInv;
    SubscribeKeepsRegistry(s, topic);
    var s' := Apply(s, Subscribe(topic));
    forall i | 0 <= i < |s'.subs| ensures SubInv(s', i) {
      assert i < |s.subs| ==> SubInv(s, i);
    }
    forall p | 0 <= p < |s'.pubs| ensures PubInv(s', s'.pubs[p]) {
      assert PubInv(s, s.pubs[p]);
    }
  }

  lemma CancelKeepsInv(s: State, sub: nat)
    requires Inv(s) && Enabled(s, Cancel(sub))
    ensures Inv(Apply(s, Cancel(sub)))
  {
    hide RegistryInv, Remove;
    CancelKeepsRegistry(s, sub);
    var s' := Apply(s, Cancel(sub));
    forall i | 0 <= i < |s'.subs| ensures SubInv(s', i) {
      assert SubInv(s, i);
    }
    forall p | 0 <= p < |s'.pubs| ensures PubInv(s', s'.pubs[p]) {
      assert PubInv(s, s.pubs[p]);
    }
  }

  lemma SnapshotKeepsInv(s: State, topic: string, publisher: nat)
    requires Inv(s) && Enabled(s, Snapshot(topic, publisher))
    ensures Inv(Apply(s, Snapshot(topic, publisher)))
  {
    var s' := Apply(s, Snapshot(topic, publisher));
    SameRegistry(s, s');
    forall i | i in Registered(s.registry, topic)
      ensures i < |s.subs| && s.subs[i].topic == topic
    {
      RegisteredIsLive(s, topic, i);
    }
    hide RegistryInv, Registered;
    forall i | 0 <= i < |s'.subs|
      ensures SubInv(s', i)
    {
      assert SubInv(s, i);
    }
    forall p | 0 <= p < |s'.pubs|
      ensures PubInv(s', s'.pubs[p])
    {
      if p < |s.pubs| {
        assert PubInv(s, s.pubs[p]);
      }
    }
    forall p, i | 0 <= p < |s'.pubs| && i in s'.pubs[p].delivered
      ensures i < |s'.subs| && p in s'.subs[i].log
    {
      assert p < |s.pubs| && i in s.pubs[p].delivered;
    }
    forall i, x, y | 0 <= i < |s'.subs| && 0 <= x < y < |s'.subs[i].log|
      ensures InOrder(s'.pubs, s'.subs[i].log[x], s'.subs[i].log[y])
    {
      assert InOrder(s.pubs, s.subs[i].log[x], s.subs[i].log[y]);
    }
  }

  /** Pubs change in their bookkeeping only: topics, publishers and positions stay. */
  ghost predicate SameCalls(a: seq<Pub>, b: seq<Pub>) {
    |a| == |b| && forall p :: 0 <= p < |a| ==>
      a[p].publisher == b[p].publisher && a[p].topic == b[p].topic && a[p].snapshot == b[p].snapshot &&
      (a[p].returned ==> b[p].returned) && a[p].delivered <= b[p].delivered
  }

  lemma SendKeepsPubs(s: State, pub: nat, sub: nat)
    requires Inv(s) && Enabled(s, SendTo(pub, sub))
    ensures var s' := Apply(s, SendTo(pub, sub));
      SameCalls(s.pubs, s'.pubs) && forall p :: 0 <= p < |s'.pubs| ==> PubInv(s', s'.pubs[p])
  {
    hide SubInv, OrderInv, RegistryInv;
    var s' := Apply(s, SendTo(pub, sub));
    forall p | 0 <= p < |s'.pubs| ensures PubInv(s', s'.pubs[p]) {
      assert PubInv(s, s.pubs[p]);
    }
  }

  lemma SendKeepsSubs(s: State, pub: nat, sub: nat)
    requires Inv(s) && Enabled(s, SendTo(pub, sub))
    ensures var s' := Apply(s, SendTo(pub, sub)); forall i :: 0 <= i < |s'.subs| ==> SubInv(s', i)
  {
    SendKeepsPubs(s, pub, sub);
    assert PubInv(s, s.pubs[pub]) && SubInv(s, sub);
    hide OrderInv, RegistryInv, LoggedInv, PubInv;
    var s' := Apply(s, SendTo(pub, sub));
    forall i | 0 <= i < |s'.subs|
      ensures SubInv(s', i)
    {
      if i == sub && |s.subs[sub].buf| < s.bufSize {
        SentSubInv(s, pub, sub);
      } else {
        assert SubInv(s, i);
      }
    }
  }

  /** The subscriber whose channel the message enters. */
  lemma SentSubInv(s: State, pub: nat, sub: nat)
    requires Enabled(s, SendTo(pub, sub)) && SubInv(s, sub) && |s.subs[sub].buf| < s.bufSize
    requires sub !in s.pubs[pub].delivered
    ensures SubInv(Apply(s, SendTo(pub, sub)), sub)
  {
    var c, c' := s.subs[sub], Apply(s, SendTo(pub, sub)).subs[sub];
    assert c'.log[|c'.log| - |c'.buf|..] == c.log[|c.log| - |c.buf|..] + [pub];
    forall x | 0 <= x < |c.log|
      ensures c.log[x] != pub
    {
      assert sub in s.pubs[c.log[x]].delivered;
    }
  }

  lemma SendKeepsOrder(s: State, pub: nat, sub: nat)
    requires Inv(s) && Enabled(s, SendTo(pub, sub))
    ensures OrderInv(Apply(s, SendTo(pub, sub)))
  {
    hide RegistryInv;
    SendKeepsPubs(s, pub, sub);
    var s' := Apply(s, SendTo(pub, sub));
    assert PubInv(s, s.pubs[pub]) && SubInv(s, sub);
    forall i, x, y | 0 <= i < |s'.subs| && 0 <= x < y < |s'.subs[i].log|
      ensures InOrder(s'.pubs, s'.subs[i].log[x], s'.subs[i].log[y])
    {
      if i != sub || y < |s.subs[i].log| {
        assert InOrder(s.pubs, s.subs[i].log[x], s.subs[i].log[y]);
      } else {
        var earlier := s.subs[sub].log[x];
        assert sub in s.pubs[earlier].delivered && sub !in s.pubs[pub].delivered;
      }
    }
  }

  lemma SendKeepsLogged(s: State, pub: nat, sub: nat)
    requires Inv(s) && Enabled(s, SendTo(pub, sub))
    ensures LoggedInv(Apply(s, SendTo(pub, sub)))
  {
    hide RegistryInv, OrderInv, SubInv;
    var s' := Apply(s, SendTo(pub, sub));
    forall p, i | 0 <= p < |s'.pubs| && i in s'.pubs[p].delivered
      ensures i < |s'.subs| && p in s'.subs[i].log
    {
      if p != pub || i != sub {
        assert i in s.pubs[p].delivered;
      }
    }
  }

  lemma ReturnKeepsInv(s: State, pub: nat)
    requires Inv(s) && Enabled(s, Return(pub))
    ensures Inv(Apply(s, Return(pub)))
  {
    hide RegistryInv;
    var s' := Apply(s, Return(pub));
    SameRegistry(s, s');
    forall i | 0 <= i < |s'.subs| ensures SubInv(s', i) {
      assert SubInv(s, i);
    }
    forall p | 0 <= p < |s'.pubs| ensures PubInv(s', s'.pubs[p]) {
      assert PubInv(s, s.pubs[p]);
    }
    forall i, x, y | 0 <= i < |s'.subs| && 0 <= x < y < |s'.subs[i].log|
      ensures InOrder(s'.pubs, s'.subs[i].log[x], s'.subs[i].log[y])
    {
      assert InOrder(s.pubs, s.subs[i].log[x], s.subs[i].log[y]);
    }
  }

  lemma ReceiveKeepsInv(s: State, sub: nat)
    requires Inv(s) && Enabled(s, Receive(sub))
    ensures Inv(Apply(s, Receive(sub)))
  {
    hide RegistryInv;
    var s' := Apply(s, Receive(sub));
    SameRegistry(s, s');
    forall i | 0 <= i < |s'.subs| ensures SubInv(s', i) {
      assert SubInv(s, i);
    }
    forall p | 0 <= p < |s'.pubs| ensures PubInv(s', s'.pubs[p]) {
      assert PubInv(s, s.pubs[p]);
    }
    forall i, x, y | 0 <= i < |s'.subs| && 0 <= x < y < |s'.subs[i].log|
      ensures InOrder(s'.pubs, s'.subs[i].log[x], s'.subs[i].log[y])
    {
      assert InOrder(s.pubs, s.subs[i].log[x], s.subs[i].log[y]);
    }
  }

  lemma StepKeepsInv(s: State, st: Step)
    requires Inv(s) && Enabled(s, st)
    ensures Inv(Apply(s, st))
  {
    match st
    case Subscribe(topic) => SubscribeKeepsInv(s, topic);
    case Cancel(sub) => CancelKeepsInv(s, sub);
    case Snapshot(topic, publisher) => SnapshotKeepsInv(s, topic, publisher);
    case SendTo(pub, sub) =>
      SendKeepsPubs(s, pub, sub);
      SendKeepsSubs(s, pub, sub);
      SendKeepsOrder(s, pub, sub);
      SendKeepsLogged(s, pub, sub);
      SameRegistry(s, Apply(s, st));
    case Return(pub) => ReturnKeepsInv(s, pub);
    case Receive(sub) => ReceiveKeepsInv(s, sub);
  }

  // ---- every interleaving ------------------------------------------------------

  ghost predicate Interleaving(ss: seq<State>, sts: seq<Step>, bufSize: int) {
    |ss| == |sts| + 1 && ss[0] == NewBroker(bufSize) &&
    forall i :: 0 <= i < |sts| ==> Enabled(ss[i], sts[i]) && ss[i + 1] == Apply(ss[i], sts[i])
  }

  lemma {:induction false} InterleavingKeepsInv(ss: seq<State>, sts: seq<Step>, bufSize: int, n: nat)
    requires Interleaving(ss, sts, bufSize) && n < |ss|
    ensures Inv(ss[n])
    decreases n
  {
    hide Inv, Enabled, Apply;
    if n == 0 {
      NewBrokerSatisfiesInv(bufSize);
    } else {
      InterleavingKeepsInv(ss, sts, bufSize, n - 1);
      assert Enabled(ss[n - 1], sts[n - 1]) && ss[n] == Apply(ss[n - 1], sts[n - 1]);
      StepKeepsInv(ss[n - 1], sts[n - 1]);
    }
  }

  lemma NewBrokerSatisfiesInv(bufSize: int)
    ensures Inv(NewBroker(bufSize))
  {
  }

  /**
   At every point of every interleaving: channels are bounded and hold the unread end of what was
   sent to them; a subscriber is only ever sent
   messages of its topic, at most one copy per publish, and each publisher's in the order it
   published them; no topic is left with an empty set.
   */
  lemma FanOutSafety(ss: seq<State>, sts: seq<Step>, bufSize: int, n: nat, sub: nat)
    requires Interleaving(ss, sts, bufSize) && n < |ss| && sub < |ss[n].subs|
    ensures var s := ss[n]; var c := s.subs[sub];
      |c.buf| <= s.bufSize && |c.buf| <= |c.log| && c.buf == c.log[|c.log| - |c.buf|..] &&
      (forall x :: 0 <= x < |c.log| ==> c.log[x] < |s.pubs| && s.pubs[c.log[x]].topic == c.topic) &&
      (forall x, y :: 0 <= x < y < |c.log| ==> c.log[x] != c.log[y] && InOrder(s.pubs, c.log[x], c.log[y])) &&
      (forall t :: t in s.registry ==> s.registry[t] != {})
  {
    InterleavingKeepsInv(ss, sts, bufSize, n);
    var s := ss[n];
    assert SubInv(s, sub);
    forall x | 0 <= x < |s.subs[sub].log| ensures s.pubs[s.subs[sub].log[x]].topic == s.subs[sub].topic {
      assert PubInv(s, s.pubs[s.subs[sub].log[x]]);
    }
  }

  /**
   What a step does to a subscriber's channel: a receive takes the oldest message, a send with room
   adds the new one behind the unread ones, and nothing else touches it.
   */
  lemma StepChannels(s: State, st: Step, sub: nat)
    requires Enabled(s, st) && sub < |s.subs|
    ensures var t := Apply(s, st);
      && sub < |t.subs| && t.subs[sub].topic == s.subs[sub].topic
      && (if st == Receive(sub) then
            t.subs[sub].buf == s.subs[sub].buf[1..] && t.subs[sub].log == s.subs[sub].log
          else if st.SendTo? && st.sub == sub && |s.subs[sub].buf| < s.bufSize then
            t.subs[sub].buf == s.subs[sub].buf + [st.pub] && t.subs[sub].log == s.subs[sub].log + [st.pub]
          else t.subs[sub] == s.subs[sub])
  {
  }

  /** The messages a subscriber has taken out of its channel, in that order. */
  ghost function ReceivedBy(ss: seq<State>, sts: seq<Step>, sub: nat, n: nat): seq<nat>
    requires n <= |sts| < |ss|
  {
    if n == 0 then []
    else
      var got := ReceivedBy(ss, sts, sub, n - 1);
      var s, st := ss[n - 1], sts[n - 1];
      if st == Receive(sub) && Enabled(s, st) then got + [s.subs[sub].buf[0]] else got
  }

  /** Over every interleaving: what was sent to a subscriber is what it received, in order, and what is unread. */
  lemma {:induction false} NothingLostOnTheWay(ss: seq<State>, sts: seq<Step>, bufSize: int, n: nat, sub: nat)
    requires Interleaving(ss, sts, bufSize) && n < |ss|
    ensures if sub < |ss[n].subs| then ss[n].subs[sub].log == ReceivedBy(ss, sts, sub, n) + ss[n].subs[sub].buf
            else ReceivedBy(ss, sts, sub, n) == []
    decreases n
  {
    hide Apply, Enabled;
    if n > 0 {
      var s, st := ss[n - 1], sts[n - 1];
      assert Enabled(s, st) && ss[n - 1 + 1] == Apply(s, st);
      NothingLostOnTheWay(ss, sts, bufSize, n - 1, sub);
      ChannelStep(s, st, sub, ReceivedBy(ss, sts, sub, n - 1));
    }
  }

  /** One step keeps what was received followed by what is unread equal to what was sent. */
  lemma ChannelStep(s: State, st: Step, sub: nat, got: seq<nat>)
    requires Enabled(s, st)
    requires if sub < |s.subs| then s.subs[sub].log == got + s.subs[sub].buf else got == []
    ensures st == Receive(sub) ==> sub < |s.subs| && s.subs[sub].buf != []
    ensures var t, more := Apply(s, st), if st == Receive(sub) then got + [s.subs[sub].buf[0]] else got;
      if sub < |t.subs| then t.subs[sub].log == more + t.subs[sub].buf else more == []
  {
    if sub < |s.subs| {
      StepChannels(s, st, sub);
      hide Apply;
      var buf := s.subs[sub].buf;
      if st == Receive(sub) {
        assert got + buf == (got + [buf[0]]) + buf[1..];
      } else if st.SendTo? {
        assert got + (buf + [st.pub]) == (got + buf) + [st.pub];
      }
    }
  }

  lemma SnapshotsAreFixed(s: State, st: Step)
    requires Inv(s) && Enabled(s, st)
    ensures var s' := Apply(s, st); |s.pubs| <= |s'.pubs| && SameCalls(s.pubs, s'.pubs[..|s.pubs|])
    ensures |s.subs| <= |Apply(s, st).subs| && Apply(s, st).bufSize == s.bufSize
  {
    if st.SendTo? {
      SendKeepsPubs(s, st.pub, st.sub);
    }
  }

  lemma {:induction false} SnapshotIsRemembered(ss: seq<State>, sts: seq<Step>, bufSize: int, n: nat, m: nat)
    requires Interleaving(ss, sts, bufSize) && n < m < |ss| && sts[n].Snapshot?
    ensures var pub := |ss[n].pubs|;
      pub < |ss[m].pubs| && ss[m].pubs[pub].topic == sts[n].topic &&
      ss[m].pubs[pub].snapshot == Registered(ss[n].registry, sts[n].topic)
    decreases m
  {
    assert Enabled(ss[m - 1], sts[m - 1]) && ss[m] == Apply(ss[m - 1], sts[m - 1]);
    if n < m - 1 {
      SnapshotIsRemembered(ss, sts, bufSize, n, m - 1);
      InterleavingKeepsInv(ss, sts, bufSize, m - 1);
      SnapshotsAreFixed(ss[m - 1], sts[m - 1]);
    }
  }

  /** Subscriber `sub` is registered, that is, subscribed and not cancelled. */
  predicate Live(s: State, sub: nat) {
    sub < |s.subs| && sub !in s.cancelled
  }

  lemma RegisteredIsLive(s: State, topic: string, sub: nat)
    requires RegistryInv(s) && sub in Registered(s.registry, topic)
    ensures Live(s, sub) && s.subs[sub].topic == topic
  {
  }

  /**
   A Publish is decided by its snapshot. A subscriber of the topic that is live at that moment
   has the message in its log or was dropped by the time Publish returns; one that is not (not yet subscribed,
   or cancelled) is never sent this message; and delivered + dropped is the snapshot's size.
   */
  lemma SnapshotDecides(ss: seq<State>, sts: seq<Step>, bufSize: int, n: nat, m: nat, sub: nat)
    requires Interleaving(ss, sts, bufSize) && n < m < |ss| && sts[n].Snapshot? && sub < |ss[m].subs|
    ensures |ss[n].pubs| < |ss[m].pubs|
    ensures var pub := |ss[n].pubs|;
      var p := ss[m].pubs[pub];
      (Live(ss[n], sub) && ss[n].subs[sub].topic == sts[n].topic && p.returned ==>
         (pub in ss[m].subs[sub].log <==> sub !in p.dropped)) &&
      (!Live(ss[n], sub) ==> pub !in ss[m].subs[sub].log) &&
      (p.returned ==> |p.delivered| + |p.dropped| == |p.snapshot|)
  {
    SnapshotIsRemembered(ss, sts, bufSize, n, m);
    InterleavingKeepsInv(ss, sts, bufSize, n);
    InterleavingKeepsInv(ss, sts, bufSize, m);
    var pub := |ss[n].pubs|;
    var p := ss[m].pubs[pub];
    assert PubInv(ss[m], p) && SubInv(ss[m], sub);
    assert forall x :: 0 <= x < |ss[m].subs[sub].log| && ss[m].subs[sub].log[x] == pub ==> sub in p.delivered;
    if sub in p.snapshot {
      RegisteredIsLive(ss[n], sts[n].topic, sub);
    }
    if p.returned {
      assert p.snapshot == p.delivered + p.dropped;
    }
  }

  /** A drop happens only at a moment when the subscriber's buffer is full. */
  lemma {:induction false} DropsOnlyWhenFull(ss: seq<State>, sts: seq<Step>, bufSize: int, m: nat, pub: nat, sub: nat)
    requires Interleaving(ss, sts, bufSize) && m < |ss| && pub < |ss[m].pubs| && sub in ss[m].pubs[pub].dropped
    ensures exists i ::
      0 <= i < m && sts[i] == SendTo(pub, sub) && sub < |ss[i].subs| && |ss[i].subs[sub].buf| == ss[i].bufSize
    decreases m
  {
    if m > 0 {
      var s, st := ss[m - 1], sts[m - 1];
      assert Enabled(s, st) && ss[m] == Apply(s, st);
      InterleavingKeepsInv(ss, sts, bufSize, m - 1);
      if pub < |s.pubs| && sub in s.pubs[pub].dropped {
        DropsOnlyWhenFull(ss, sts, bufSize, m - 1, pub, sub);
      } else {
        assert st == SendTo(pub, sub);
        assert SubInv(s, sub);
      }
    }
  }

  /**
   The subscriber comment promises that no send targets a cancelled subscriber. A Publish that
   took its snapshot before the cancel still sends to it afterwards.
   */
  lemma SendAfterCancel(topic: string)
    ensures var s := Apply(Apply(Apply(NewBroker(1), Subscribe(topic)), Snapshot(topic, 0)), Cancel(0));
      0 in s.cancelled && Enabled(s, SendTo(0, 0)) && Apply(s, SendTo(0, 0)).subs[0].log == [0]
  {
    var s1 := Apply(NewBroker(1), Subscribe(topic));
    assert s1.registry[topic] == {0};
    var s2 := Apply(s1, Snapshot(topic, 0));
    var s3 := Apply(s2, Cancel(0));
    assert 0 in s3.pubs[0].todo;
    assert s3.subs[0].buf == [];
  }

  // ---- after cancel ----------------------------------------------------------------

  /** Steps from any state on. */
  ghost predicate Continues(ts: seq<State>, us: seq<Step>) {
    |ts| == |us| + 1 && forall i :: 0 <= i < |us| ==> Enabled(ts[i], us[i]) && ts[i + 1] == Apply(ts[i], us[i])
  }

  /** No publish under way has the subscriber still to do. */
  ghost predicate Quiet(s: State, sub: nat) {
    forall p :: 0 <= p < |s.pubs| ==> sub !in s.pubs[p].todo
  }

  predicate Targets(st: Step, sub: nat) {
    st.SendTo? && st.sub == sub
  }

  lemma QuietStep(s: State, st: Step, sub: nat)
    requires Inv(s) && Enabled(s, st) && sub in s.cancelled && Quiet(s, sub)
    ensures var t := Apply(s, st); sub < |s.subs| <= |t.subs| && sub in t.cancelled && Quiet(t, sub)
    ensures !Targets(st, sub) && Apply(s, st).subs[sub].log == s.subs[sub].log
  {
    hide OrderInv, SubInv, PubInv, LoggedInv, Remove, Enroll;
  }

  /** Once cancelled and quiet, a subscriber is never targeted again. */
  lemma {:induction false} QuietForGood(ts: seq<State>, us: seq<Step>, sub: nat, m: nat)
    requires Continues(ts, us) && Inv(ts[0]) && sub in ts[0].cancelled && Quiet(ts[0], sub) && m < |ts|
    ensures Inv(ts[m]) && sub in ts[m].cancelled && Quiet(ts[m], sub) && sub < |ts[0].subs| && sub < |ts[m].subs|
    ensures ts[m].subs[sub].log == ts[0].subs[sub].log
    ensures forall x :: 0 <= x < m ==> !Targets(us[x], sub)
    decreases m
  {
    hide Inv, Enabled, Apply, Quiet;
    if m == 0 {
      CancelledExists(ts[0], sub);
    } else {
      QuietForGood(ts, us, sub, m - 1);
      assert Enabled(ts[m - 1], us[m - 1]) && ts[m - 1 + 1] == Apply(ts[m - 1], us[m - 1]);
      QuietStep(ts[m - 1], us[m - 1], sub);
      StepKeepsInv(ts[m - 1], us[m - 1]);
    }
  }

  lemma CancelledExists(s: State, sub: nat)
    requires Inv(s) && sub in s.cancelled
    ensures sub < |s.subs|
  {
  }

  /** With a publish under way that has it still to do, the message can still reach the channel. */
  lemma StillReaches(s: State, p: nat, sub: nat) returns (ts: seq<State>, us: seq<Step>)
    requires Inv(s) && p < |s.pubs| && sub in s.pubs[p].todo
    ensures Continues(ts, us) && ts[0] == s && us != [] && us[|us| - 1] == SendTo(p, sub)
    ensures sub < |s.subs| && sub < |ts[|us|].subs| && ts[|us|].subs[sub].log == s.subs[sub].log + [p]
  {
    TargetsExist(s, p, sub);
    var send := SendTo(p, sub);
    if |s.subs[sub].buf| < s.bufSize {
      ts, us := [s, Apply(s, send)], [send];
    } else {
      var s1 := Apply(s, Receive(sub));
      assert SubInv(s, sub);
      ts, us := [s, s1, Apply(s1, send)], [Receive(sub), send];
    }
  }

  ghost predicate Follows(s: State, ts: seq<State>, us: seq<Step>) {
    Continues(ts, us) && ts[0] == s
  }

  /** Some continuation has a send that targets the subscriber. */
  ghost predicate CanBeTargeted(s: State, sub: nat) {
    exists ts: seq<State>, us: seq<Step> :: Follows(s, ts, us) && exists x :: 0 <= x < |us| && Targets(us[x], sub)
  }

  /** In some continuation a message is put into the subscriber's channel. */
  ghost predicate CanBeReached(s: State, sub: nat)
    requires sub < |s.subs|
  {
    exists ts: seq<State>, us: seq<Step> :: Follows(s, ts, us) && LogChanged(s.subs[sub].log, ts[|us|], sub)
  }

  ghost predicate LogChanged(log: seq<nat>, t: State, sub: nat) {
    sub < |t.subs| && t.subs[sub].log != log
  }

  /**
   The exact condition, over every interleaving: after cancel a subscriber can still be targeted,
   and reached, if and only if some publish under way took its snapshot before and has it still to do.
   */
  lemma SendsAfterCancelExactly(ss: seq<State>, sts: seq<Step>, bufSize: int, n: nat, sub: nat)
    requires Interleaving(ss, sts, bufSize) && n < |ss| && sub in ss[n].cancelled
    ensures sub < |ss[n].subs|
    ensures CanBeTargeted(ss[n], sub) <==> !Quiet(ss[n], sub)
    ensures CanBeReached(ss[n], sub) <==> !Quiet(ss[n], sub)
  {
    hide Inv, Enabled, Apply;
    InterleavingKeepsInv(ss, sts, bufSize, n);
    var s := ss[n];
    CancelledExists(s, sub);
    if p :| 0 <= p < |s.pubs| && sub in s.pubs[p].todo {
      var ts, us := StillReaches(s, p, sub);
      assert Follows(s, ts, us) && Targets(us[|us| - 1], sub) && LogChanged(s.subs[sub].log, ts[|us|], sub);
    } else {
      forall ts, us | Follows(s, ts, us)
        ensures !LogChanged(s.subs[sub].log, ts[|us|], sub) && forall x :: 0 <= x < |us| ==> !Targets(us[x], sub)
      {
        QuietForGood(ts, us, sub, |us|);
      }
    }
  }

  // ---- the object --------------------------------------------------------------

  /** The message was put behind the unread ones. */
  predicate IsSent(after: Subscriber, before: Subscriber, pub: nat) {
    after.topic == before.topic && after.buf == before.buf + [pub] && after.log == before.log + [pub]
  }

  /** The critical sections and sends of Broker, each one step of the system above. */
  class FanOut {
    const bufSize: nat
    var registry: map<string, set<nat>>
    var subs: seq<Subscriber>
    var cancelled: set<nat>
    ghost var pubs: seq<Pub>

    ghost function View(): State
      reads this
    {
      State(bufSize, registry, subs, cancelled, pubs)
    }

    constructor (bufSize: int)
      ensures View() == NewBroker(bufSize) && Inv(View())
    {
      NewBrokerSatisfiesInv(bufSize);
      this.bufSize := if bufSize <= 0 then DEFAULT_SUB_BUFFER else bufSize;
      registry, subs, cancelled, pubs := map[], [], {}, [];
    }

    method Subscribe(topic: string) returns (sub: nat)
      requires Inv(View())
      modifies this
      ensures View() == Apply(old(View()), Step.Subscribe(topic)) && Inv(View()) && sub == |old(subs)|
    {
      hide Inv;
      StepKeepsInv(View(), Step.Subscribe(topic));
      sub := |subs|;
      var members := if topic in registry then registry[topic] else {};
      registry := registry[topic := members + {sub}];
      subs := subs + [Subscriber(topic, [], [])];
    }

    method Cancel(sub: nat)
      requires Inv(View()) && sub < |subs|
      modifies this
      ensures View() == Apply(old(View()), Step.Cancel(sub)) && Inv(View())
    {
      hide Inv;
      StepKeepsInv(View(), Step.Cancel(sub));
      if sub !in cancelled {
        var topic := subs[sub].topic;
        cancelled := cancelled + {sub};
        if topic in registry {
          var rest := registry[topic] - {sub};
          registry := if rest == {} then registry - {topic} else registry[topic := rest];
        }
      }
    }

    /** The non-blocking send: false when the channel is full and the message is dropped. */
    method TrySend(pub: nat, sub: nat) returns (ok: bool)
      requires Inv(View()) && Enabled(View(), SendTo(pub, sub))
      modifies this
      ensures View() == Apply(old(View()), SendTo(pub, sub)) && Inv(View())
      ensures ok <==> |old(subs)[sub].buf| < bufSize
      ensures ok ==> IsSent(subs[sub], old(subs)[sub], pub)
    {
      hide Inv;
      StepKeepsInv(View(), SendTo(pub, sub));
      ghost var p := pubs[pub];
      ok := |subs[sub].buf| < bufSize;
      if ok {
        subs := subs[sub := Subscriber(subs[sub].topic, subs[sub].buf + [pub], subs[sub].log + [pub])];
        pubs := pubs[pub := p.(todo := p.todo - {sub}, delivered := p.delivered + {sub})];
      } else {
        pubs := pubs[pub := p.(todo := p.todo - {sub}, dropped := p.dropped + {sub})];
      }
    }

    /** `<-ch`: the oldest unread message. */
    method Receive(sub: nat) returns (msg: nat)
      requires Inv(View()) && sub < |subs| && subs[sub].buf != []
      modifies this
      ensures View() == Apply(old(View()), Step.Receive(sub)) && Inv(View())
      ensures old(subs)[sub].buf == [msg] + subs[sub].buf
    {
      hide Inv;
      StepKeepsInv(View(), Step.Receive(sub));
      msg := subs[sub].buf[0];
      subs := subs[sub := subs[sub].(buf := subs[sub].buf[1..])];
    }

    /**
     Publish without interference: it returns how many of the topic's subscribers had room;
     exactly those were sent the message, and every other subscriber is unchanged.
     */
    method Publish(pub: nat, topic: string, publisher: nat) returns (delivered: nat)
      requires Inv(View()) && Enabled(View(), Snapshot(topic, publisher)) && pub == |pubs|
      modifies this
      ensures Inv(View()) && |pubs| == |old(pubs)| + 1 && |subs| == |old(subs)| && registry == old(registry)
      ensures pubs[pub].returned && pubs[pub].snapshot == Registered(old(registry), topic)
      ensures delivered == |pubs[pub].delivered|
      ensures forall i :: 0 <= i < |subs| ==>
        if i in pubs[pub].delivered then |old(subs)[i].buf| < bufSize && IsSent(subs[i], old(subs)[i], pub)
        else subs[i] == old(subs)[i] && (i in pubs[pub].snapshot ==> |old(subs)[i].buf| >= bufSize)
    {
      hide Inv;
      StepKeepsInv(View(), Snapshot(topic, publisher));
      var targets := if topic in registry then registry[topic] else {};
      pubs := pubs + [Pub(topic, publisher, targets, targets, {}, {}, false)];
      var todo, dropped := targets, 0;
      ghost var subs0 := subs;
      delivered := 0;
      while todo != {}
        invariant Inv(View()) && |pubs| == pub + 1 && |subs| == |subs0| && registry == old(registry)
        invariant pubs[pub].todo == todo <= targets && pubs[pub].snapshot == targets && !pubs[pub].returned
        invariant delivered == |pubs[pub].delivered| && pubs[pub].delivered <= targets - todo
        invariant forall i :: 0 <= i < |subs| ==>
          if i in pubs[pub].delivered then |subs0[i].buf| < bufSize && IsSent(subs[i], subs0[i], pub)
          else subs[i] == subs0[i] && (i in targets - todo ==> |subs0[i].buf| >= bufSize)
        decreases todo
      {
        var s :| s in todo;
        TargetsExist(View(), pub, s);
        var ok := TrySend(pub, s);
        if ok {
          delivered := delivered + 1;
        } else {
          dropped := dropped + 1;
        }
        todo := todo - {s};
      }
      StepKeepsInv(View(), Step.Return(pub));
      pubs := pubs[pub := pubs[pub].(returned := true)];
    }
  }

  lemma TargetsExist(s: State, pub: nat, sub: nat)
    requires Inv(s) && pub < |s.pubs| && sub in s.pubs[pub].todo
    ensures Enabled(s, SendTo(pub, sub)) && sub !in s.pubs[pub].delivered
  {
    assert PubInv(s, s.pubs[pub]);
  }
}
