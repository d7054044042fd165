/**
 The idempotent service: IdempotencyCache and the handler wrapper that replays the first
 OK response of a key. First as functions on cache states, then as the mutable objects.
 */
module Service {
  import opened Wrappers
  import opened Rpc

  datatype Cached = Cached(resp: Response, expires: int)
  datatype Cache = Cache(ttl: int, entries: map<string, Cached>, hits: nat)

  function EmptyCache(ttl: int): Cache {
    Cache(ttl, map[], 0)
  }

  /** The cache has an answer for the key at that time. */
  predicate Live(c: Cache, key: string, now: int) {
    key != "" && c.ttl > 0 && key in c.entries && now <= c.entries[key].expires
  }

  function Lookup(c: Cache, key: string, now: int): (r: (Cache, Option<Response>))
    ensures r.1.Some? <==> Live(c, key, now)
  {
    if key == "" || c.ttl <= 0 then (c, None)
    else if key !in c.entries then (c, None)
    else if now > c.entries[key].expires then (c.(entries := c.entries - {key}), None)
    else (c.(hits := c.hits + 1), Some(c.entries[key].resp))
  }

  function Store(c: Cache, key: string, resp: Response, now: int): Cache {
    if key == "" || c.ttl <= 0 then c
    else c.(entries := c.entries[key := Cached(resp, now + c.ttl)])
  }

  const REPLAY_MARK := "idempotent-replay"

  /** A cached response re-addressed to the request that asks for it. */
  function Replay(cached: Response, req: Request): Response {
    var meta := if cached.metadata.None? then map[] else cached.metadata.value;
    cached.(requestId := req.requestId, metadata := Some(meta[REPLAY_MARK := "true"]))
  }

  /** What the routed method did: `Failed` covers unroutable and undecodable requests too. */
  datatype MethodResult = Replied(payload: string) | Failed(err: Error, message: string)

  function Dispatch(req: Request, result: MethodResult): Response {
    match result
    case Replied(payload) => NewResponse(req, payload)
    case Failed(err, message) => ErrorResponse(req, err, message)
  }

  datatype Handled = Handled(cache: Cache, resp: Response, executed: bool)

  /**
   One request through the wrapper: looked up at `t0`; on a miss the method runs, with
   `result`, and an OK response is stored at `t1`.
   */
  function Handle(c: Cache, req: Request, t0: int, t1: int, result: MethodResult): Handled {
    var (c1, hit) := Lookup(c, req.idempotencyKey, t0);
    if hit.Some? then Handled(c1, Replay(hit.value, req), false)
    else
      var resp := Dispatch(req, result);
      Handled(if resp.status == OK then Store(c1, req.idempotencyKey, resp, t1) else c1, resp, true)
  }

  /** The cached response but for the asker's id and the marker among the metadata. */
  predicate IsReplay(resp: Response, cached: Response, id: string) {
    && resp.requestId == id
    && resp.metadata ==
         Some((if cached.metadata.None? then map[] else cached.metadata.value)["idempotent-replay" := "true"])
    && resp.(requestId := cached.requestId, metadata := cached.metadata) == cached
  }

  /** The nth replay matches the first: only the request id follows the asker. */
  lemma ReplaysAgree(cached: Response, a: Request, b: Request)
    ensures IsReplay(Replay(cached, a), cached, a.requestId)
    ensures Replay(cached, a).(requestId := b.requestId) == Replay(cached, b)
    ensures Replay(Replay(cached, a), b) == Replay(cached, b)
  {
    var meta := if cached.metadata.None? then map[] else cached.metadata.value;
    assert meta[REPLAY_MARK := "true"][REPLAY_MARK := "true"] == meta[REPLAY_MARK := "true"];
  }

  /** What the method's result becomes on the wire. */
  predicate IsAnswer(resp: Response, req: Request, result: MethodResult) {
    && resp.requestId == req.requestId && resp.service == req.service && resp.rpcMethod == req.rpcMethod
    && resp.clientSentAt == req.clientSentAt && resp.metadata == None
    && match result
       case Replied(payload) => resp.status == OK && resp.payload == Some(payload) && resp.errorMessage == ""
       case Failed(err, message) =>
         resp.status == StatusOf(Some(err)) && resp.payload == None && resp.errorMessage == message
  }

  /** The cache after a miss: only the entry of the key changes, to the fresh OK response or to nothing. */
  predicate IsUpdated(c': Cache, c: Cache, key: string, resp: Response, now: int) {
    && c'.ttl == c.ttl && c'.hits == c.hits && c'.entries - {key} == c.entries - {key}
    && if key == "" || c.ttl <= 0 then c'.entries == c.entries
       else if resp.status == OK then key in c'.entries && c'.entries[key] == Cached(resp, now + c.ttl)
       else key !in c'.entries
  }

  /**
   What the wrapper does with a request, exactly: while the cache has an answer it is replayed, one
   hit is counted and nothing runs; otherwise the method runs, its result is the answer, and the
   cache keeps it for a ttl if and only if it is OK and the request has a key.
   */
  lemma HandleMeans(c: Cache, req: Request, t0: int, t1: int, result: MethodResult)
    ensures var h, key := Handle(c, req, t0, t1, result), req.idempotencyKey;
      && (h.executed <==> !Live(c, key, t0))
      && (Live(c, key, t0) ==>
            IsReplay(h.resp, c.entries[key].resp, req.requestId) && h.cache == c.(hits := c.hits + 1))
      && (h.executed ==> IsAnswer(h.resp, req, result) && IsUpdated(h.cache, c, key, h.resp, t1))
  {
    var key := req.idempotencyKey;
    if Live(c, key, t0) {
      hide Dispatch, Store;
      ReplaysAgree(c.entries[key].resp, req, req);
    } else {
      hide Replay, StatusOf;
      var h := Handle(c, req, t0, t1, result);
      assert h.cache.entries - {key} == c.entries - {key};
    }
  }

  // ---- the mutable objects -----------------------------------------------------

  /** A *Response. */
  class ResponseRef {
    var value: Response

    constructor (value: Response)
      ensures this.value == value
    {
      this.value := value;
    }
  }

  /** The clone of a cached response, edited for the request that asks. */
  method ReplayOf(cached: ResponseRef, req: Request) returns (replay: ResponseRef)
    ensures fresh(replay) && replay.value == Replay(cached.value, req)
  {
    replay := new ResponseRef(cached.value);
    replay.value := replay.value.(requestId := req.requestId);
    if replay.value.metadata.None? {
      replay.value := replay.value.(metadata := Some(map[]));
    }
    replay.value := replay.value.(metadata := Some(replay.value.metadata.value[REPLAY_MARK := "true"]));
  }

  datatype Slot = Slot(resp: ResponseRef, expires: int)

  class IdempotencyCache {
    const ttl: int
    var entries: map<string, Slot>
    var hits: nat

    constructor (ttl: int)
      ensures this.ttl == ttl && View() == EmptyCache(ttl) && entries == map[]
    {
      this.ttl := ttl;
      entries := map[];
      hits := 0;
    }

    ghost function Responses(): set<ResponseRef>
      reads this
    {
      set k | k in entries :: entries[k].resp
    }

    ghost function View(): Cache
      reads this, Responses()
    {
      Cache(ttl, map k | k in entries :: Cached(entries[k].resp.value, entries[k].expires), hits)
    }

    method Get(key: string, now: int) returns (r: Option<ResponseRef>)
      modifies this
      ensures View() == Lookup(old(View()), key, now).0
      ensures r.Some? <==> Lookup(old(View()), key, now).1.Some?
      ensures r.Some? ==>
        key in entries && r.value == entries[key].resp && Lookup(old(View()), key, now).1 == Some(r.value.value)
      ensures Responses() <= old(Responses())
    {
      if key == "" || ttl <= 0 {
        return None;
      }
      if key !in entries {
        return None;
      }
      if now > entries[key].expires {
        entries := entries - {key};
        return None;
      }
      hits := hits + 1;
      return Some(entries[key].resp);
    }

    method Put(key: string, resp: ResponseRef, now: int)
      modifies this
      ensures View() == Store(old(View()), key, old(resp.value), now)
      ensures Responses() <= old(Responses()) + {resp}
    {
      if key == "" || ttl <= 0 {
        return;
      }
      entries := entries[key := Slot(resp, now + ttl)];
    }

    /**
     `idempotent`. The only objects written are the cache itself and responses made during
     the call, so no cached response ever changes; a replay is never the cached object.
     */
    method Idempotent(req: Request, t0: int, t1: int, result: MethodResult) returns (resp: ResponseRef)
      modifies this
      ensures View() == Handle(old(View()), req, t0, t1, result).cache
      ensures resp.value == Handle(old(View()), req, t0, t1, result).resp
      ensures var key := req.idempotencyKey;
        if Live(old(View()), key, t0) then IsReplay(resp.value, old(View()).entries[key].resp, req.requestId)
        else IsAnswer(resp.value, req, result)
      ensures fresh(resp) && forall r :: r in old(Responses()) ==> r.value == old(r.value)
      ensures !Handle(old(View()), req, t0, t1, result).executed ==> resp !in Responses()
    {
      hide Replay, Dispatch, IsReplay, IsAnswer, IsUpdated;
      HandleMeans(View(), req, t0, t1, result);
      var key := req.idempotencyKey;
      var cached := Get(key, t0);
      if cached.Some? {
        resp := ReplayOf(cached.value, req);
        return;
      }
      resp := new ResponseRef(Dispatch(req, result));
      if resp.value.status == OK {
        Put(key, resp, t1);
      }
    }
  }

  // ---- histories of one service ------------------------------------------------

  /** A completed method execution: looked up at `start`, completed at `end`. */
  datatype Execution = Execution(key: string, start: int, end: int, resp: Response, life: nat)

  /** `life` counts restarts; the cache does not survive one. */
  datatype Svc = Svc(cache: Cache, now: int, life: nat, log: seq<Execution>)

  function StartService(ttl: int, now: int): Svc {
    Svc(EmptyCache(ttl), now, 0, [])
  }

  datatype Event =
    | Serve(req: Request, t0: int, t1: int, result: MethodResult)
    | Restart(at: int)

  predicate Enabled(s: Svc, e: Event) {
    match e
    case Serve(_, t0, t1, _) => s.now <= t0 <= t1
    case Restart(at) => s.now <= at
  }

  function Apply(s: Svc, e: Event): Svc
    requires Enabled(s, e)
  {
    match e
    case Serve(req, t0, t1, result) =>
      var h := Handle(s.cache, req, t0, t1, result);
      Svc(h.cache, t1, s.life,
          if h.executed then s.log + [Execution(req.idempotencyKey, t0, t1, h.resp, s.life)] else s.log)
    case Restart(at) => Svc(EmptyCache(s.cache.ttl), at, s.life + 1, s.log)
  }

  predicate CompletedOK(e: Execution) {
    e.resp.status == OK
  }

  /** Execution `i` is one the cache of the current life is responsible for. */
  ghost predicate Guarded(s: Svc, i: int) {
    0 <= i < |s.log| && s.log[i].key != "" && s.log[i].life == s.life && CompletedOK(s.log[i])
  }

  /** Its response is still cached for the rest of its ttl, or the ttl has passed. */
  ghost predicate Covered(s: Svc, i: int)
    requires 0 <= i < |s.log|
  {
    var key, until := s.log[i].key, s.log[i].end + s.cache.ttl;
    (key in s.cache.entries && s.cache.entries[key].expires >= until) || s.now > until
  }

  /** A cached response is that of some OK execution of its key, in the current life. */
  ghost predicate FromLog(s: Svc, key: string)
    requires key in s.cache.entries
  {
    exists i :: Guarded(s, i) && s.log[i].key == key &&
                s.cache.entries[key] == Cached(s.log[i].resp, s.log[i].end + s.cache.ttl)
  }

  /** OK executions of one key in one life. */
  predicate Rivals(a: Execution, b: Execution) {
    a.key == b.key != "" && a.life == b.life && CompletedOK(a) && CompletedOK(b)
  }

  /** Rivals are more than a ttl apart. */
  ghost predicate Apart(log: seq<Execution>, ttl: int) {
    forall i, j :: 0 <= i < j < |log| && Rivals(log[i], log[j]) ==> log[j].start > log[i].end + ttl
  }

  ghost predicate Inv(s: Svc) {
    (forall i :: 0 <= i < |s.log| ==> s.log[i].life <= s.life && s.log[i].start <= s.log[i].end <= s.now) &&
    (s.cache.ttl > 0 ==>
       (forall i :: Guarded(s, i) ==> Covered(s, i)) &&
       (forall key :: key in s.cache.entries ==> FromLog(s, key)) &&
       Apart(s.log, s.cache.ttl))
  }

  lemma StartSatisfiesInv(ttl: int, now: int)
    ensures Inv(StartService(ttl, now))
  {
  }

  lemma HitKeepsInv(s: Svc, e: Event)
    requires Inv(s) && Enabled(s, e) && e.Serve? && s.cache.ttl > 0
    requires Lookup(s.cache, e.req.idempotencyKey, e.t0).1.Some?
    ensures Inv(Apply(s, e))
  {
    var s' := Apply(s, e);
    forall i | Guarded(s', i) ensures Covered(s', i) {
      assert Guarded(s, i) && Covered(s, i);
    }
    forall key | key in s'.cache.entries ensures FromLog(s', key) {
      assert FromLog(s, key);
      var i :| Guarded(s, i) && s.log[i].key == key &&
               s.cache.entries[key] == Cached(s.log[i].resp, s.log[i].end + s.cache.ttl);
      assert Guarded(s', i);
    }
  }

  lemma MissKeepsCover(s: Svc, e: Event, i: int)
    requires Inv(s) && Enabled(s, e) && e.Serve? && s.cache.ttl > 0
    requires Lookup(s.cache, e.req.idempotencyKey, e.t0).1.None? && Guarded(Apply(s, e), i)
    ensures Covered(Apply(s, e), i)
  {
    hide FromLog, Apart;
    if i < |s.log| {
      assert Guarded(s, i) && Covered(s, i);
    }
  }

  lemma MissKeepsOrigin(s: Svc, e: Event, k: string)
    requires Inv(s) && Enabled(s, e) && e.Serve? && s.cache.ttl > 0
    requires Lookup(s.cache, e.req.idempotencyKey, e.t0).1.None? && k in Apply(s, e).cache.entries
    ensures FromLog(Apply(s, e), k)
  {
    hide Covered, Apart, Dispatch;
    var s', n := Apply(s, e), |s.log|;
    if k == e.req.idempotencyKey && CompletedOK(s'.log[n]) {
      assert Guarded(s', n);
    } else {
      assert FromLog(s, k);
      var i :| Guarded(s, i) && s.log[i].key == k &&
               s.cache.entries[k] == Cached(s.log[i].resp, s.log[i].end + s.cache.ttl);
      assert Guarded(s', i);
    }
  }

  /** A miss on a key that completed OK before can only come after that completion's ttl. */
  lemma MissComesLate(s: Svc, e: Event, i: int)
    requires Inv(s) && Enabled(s, e) && e.Serve? && s.cache.ttl > 0
    requires Lookup(s.cache, e.req.idempotencyKey, e.t0).1.None?
    requires Guarded(s, i) && s.log[i].key == e.req.idempotencyKey
    ensures e.t0 > s.log[i].end + s.cache.ttl
  {
    hide FromLog, Apart;
    assert Covered(s, i);
  }

  lemma MissKeepsInv(s: Svc, e: Event)
    requires Inv(s) && Enabled(s, e) && e.Serve? && s.cache.ttl > 0
    requires Lookup(s.cache, e.req.idempotencyKey, e.t0).1.None?
    ensures Inv(Apply(s, e))
  {
    hide Covered, FromLog;
    var s' := Apply(s, e);
    forall i | Guarded(s', i) ensures Covered(s', i) {
      MissKeepsCover(s, e, i);
    }
    forall k | k in s'.cache.entries ensures FromLog(s', k) {
      MissKeepsOrigin(s, e, k);
    }
    forall i | Guarded(s, i) && s.log[i].key == e.req.idempotencyKey
      ensures e.t0 > s.log[i].end + s.cache.ttl
    {
      MissComesLate(s, e, i);
    }
    forall i, j | 0 <= i < j < |s'.log| && Rivals(s'.log[i], s'.log[j])
      ensures s'.log[j].start > s'.log[i].end + s.cache.ttl
    {
      if j == |s.log| {
        assert Guarded(s, i);
      } else {
        assert Rivals(s.log[i], s.log[j]);
      }
    }
  }

  lemma RestartKeepsInv(s: Svc, e: Event)
    requires Inv(s) && Enabled(s, e) && e.Restart?
    ensures Inv(Apply(s, e))
  {
  }

  lemma ApplyKeepsInv(s: Svc, e: Event)
    requires Inv(s) && Enabled(s, e)
    ensures Inv(Apply(s, e))
    ensures Apply(s, e).cache.ttl == s.cache.ttl
  {
    if e.Restart? {
      RestartKeepsInv(s, e);
    } else if s.cache.ttl > 0 {
      if Lookup(s.cache, e.req.idempotencyKey, e.t0).1.Some? {
        HitKeepsInv(s, e);
      } else {
        MissKeepsInv(s, e);
      }
    }
  }

  ghost predicate Run(ss: seq<Svc>, es: seq<Event>, ttl: int, now: int) {
    |ss| == |es| + 1 && ss[0] == StartService(ttl, now) &&
    forall i :: 0 <= i < |es| ==> Enabled(ss[i], es[i]) && ss[i + 1] == Apply(ss[i], es[i])
  }

  lemma {:induction false} RunKeepsInv(ss: seq<Svc>, es: seq<Event>, ttl: int, now: int, n: nat)
    requires Run(ss, es, ttl, now) && n < |ss|
    ensures Inv(ss[n]) && ss[n].cache.ttl == ttl
    decreases n
  {
    if n == 0 {
      StartSatisfiesInv(ttl, now);
    } else {
      RunKeepsInv(ss, es, ttl, now, n - 1);
      assert Enabled(ss[n - 1], es[n - 1]) && ss[n] == Apply(ss[n - 1], es[n - 1]);
      ApplyKeepsInv(ss[n - 1], es[n - 1]);
    }
  }

  /**
   Whatever requests arrive in whatever order and however often: within one service life,
   two OK completions of a non-empty key are separated by more than the ttl.
   */
  lemma AtMostOncePerTtl(ss: seq<Svc>, es: seq<Event>, ttl: int, now: int)
    requires Run(ss, es, ttl, now) && ttl > 0
    ensures Apart(ss[|es|].log, ttl)
  {
    RunKeepsInv(ss, es, ttl, now, |es|);
  }

  /** Until the ttl has passed since a key completed OK, every further request gets that response back. */
  lemma ReplayedUntilTtl(s: Svc, e: Event, i: nat)
    requires Inv(s) && Enabled(s, e) && e.Serve? && s.cache.ttl > 0 && Guarded(s, i)
    requires e.req.idempotencyKey == s.log[i].key && e.t0 <= s.log[i].end + s.cache.ttl
    ensures var h := Handle(s.cache, e.req, e.t0, e.t1, e.result);
      !h.executed && h.resp == Replay(s.log[i].resp, e.req)
  {
    assert Covered(s, i);
    var key := s.log[i].key;
    assert FromLog(s, key);
    var j :| Guarded(s, j) && s.log[j].key == key &&
             s.cache.entries[key] == Cached(s.log[j].resp, s.log[j].end + s.cache.ttl);
    assert Rivals(s.log[i], s.log[j]) && Rivals(s.log[j], s.log[i]);
  }
}
