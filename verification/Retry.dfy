/** RetryClient: re-send transient failures under a new request id and one idempotency key. */
module Retry {
  import opened Wrappers
  import opened Rpc

  /** A request as the Go code passes it: a pointer whose fields a transport may overwrite. */
  class RequestRef {
    var value: Request

    constructor (value: Request)
      ensures this.value == value
    {
      this.value := value;
    }
  }

  /**
   What happens outside the client during one Call, indexed by attempt (from 1):
   the ids uuid.NewString mints (index 0 mints the key), the inner client's outcome, what the
   inner client leaves in the request it was handed, and whether the context outlives the
   backoff after the attempt.
   */
  datatype World = World(
    mint: nat -> string,
    inner: (nat, Request) -> Outcome,
    stamp: (nat, Request) -> Request,
    awake: nat -> bool)

  ghost predicate MintsIds(w: World) {
    forall i :: w.mint(i) != ""
  }

  /**
   Every request is the caller's own but for two fields: all carry the caller's key, or one minted
   key if the caller has none, and all after the first a minted id.
   */
  ghost predicate Sends(w: World, req: Request, sent: seq<Request>) {
    forall i :: 0 <= i < |sent| ==>
      sent[i] == req.(requestId := if i == 0 then req.requestId else w.mint(i + 1),
                      idempotencyKey := if req.idempotencyKey != "" then req.idempotencyKey else w.mint(0))
  }

  /** The first `n` attempts were retryable, with the context alive. */
  ghost predicate GoesOn(w: World, sent: seq<Request>, n: nat)
    requires n <= |sent|
  {
    forall i :: 0 <= i < n ==> Retried(w, sent[i], i + 1)
  }

  predicate Retried(w: World, r: Request, i: nat) {
    Retryable(w.inner(i, r)) && w.awake(i)
  }

  /**
   `sent` are the requests of one whole Call and `o` its outcome. The last attempt was final, or the
   limit was reached, or the context ended the backoff; its outcome is returned.
   */
  ghost predicate IsCall(w: World, req: Request, max: nat, sent: seq<Request>, o: Outcome) {
    && 1 <= |sent| <= max && Sends(w, req, sent) && GoesOn(w, sent, |sent| - 1)
    && o == w.inner(|sent|, sent[|sent| - 1])
    && (Retryable(o) && |sent| < max ==> !w.awake(|sent|))
  }

  lemma SendsOneMore(w: World, req: Request, sent: seq<Request>, r: Request)
    requires Sends(w, req, sent) && GoesOn(w, sent, |sent|)
    requires r == req.(requestId := if |sent| == 0 then req.requestId else w.mint(|sent| + 1),
                       idempotencyKey := if req.idempotencyKey != "" then req.idempotencyKey else w.mint(0))
    ensures Sends(w, req, sent + [r]) && GoesOn(w, sent + [r], |sent|)
    ensures Retryable(w.inner(|sent| + 1, r)) && w.awake(|sent| + 1) ==> GoesOn(w, sent + [r], |sent| + 1)
  {
    hide Retryable;
    var more := sent + [r];
    forall i | 0 <= i < |sent|
      ensures more[i] == sent[i] && Retried(w, more[i], i + 1)
    {
      assert Retried(w, sent[i], i + 1);
    }
    assert more[|sent|] == r;
  }

  lemma NothingSent(w: World, req: Request)
    ensures Sends(w, req, []) && GoesOn(w, [], 0)
  {
  }

  lemma KeysSent(w: World, req: Request, sent: seq<Request>)
    requires Sends(w, req, sent)
    ensures forall i :: 0 <= i < |sent| ==>
      sent[i].idempotencyKey == if req.idempotencyKey != "" then req.idempotencyKey else w.mint(0)
  {
  }

  class RetryClient {
    const maxAttempts: nat
    var retries: nat

    constructor (maxAttempts: int)
      ensures this.maxAttempts == (if maxAttempts < 1 then 1 else maxAttempts) && retries == 0
    {
      this.maxAttempts := if maxAttempts < 1 then 1 else maxAttempts;
      retries := 0;
    }

    /**
     `sent` is what reached the inner client. The counter counts one retry too many exactly
     when the context ends the backoff.
     */
    method Call(w: World, req: RequestRef) returns (o: Outcome, sent: seq<Request>)
      requires maxAttempts >= 1 && MintsIds(w)
      modifies `retries
      ensures req.value == old(req.value)
      ensures IsCall(w, req.value, maxAttempts, sent, o)
      ensures forall i :: 0 <= i < |sent| ==>
        sent[i].idempotencyKey == if req.value.idempotencyKey != "" then req.value.idempotencyKey else w.mint(0)
      ensures retries == old(retries) + |sent| - 1 +
                         (if Retryable(o) && |sent| < maxAttempts && !w.awake(|sent|) then 1 else 0)
    {
      hide Retryable, Sends, GoesOn;
      var key := req.value.idempotencyKey;
      if key == "" {
        key := w.mint(0);
      }
      sent := [];
      NothingSent(w, req.value);
      var attempt := 1;
      while true
        invariant 1 <= attempt <= maxAttempts && |sent| == attempt - 1
        invariant retries == old(retries) + |sent|
        invariant Sends(w, req.value, sent) && GoesOn(w, sent, |sent|)
        decreases maxAttempts - attempt
      {
        var r := new RequestRef(req.value);
        r.value := r.value.(idempotencyKey := key);
        if attempt > 1 {
          r.value := r.value.(requestId := w.mint(attempt));
        }
        SendsOneMore(w, req.value, sent, r.value);
        sent := sent + [r.value];
        KeysSent(w, req.value, sent);
        o := w.inner(attempt, r.value);
        r.value := w.stamp(attempt, r.value);
        if !Retryable(o) || attempt == maxAttempts {
          return;
        }
        retries := retries + 1;
        if !w.awake(attempt) {
          return;
        }
        attempt := attempt + 1;
      }
    }
  }

  /** All attempts share one non-empty key, the caller's if it has one; only the id changes. */
  lemma AttemptsShareOneKey(w: World, req: Request, max: nat, sent: seq<Request>, o: Outcome, i: nat)
    requires MintsIds(w) && IsCall(w, req, max, sent, o) && i < |sent|
    ensures sent[i].idempotencyKey == sent[0].idempotencyKey != ""
    ensures req.idempotencyKey != "" ==> sent[i].idempotencyKey == req.idempotencyKey
    ensures sent[0].requestId == req.requestId
    ensures sent[i].(requestId := req.requestId, idempotencyKey := req.idempotencyKey) == req
  {
  }
}
