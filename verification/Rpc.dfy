/** The routing envelope of the RPC lab: requests, responses and error classification. */
module Rpc {
  import opened Wrappers

  datatype Status = Unspecified | OK | InvalidArgument | NotFound | Timeout | Unavailable | Internal

  /** One link of an error's wrap chain; `Typed` is an *rpc.Error. */
  datatype Cause =
    | Typed(status: Status)
    | DeadlineExceeded | Canceled | ErrNoResponder | ErrUnavailable | ErrNotFound | ErrInvalidArgument
    | Other

  /** A non-nil error, outermost wrapper first. */
  type Error = seq<Cause>

  /** errors.As(err, &e): the outermost typed error of the chain. */
  function FirstTyped(err: Error): (r: Option<Status>)
    ensures r.None? <==> forall i :: 0 <= i < |err| ==> !err[i].Typed?
    ensures r.Some? ==>
      exists i :: 0 <= i < |err| && err[i] == Typed(r.value) && forall j :: 0 <= j < i ==> !err[j].Typed?
  {
    if err == [] then None
    else if err[0].Typed? then Some(err[0].status)
    else
      var rest := FirstTyped(err[1..]);
      assert forall i :: 0 < i < |err| ==> err[i] == err[1..][i - 1];
      rest
  }

  function StatusOf(err: Option<Error>): Status {
    if err.None? then OK
    else
      var e, typed := err.value, FirstTyped(err.value);
      if typed.Some? then typed.value
      else if DeadlineExceeded in e then Timeout
      else if Canceled in e then Unavailable
      else if ErrNoResponder in e || ErrUnavailable in e then Unavailable
      else if ErrNotFound in e then NotFound
      else if ErrInvalidArgument in e then InvalidArgument
      else Internal
  }

  datatype Request = Request(
    requestId: string,
    service: string,
    rpcMethod: string,
    clientId: string,
    idempotencyKey: string,
    clientSentAt: int,
    payload: string)

  datatype Response = Response(
    requestId: string,
    service: string,
    rpcMethod: string,
    clientSentAt: int,
    status: Status,
    errorMessage: string,
    metadata: Option<map<string, string>>,
    payload: Option<string>)

  function NewResponse(req: Request, payload: string): Response {
    Response(req.requestId, req.service, req.rpcMethod, req.clientSentAt, OK, "", None, Some(payload))
  }

  function ErrorResponse(req: Request, err: Error, message: string): Response {
    Response(req.requestId, req.service, req.rpcMethod, req.clientSentAt, StatusOf(Some(err)), message, None, None)
  }

  /** What a client call yields; Go returns both, each possibly nil. */
  datatype Outcome = Outcome(resp: Option<Response>, err: Option<Error>)

  predicate Transient(s: Status) {
    s == Timeout || s == Unavailable
  }

  predicate Retryable(o: Outcome) {
    if o.err.Some? then Transient(StatusOf(o.err))
    else o.resp.Some? && Transient(o.resp.value.status)
  }

  /** Every reply echoes its request; an OK one carries the payload, any other the classified error. */
  lemma RepliesEcho(req: Request, payload: string, err: Error, message: string)
    ensures var ok := NewResponse(req, payload);
      && ok.requestId == req.requestId && ok.service == req.service && ok.rpcMethod == req.rpcMethod
      && ok.clientSentAt == req.clientSentAt && ok.status == OK && ok.payload == Some(payload)
      && ok.errorMessage == "" && ok.metadata == None
    ensures var bad := ErrorResponse(req, err, message);
      && bad.requestId == req.requestId && bad.service == req.service && bad.rpcMethod == req.rpcMethod
      && bad.clientSentAt == req.clientSentAt && bad.status == StatusOf(Some(err)) && bad.payload == None
      && bad.errorMessage == message && bad.metadata == None
  {
  }

  /** Which status an error gets: its outermost typed one, or the first match in order of precedence. */
  lemma StatusMeans(e: Error)
    ensures StatusOf(None) == OK
    ensures FirstTyped(e).Some? ==> StatusOf(Some(e)) == FirstTyped(e).value
    ensures FirstTyped(e).None? ==>
      var gone := Canceled in e || ErrNoResponder in e || ErrUnavailable in e;
      var s := StatusOf(Some(e));
      && (s == Timeout <==> DeadlineExceeded in e)
      && (s == Unavailable <==> DeadlineExceeded !in e && gone)
      && (s == NotFound <==> DeadlineExceeded !in e && !gone && ErrNotFound in e)
      && (s == InvalidArgument <==> DeadlineExceeded !in e && !gone && ErrNotFound !in e && ErrInvalidArgument in e)
      && (s == Internal <==> forall i :: 0 <= i < |e| ==> e[i] == Other)
  {
    if FirstTyped(e).None? {
      forall i | 0 <= i < |e| && e[i] != Other
        ensures StatusOf(Some(e)) != Internal
      {
        assert e[i] in e;
      }
    }
  }

  /**
   An untyped error is retryable exactly when its chain carries one of the four transient causes; an
   explicit *rpc.Error anywhere in the chain decides alone; without an error the response decides.
   */
  lemma RetryableErrors(resp: Option<Response>, e: Error)
    ensures FirstTyped(e).Some? ==>
              (Retryable(Outcome(resp, Some(e))) <==>
               FirstTyped(e).value == Timeout || FirstTyped(e).value == Unavailable)
    ensures FirstTyped(e).None? ==>
              (Retryable(Outcome(resp, Some(e))) <==>
               exists c :: c in e && (c.DeadlineExceeded? || c.Canceled? || c.ErrNoResponder? || c.ErrUnavailable?))
    ensures Retryable(Outcome(resp, None)) <==>
      resp.Some? && (resp.value.status == Timeout || resp.value.status == Unavailable)
  {
  }
}
