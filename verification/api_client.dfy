/** The axios client's error handling: the message shown for a failed
    request, and the response interceptor's 401 token-refresh protocol with
    its queue of requests waiting for the new token. */
module ApiClient {
  import opened Wrappers

  /** A JavaScript string field read for truthiness: present and non-empty. */
  predicate Truthy(s: Option<string>) {
    s.Some? && s.value != ""
  }

  /** The JSON body of an error response, reduced to the two fields read. */
  datatype ErrorBody = ErrorBody(message: Option<string>, error: Option<string>)

  datatype HttpResponse = HttpResponse(status: int, data: Option<ErrorBody>)

  /** A thrown value: an axios error (which is also an `Error`), any other
      `Error`, or a value that is not an `Error` at all. */
  datatype ErrorValue =
    | AxiosError(response: Option<HttpResponse>, code: Option<string>, message: string)
    | PlainError(message: string)
    | NotAnError

  const NetworkMessage := "Network error. Please check your connection."
  const TimeoutMessage := "Request timeout. Please try again."
  const UnexpectedMessage := "An unexpected error occurred"

  /** The server's `message` field of an axios error, if truthy. */
  function BodyMessage(e: ErrorValue): Option<string> {
    if e.AxiosError? && e.response.Some? && e.response.value.data.Some?
       && Truthy(e.response.value.data.value.message)
    then e.response.value.data.value.message
    else None
  }

  /** The server's `error` field of an axios error, if truthy. */
  function BodyError(e: ErrorValue): Option<string> {
    if e.AxiosError? && e.response.Some? && e.response.value.data.Some?
       && Truthy(e.response.value.data.value.error)
    then e.response.value.data.value.error
    else None
  }

  /** `extractErrorMessage`: the first of the server's `message`, the
      server's `error`, the fixed text for a network failure or a timeout,
      the error's own message, or a generic text for a non-`Error`. */
  function ExtractErrorMessage(e: ErrorValue): (r: string)
    ensures BodyMessage(e).Some? ==> r == BodyMessage(e).value
    ensures BodyMessage(e).None? && BodyError(e).Some? ==> r == BodyError(e).value
    ensures BodyMessage(e).None? && BodyError(e).None? && e.AxiosError? ==>
              r == (if e.code == Some("ERR_NETWORK") then NetworkMessage
                    else if e.code == Some("ECONNABORTED") then TimeoutMessage
                    else e.message)
    ensures e.PlainError? ==> r == e.message
    ensures e.NotAnError? ==> r == UnexpectedMessage
  {
    if BodyMessage(e).Some? then BodyMessage(e).value
    else if BodyError(e).Some? then BodyError(e).value
    else if e.AxiosError? && e.code == Some("ERR_NETWORK") then NetworkMessage
    else if e.AxiosError? && e.code == Some("ECONNABORTED") then TimeoutMessage
    else if e.AxiosError? || e.PlainError? then e.message
    else UnexpectedMessage
  }

  /** The classifier never shows a blank message in place of a text it was
      given: the result is empty only when no server text applies and the
      error's own message is empty. */
  lemma BlankMessageOnlyFromBlankError(e: ErrorValue)
    ensures ExtractErrorMessage(e) == "" <==>
              BodyMessage(e).None? && BodyError(e).None? && (e.AxiosError? || e.PlainError?) && e.message == ""
              && !(e.AxiosError? && e.code in {Some("ERR_NETWORK"), Some("ECONNABORTED")})
  {
  }

  /** A request as the interceptor sees it: `_retry` marks one that has
      already been through a refresh; `token` is the bearer token it carries. */
  datatype Request = Request(url: string, retry: bool, token: Option<string>)

  /** The interceptor's module state (`isRefreshing`, `refreshSubscribers`),
      plus whether a refresh POST is actually outstanding. */
  datatype RefreshState = RefreshState(isRefreshing: bool, subscribers: seq<Request>, refreshInFlight: bool)

  const Initial := RefreshState(false, [], false)

  /** `subscribeTokenRefresh`: append a waiting request. */
  function Subscribe(st: RefreshState, req: Request): (r: RefreshState)
    ensures r.subscribers == st.subscribers + [req]
    ensures r.isRefreshing == st.isRefreshing && r.refreshInFlight == st.refreshInFlight
  {
    st.(subscribers := st.subscribers + [req])
  }

  /** `onTokenRefreshed`: every waiting request is re-sent once with the new
      token, in the order it subscribed, and the queue is emptied. */
  function OnTokenRefreshed(st: RefreshState, token: string): (r: (RefreshState, seq<Request>))
    ensures r.0.subscribers == []
    ensures r.0.isRefreshing == st.isRefreshing && r.0.refreshInFlight == st.refreshInFlight
    ensures |r.1| == |st.subscribers|
    ensures forall i :: 0 <= i < |r.1| ==> r.1[i] == st.subscribers[i].(token := Some(token))
  {
    (st.(subscribers := []),
     seq(|st.subscribers|, i requires 0 <= i < |st.subscribers| => st.subscribers[i].(token := Some(token))))
  }

  /** What the error interceptor does with a failed response. */
  datatype Action =
    | Queued                       // waits for the refresh already running
    | Refresh(request: Request)    // starts a refresh, then retries `request`
    | Reject                       // passes the error on

  /** The 401 branch applies only to a 401 on a request not yet retried. */
  predicate RefreshEligible(status: Option<int>, req: Option<Request>) {
    status == Some(401) && req.Some? && !req.value.retry
  }

  /** The error interceptor as written: on an eligible 401 it queues behind
      a running refresh, or marks the request `_retry`, sets `isRefreshing`
      and refreshes when a refresh token is stored.  Without a refresh token
      it clears the tokens and rejects, leaving `isRefreshing` set. */
  function OnResponseError(st: RefreshState, status: Option<int>, req: Option<Request>, refreshToken: Option<string>)
    : (r: (RefreshState, Action))
    ensures !RefreshEligible(status, req) ==> r == (st, Reject)
    ensures RefreshEligible(status, req) && st.isRefreshing ==>
              r == (Subscribe(st, req.value), Queued)
    ensures r.1.Refresh? ==>
              RefreshEligible(status, req) && r.1.request == req.value.(retry := true)
              && r.0.isRefreshing && r.0.refreshInFlight && r.0.subscribers == st.subscribers
    ensures RefreshEligible(status, req) && !st.isRefreshing ==> r.0.isRefreshing
    // With a stored refresh token: mark the request and start the refresh.
    ensures RefreshEligible(status, req) && !st.isRefreshing && Truthy(refreshToken) ==>
              r == (st.(isRefreshing := true, refreshInFlight := true), Refresh(req.value.(retry := true)))
    // Without one: reject, with `isRefreshing` left set and no refresh started.
    ensures RefreshEligible(status, req) && !st.isRefreshing && !Truthy(refreshToken) ==>
              r == (st.(isRefreshing := true), Reject)
  {
    if !RefreshEligible(status, req) then (st, Reject)
    else if st.isRefreshing then (Subscribe(st, req.value), Queued)
    else
      var marked := req.value.(retry := true);
      var st1 := st.(isRefreshing := true);
      if Truthy(refreshToken) then (st1.(refreshInFlight := true), Refresh(marked))
      else (st1, Reject)
  }

  /** The error interceptor with `isRefreshing` reset on the path that has no
      refresh token, as the refresh-failure path already does. */
  function OnResponseErrorFixed(st: RefreshState, status: Option<int>, req: Option<Request>, refreshToken: Option<string>)
    : (r: (RefreshState, Action))
    ensures r.1 == OnResponseError(st, status, req, refreshToken).1
    ensures RefreshEligible(status, req) && !st.isRefreshing && !Truthy(refreshToken) ==>
              r.0 == st.(isRefreshing := false)
    // On every other path it is the original interceptor.
    ensures !(RefreshEligible(status, req) && !st.isRefreshing && !Truthy(refreshToken)) ==>
              r == OnResponseError(st, status, req, refreshToken)
  {
    var written := OnResponseError(st, status, req, refreshToken);
    if RefreshEligible(status, req) && !st.isRefreshing && !Truthy(refreshToken)
    then (written.0.(isRefreshing := false), written.1)
    else written
  }

  /** The refresh POST succeeded: clear the flag, then release the waiting
      requests with the new token. */
  function RefreshSucceeded(st: RefreshState, token: string): (r: (RefreshState, seq<Request>))
    requires st.refreshInFlight
    ensures !r.0.isRefreshing && !r.0.refreshInFlight && r.0.subscribers == []
    ensures |r.1| == |st.subscribers|
    // The released requests are the queued ones, in order, with the new token.
    ensures forall i :: 0 <= i < |r.1| ==> r.1[i] == st.subscribers[i].(token := Some(token))
  {
    OnTokenRefreshed(st.(isRefreshing := false, refreshInFlight := false), token)
  }

  /** The refresh POST failed: clear the flag and reject. */
  function RefreshFailed(st: RefreshState): (r: RefreshState)
    requires st.refreshInFlight
    ensures !r.isRefreshing && !r.refreshInFlight && r.subscribers == st.subscribers
  {
    st.(isRefreshing := false, refreshInFlight := false)
  }

  /** `isRefreshing` is set exactly while a refresh POST is outstanding, so a
      request is queued only while a refresh is running.  A failed refresh
      keeps the queue, so requests queued behind it are never released. */
  predicate Consistent(st: RefreshState) {
    st.isRefreshing == st.refreshInFlight
  }

  /** A request that went through the refresh path is marked and is never
      refreshed or queued a second time. */
  lemma RefreshAtMostOnce(st: RefreshState, st': RefreshState, status: Option<int>, req: Option<Request>, tok: Option<string>)
    requires OnResponseError(st, status, req, tok).1.Refresh?
    ensures var again := OnResponseError(st', Some(401), Some(OnResponseError(st, status, req, tok).1.request), tok);
            again.1 == Reject && again.0 == st'
  {
  }

  /** As written: a 401 with no stored refresh token leaves `isRefreshing`
      set with no refresh running, so the next eligible 401 is queued and
      nothing will ever release it. */
  lemma StuckRefreshFlag(req1: Request, req2: Request)
    requires !req1.retry && !req2.retry
    ensures var after := OnResponseError(Initial, Some(401), Some(req1), None).0;
            !Consistent(after)
            && OnResponseError(after, Some(401), Some(req2), Some("refresh")).1 == Queued
            && !OnResponseError(after, Some(401), Some(req2), Some("refresh")).0.refreshInFlight
  {
  }

  /** Corrected: every transition keeps `isRefreshing` in step with the
      outstanding refresh. */
  lemma FixedKeepsConsistent(st: RefreshState, status: Option<int>, req: Option<Request>, tok: Option<string>, token: string)
    requires Consistent(st)
    ensures Consistent(OnResponseErrorFixed(st, status, req, tok).0)
    ensures st.refreshInFlight ==> Consistent(RefreshSucceeded(st, token).0) && Consistent(RefreshFailed(st))
  {
  }

  /** Corrected: a request is queued only while a refresh is actually running. */
  lemma FixedQueuesOnlyBehindRefresh(st: RefreshState, status: Option<int>, req: Option<Request>, tok: Option<string>)
    requires Consistent(st)
    requires OnResponseErrorFixed(st, status, req, tok).1 == Queued
    ensures OnResponseErrorFixed(st, status, req, tok).0.refreshInFlight
  {
  }
}
