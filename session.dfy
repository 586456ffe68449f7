/** session.ts: the session layer's own token cell, the single-flight
    refresh coordinator `refreshAccessToken`, the 401-retry wrapper
    `authFetch`, the session accessors and `logout`.

    The coordinator is stated twice: as transitions on a `Coordinator`
    value (`Call` starts or joins a refresh, `Settle` delivers the
    transport's reply to the pending refresh), about which the lemmas below
    are proved, and as the class `SessionModule`, whose fields are the
    module-level variables of session.ts and whose methods are tied to those
    transitions. A promise is identified by the number of promises created
    before it; `resolved` records what each settled promise resolved to, so
    "every caller of one promise gets the same boolean" is a statement about
    that map. */
module Session {
  import opened Js
  import opened Env
  import Store
  import opened Jwt

  // ------------------------------------------------ refreshAccessToken

  /** The POST refreshAccessToken sends. The configured base URL is not part
      of this model, so the URL is the path below it. */
  function RefreshRequest(cid: string): Request
  {
    Request("refresh", Init(Some("POST"),
      map["Content-Type" := "application/json", "x-correlation-id" := cid],
      Some(Include), None))
  }

  /** A refresh POST: cookie credentials, no bearer header. */
  predicate IsRefreshPost(req: Request)
  {
    && req.url == "refresh"
    && req.init.verb == Some("POST")
    && req.init.credentials == Some(Include)
    && "Authorization" !in req.init.headers
  }

  const SessionExpired: Toast := Toast("Authentication Failed", "Session expired")
  const ServersUnreachable: Toast :=
    Toast("Authentication Failed", "Error: Couldn't connect to authentication servers.")

  /** The effect of one settled refresh: the value it stores, the toasts it
      shows, and the boolean its promise resolves to. */
  datatype Verdict = Verdict(token: JsValue, toasts: seq<Toast>, refreshed: bool)

  /** The try/catch body of the refresh closure, given the transport's
      reply to the POST: a rejected `fetch` or `res.json()` lands in the
      catch block. */
  function Judge(reply: Reply): (v: Verdict)
    ensures v.refreshed <==>
      reply.Answer? && IsOk(reply.response) && reply.response.body.Json? &&
      Truthy(Field(reply.response.body.fields, "accessToken"))
    ensures v.refreshed ==>
      v.token == Field(reply.response.body.fields, "accessToken") && Truthy(v.token)
    ensures !v.refreshed ==> v.token == Null
    ensures v.toasts == [] <==> v.refreshed || (reply.Answer? && !IsOk(reply.response))
    ensures v.toasts == [] || v.toasts == [SessionExpired] || v.toasts == [ServersUnreachable]
    ensures v.toasts == [SessionExpired] <==>
      reply.Answer? && IsOk(reply.response) && reply.response.body.Json? &&
      !Truthy(Field(reply.response.body.fields, "accessToken"))
  {
    match reply
    case NetworkError => Verdict(Null, [ServersUnreachable], false)
    case Answer(res) =>
      if !IsOk(res) then Verdict(Null, [], false)
      else
        match res.body
        case Malformed => Verdict(Null, [ServersUnreachable], false)
        case Json(fields) =>
          var t := Field(fields, "accessToken");
          if Truthy(t) then Verdict(t, [], true) else Verdict(Null, [SessionExpired], false)
  }

  /** The state refreshAccessToken works on. */
  datatype Coordinator = Coordinator(
    token: JsValue,            // the session.ts `accessToken` cell
    refreshing: Option<nat>,   // `refreshingPromise`: the pending promise
    created: nat,              // promises created so far
    posts: seq<Request>,       // refresh POSTs sent, in order
    toasts: seq<Toast>,        // notifications shown, in order
    resolved: map<nat, bool>)  // what each settled promise resolved to

  const Initial: Coordinator := Coordinator(Null, None, 0, [], [], map[])

  /** The coordinator's invariant: one POST per promise ever created, at
      most one promise pending (the newest), every older one settled. */
  predicate Valid(c: Coordinator)
  {
    && |c.posts| == c.created
    && (forall i :: 0 <= i < |c.posts| ==> IsRefreshPost(c.posts[i]))
    && (forall p :: p in c.resolved ==> p < c.created)
    && match c.refreshing
       case None => forall p :: 0 <= p < c.created ==> p in c.resolved
       case Some(p) =>
         p + 1 == c.created && p !in c.resolved &&
         forall q :: 0 <= q < p ==> q in c.resolved
  }

  /** A call `refreshAccessToken(cid)` up to its first suspension: it joins
      the pending promise, or creates a promise and sends its POST. The
      second component is the promise the caller awaits. */
  function Call(c: Coordinator, cid: string): (Coordinator, nat)
  {
    match c.refreshing
    case Some(p) => (c, p)
    case None =>
      (c.(refreshing := Some(c.created), created := c.created + 1,
          posts := c.posts + [RefreshRequest(cid)]),
       c.created)
  }

  /** The transport answers the pending POST: the store and the toasts are
      updated, the promise resolves, and `finally` clears the handle. */
  function Settle(c: Coordinator, reply: Reply): (Coordinator, bool)
    requires c.refreshing.Some?
  {
    var v := Judge(reply);
    (c.(token := v.token, refreshing := None, toasts := c.toasts + v.toasts,
        resolved := c.resolved[c.refreshing.value := v.refreshed]),
     v.refreshed)
  }

  /** `n` calls in a row, with no reply in between; the promises they await. */
  function CallAll(c: Coordinator, cids: seq<string>): (r: (Coordinator, seq<nat>))
    ensures |r.1| == |cids|
    decreases |cids|
  {
    if cids == [] then (c, [])
    else
      var first := Call(c, cids[0]);
      var rest := CallAll(first.0, cids[1..]);
      (rest.0, [first.1] + rest.1)
  }

  lemma InitialValid()
    ensures Valid(Initial)
  {
  }

  /** Both transitions keep the invariant. */
  lemma CallValid(c: Coordinator, cid: string)
    requires Valid(c)
    ensures Valid(Call(c, cid).0)
  {
    if c.refreshing.None? {
      var d := Call(c, cid).0;
      forall i | 0 <= i < |d.posts| ensures IsRefreshPost(d.posts[i]) {
        if i < |c.posts| { assert d.posts[i] == c.posts[i]; }
      }
    }
  }

  lemma SettleValid(c: Coordinator, reply: Reply)
    requires Valid(c) && c.refreshing.Some?
    ensures Valid(Settle(c, reply).0)
  {
    var d := Settle(c, reply).0;
    forall q | 0 <= q < d.created ensures q in d.resolved {
      if q < c.refreshing.value { assert q in c.resolved; }
    }
  }

  /** While a refresh is pending, a call sends nothing, changes nothing and
      awaits the pending promise; with none pending, it sends exactly one
      POST and awaits a promise that has never been seen before. */
  lemma CallStartsOrJoins(c: Coordinator, cid: string)
    requires Valid(c)
    ensures c.refreshing.Some? ==> Call(c, cid) == (c, c.refreshing.value)
    ensures c.refreshing.None? ==>
      && Call(c, cid).0.posts == c.posts + [RefreshRequest(cid)]
      && Call(c, cid).0.refreshing == Some(Call(c, cid).1)
      && Call(c, cid).1 !in c.resolved
      && Call(c, cid).0.token == c.token && Call(c, cid).0.toasts == c.toasts
  {
  }

  /** Calls that find a promise pending all await it. */
  lemma {:induction false} CallAllJoin(c: Coordinator, cids: seq<string>)
    requires c.refreshing.Some?
    ensures CallAll(c, cids).0 == c
    ensures forall i :: 0 <= i < |cids| ==> CallAll(c, cids).1[i] == c.refreshing.value
    decreases |cids|
  {
    if cids != [] {
      CallAllJoin(c, cids[1..]);
    }
  }

  /** Any number of calls that arrive while no refresh is pending send one
      POST, the first caller's, and all await the same promise. */
  lemma ConcurrentCallsShareOnePost(c: Coordinator, cids: seq<string>)
    requires Valid(c) && c.refreshing.None? && |cids| >= 1
    ensures Valid(CallAll(c, cids).0)
    ensures CallAll(c, cids).0.posts == c.posts + [RefreshRequest(cids[0])]
    ensures CallAll(c, cids).0.refreshing == Some(c.created)
    ensures CallAll(c, cids).0.token == c.token && CallAll(c, cids).0.toasts == c.toasts
    ensures forall i :: 0 <= i < |cids| ==> CallAll(c, cids).1[i] == c.created
  {
    var first := Call(c, cids[0]);
    CallValid(c, cids[0]);
    CallAllJoin(first.0, cids[1..]);
  }

  /** A whole episode: calls that arrive while no refresh is pending, then
      the transport's reply to the one POST. The result is the final state,
      the promises the callers await, and the boolean the pending promise
      resolves to. */
  function Episode(c: Coordinator, cids: seq<string>, reply: Reply): (Coordinator, seq<nat>, bool)
    requires Valid(c) && c.refreshing.None? && |cids| >= 1
  {
    ConcurrentCallsShareOnePost(c, cids);
    var calls := CallAll(c, cids);
    var settled := Settle(calls.0, reply);
    (settled.0, calls.1, settled.1)
  }

  /** Exactly one POST is sent, every caller's promise resolves to the same
      boolean, which is the reply's verdict, the handle is cleared, and at
      most one toast is shown however many callers wait. */
  lemma EveryWaiterGetsOneOutcome(c: Coordinator, cids: seq<string>, reply: Reply)
    requires Valid(c) && c.refreshing.None? && |cids| >= 1
    ensures Valid(Episode(c, cids, reply).0)
    ensures Episode(c, cids, reply).0.posts == c.posts + [RefreshRequest(cids[0])]
    ensures Episode(c, cids, reply).0.refreshing.None?
    ensures Episode(c, cids, reply).2 == Judge(reply).refreshed
    ensures forall i :: 0 <= i < |cids| ==>
      && Episode(c, cids, reply).1[i] in Episode(c, cids, reply).0.resolved
      && Episode(c, cids, reply).0.resolved[Episode(c, cids, reply).1[i]] == Episode(c, cids, reply).2
    ensures |c.toasts| <= |Episode(c, cids, reply).0.toasts| <= |c.toasts| + 1
  {
    ConcurrentCallsShareOnePost(c, cids);
    var d := CallAll(c, cids).0;
    SettleValid(d, reply);
  }

  /** Once a refresh has settled, the next call does not reuse its result:
      it sends a new POST and awaits a new promise. */
  lemma SettledRefreshIsNotReused(c: Coordinator, reply: Reply, cid: string)
    requires Valid(c) && c.refreshing.Some?
    ensures
      var (d, _) := Settle(c, reply);
      var (e, promise) := Call(d, cid);
      && e.posts == c.posts + [RefreshRequest(cid)]
      && promise != c.refreshing.value
      && promise !in d.resolved
  {
    SettleValid(c, reply);
  }

  /** The session.ts module state. */
  class SessionModule {
    const accessToken: Store.TokenCell
    var refreshingPromise: Option<nat>
    var created: nat
    var posts: seq<Request>
    var toasts: seq<Toast>
    var resolved: map<nat, bool>

    function State(): Coordinator
      reads this, accessToken
    {
      Coordinator(accessToken.value, refreshingPromise, created, posts, toasts, resolved)
    }

    constructor ()
      ensures fresh(accessToken)
      ensures State() == Initial
    {
      accessToken := new Store.TokenCell();
      refreshingPromise := None;
      created := 0;
      posts := [];
      toasts := [];
      resolved := map[];
    }

    /** `refreshAccessToken(cid)` up to the `await fetch`: return the pending
        promise, or create one and send its POST. */
    method RefreshAccessToken(cid: string) returns (promise: nat)
      modifies this
      ensures (State(), promise) == Call(old(State()), cid)
    {
      if refreshingPromise.Some? {
        return refreshingPromise.value;
      }
      promise := created;
      posts := posts + [RefreshRequest(cid)];
      created := created + 1;
      refreshingPromise := Some(promise);
    }

    /** The rest of the refresh closure, once the transport has replied. */
    method SettleRefresh(reply: Reply) returns (refreshed: bool)
      requires refreshingPromise.Some?
      modifies this, accessToken
      ensures (State(), refreshed) == Settle(old(State()), reply)
    {
      var promise := refreshingPromise.value;
      match reply {
        case NetworkError =>
          toasts := toasts + [ServersUnreachable];
          accessToken.Set(Null);
          refreshed := false;
        case Answer(res) =>
          if !IsOk(res) {
            accessToken.Set(Null);
            refreshed := false;
          } else {
            match res.body {
              case Malformed =>
                toasts := toasts + [ServersUnreachable];
                accessToken.Set(Null);
                refreshed := false;
              case Json(fields) =>
                var t := Field(fields, "accessToken");
                if Truthy(t) {
                  accessToken.Set(t);
                  refreshed := true;
                } else {
                  toasts := toasts + [SessionExpired];
                  accessToken.Set(Null);
                  refreshed := false;
                }
            }
          }
      }
      assert Judge(reply).refreshed == refreshed;
      assert Judge(reply).token == accessToken.value;
      assert toasts == old(toasts) + Judge(reply).toasts;
      resolved := resolved[promise := refreshed];
      refreshingPromise := None;
    }

    /** `logout()`: only the cell is cleared; nothing is sent. */
    method Logout()
      modifies accessToken
      ensures State() == old(State()).(token := Null)
    {
      accessToken.Set(Null);
    }
  }

  // ------------------------------------------------------ session accessors

  /** `GetSessionInfo()` given the cell's value: `Ok(None)` is null, `Err`
      is an exception thrown by the decoding chain, which is not caught. */
  function GetSessionInfo(token: JsValue, host: Host): (r: Result<Option<Payload>, JwtError>)
    ensures r == Ok(None) <==> !Truthy(token)
    ensures r.Ok? && r.value.Some? ==> Truthy(token) && ParseJwt(token.s, host) == Ok(r.value.value)
    ensures r.Err? <==> Truthy(token) && ParseJwt(token.s, host).Err?
    ensures r.Err? ==> r.error == ParseJwt(token.s, host).error
    ensures Truthy(token) && '.' !in token.s ==> r == Err(MissingSegment)
  {
    if !Truthy(token) then Ok(None)
    else
      ParseJwtMissingSegment(token.s, host);
      match ParseJwt(token.s, host)
      case Ok(p) => Ok(Some(p))
      case Err(e) => Err(e)
  }

  /** `isAuthenticated()` at time `nowMs` (`Date.now()`). */
  function IsAuthenticated(token: JsValue, host: Host, nowMs: int): (r: Result<bool, JwtError>)
    ensures r.Err? <==> GetSessionInfo(token, host).Err?
    ensures r == Ok(true) <==>
      && GetSessionInfo(token, host).Ok?
      && GetSessionInfo(token, host).value.Some?
      && GetSessionInfo(token, host).value.value.exp.Some?
      && nowMs < 1000 * GetSessionInfo(token, host).value.value.exp.value
    ensures !Truthy(token) ==> r == Ok(false)
  {
    match GetSessionInfo(token, host)
    case Err(e) => Err(e)
    case Ok(None) => Ok(false)
    case Ok(Some(p)) => Ok(p.exp.Some? && p.exp.value > nowMs / 1000)
  }

  /** `getUserId()`: null exactly when there is no token. */
  function GetUserId(token: JsValue, host: Host): (r: Result<Option<int>, JwtError>)
    ensures r == Ok(None) <==> !Truthy(token)
    ensures r.Err? <==> GetSessionInfo(token, host).Err?
    ensures r.Ok? && r.value.Some? ==>
      Truthy(token) && ParseJwt(token.s, host).Ok? && r.value.value == ParseJwt(token.s, host).value.userId
  {
    match GetSessionInfo(token, host)
    case Err(e) => Err(e)
    case Ok(None) => Ok(None)
    case Ok(Some(p)) => Ok(Some(p.userId))
  }

  /** `getUsername()`: null exactly when there is no token. */
  function GetUsername(token: JsValue, host: Host): (r: Result<Option<string>, JwtError>)
    ensures r == Ok(None) <==> !Truthy(token)
    ensures r.Err? <==> GetSessionInfo(token, host).Err?
    ensures r.Ok? && r.value.Some? ==>
      Truthy(token) && ParseJwt(token.s, host).Ok? && r.value.value == ParseJwt(token.s, host).value.username
  {
    match GetSessionInfo(token, host)
    case Err(e) => Err(e)
    case Ok(None) => Ok(None)
    case Ok(Some(p)) => Ok(Some(p.username))
  }

  // --------------------------------------------------------------- authFetch

  /** The header set authFetch builds for its first request: the caller's
      headers, then `Authorization` when the token is truthy, then the
      correlation id. */
  predicate Decorated(h: map<string, string>, base: map<string, string>, token: JsValue, cid: string)
  {
    && h.Keys == base.Keys + {"x-correlation-id"} + (if Truthy(token) then {"Authorization"} else {})
    && h["x-correlation-id"] == cid
    && (Truthy(token) ==> h["Authorization"] == "Bearer " + token.s)
    && (forall k :: k in base && k != "x-correlation-id" && (k != "Authorization" || !Truthy(token)) ==>
          h[k] == base[k])
  }

  /** `authFetch(input, cid, init)`. The inputs stand for what happens
      outside it: `token` is what `get(accessToken)` returns at the start,
      `first` the transport's reply to the first request, `refreshed` what
      the awaited `refreshAccessToken(cid)` resolves to (read only after a
      401), `newToken` what `get(accessToken)` returns after it, and
      `second` the reply to the retry. `sent` lists the requests passed to
      the transport. */
  method AuthFetch(token: JsValue, input: string, cid: string, init: Init,
                   first: Reply, refreshed: bool, newToken: JsValue, second: Reply)
    returns (r: Completion<Response>, sent: seq<Request>)
    ensures 1 <= |sent| <= 2
    ensures forall i :: 0 <= i < |sent| ==>
      && sent[i].url == input
      && sent[i].init.credentials == Some(Include)
      && sent[i].init.verb == init.verb && sent[i].init.body == init.body
    ensures Decorated(sent[0].init.headers, init.headers, token, cid)
    ensures |sent| == 2 <==> first.Answer? && first.response.status == 401 && refreshed
    ensures |sent| == 2 ==>
      sent[1].init.headers == (
        if Truthy(newToken) then sent[0].init.headers["Authorization" := "Bearer " + ToText(token)]
        else sent[0].init.headers)
    ensures |sent| == 2 && Truthy(token) ==> sent[1] == sent[0]
    ensures first.NetworkError? ==> r == Threw(TransportFailure)
    ensures first.Answer? && |sent| == 1 ==> r == Returned(first.response)
    ensures |sent| == 2 ==>
      r == if second.Answer? then Returned(second.response) else Threw(TransportFailure)
  {
    var headers := init.headers;
    if Truthy(token) {
      headers := headers["Authorization" := "Bearer " + token.s];
    }
    headers := headers["x-correlation-id" := cid];
    sent := [Request(input, init.(headers := headers, credentials := Some(Include)))];
    if first.NetworkError? {
      return Threw(TransportFailure), sent;
    }
    var res := first.response;
    r := Returned(res);
    if res.status == 401 && refreshed {
      if Truthy(newToken) {
        headers := headers["Authorization" := "Bearer " + ToText(token)];
      }
      headers := headers["x-correlation-id" := cid];
      sent := sent + [Request(input, init.(headers := headers, credentials := Some(Include)))];
      r := if second.Answer? then Returned(second.response) else Threw(TransportFailure);
    }
  }

  /** Finding, as written: after a 401 on a request sent without a token
      (a page load with an empty cell), a successful refresh to "t2" makes
      the retry carry `Bearer null`. */
  method StaleBearerOnRetry() returns (retry: Request)
    ensures "Authorization" in retry.init.headers
    ensures retry.init.headers["Authorization"] == "Bearer null"
  {
    var unauthorized := Answer(Response(401, "Unauthorized", Malformed));
    var ok := Answer(Response(200, "OK", Json(map[])));
    var r, sent := AuthFetch(Null, "/api/data", "c1", NoInit, unauthorized, true, Str("t2"), ok);
    assert |sent| == 2;
    retry := sent[1];
  }

  /** Finding, corrected: authFetch as evidently intended, where the retry
      carries the token the refresh stored. */
  method AuthFetchWithNewToken(token: JsValue, input: string, cid: string, init: Init,
                               first: Reply, refreshed: bool, newToken: JsValue, second: Reply)
    returns (r: Completion<Response>, sent: seq<Request>)
    ensures 1 <= |sent| <= 2
    ensures forall i :: 0 <= i < |sent| ==>
      && sent[i].url == input
      && sent[i].init.credentials == Some(Include)
      && sent[i].init.verb == init.verb && sent[i].init.body == init.body
    ensures Decorated(sent[0].init.headers, init.headers, token, cid)
    ensures |sent| == 2 <==> first.Answer? && first.response.status == 401 && refreshed
    ensures |sent| == 2 && Truthy(newToken) ==>
      Decorated(sent[1].init.headers, init.headers, newToken, cid)
    ensures |sent| == 2 && !Truthy(newToken) ==> sent[1] == sent[0]
    ensures first.NetworkError? ==> r == Threw(TransportFailure)
    ensures first.Answer? && |sent| == 1 ==> r == Returned(first.response)
    ensures |sent| == 2 ==>
      r == if second.Answer? then Returned(second.response) else Threw(TransportFailure)
  {
    var headers := init.headers;
    if Truthy(token) {
      headers := headers["Authorization" := "Bearer " + token.s];
    }
    headers := headers["x-correlation-id" := cid];
    sent := [Request(input, init.(headers := headers, credentials := Some(Include)))];
    if first.NetworkError? {
      return Threw(TransportFailure), sent;
    }
    var res := first.response;
    r := Returned(res);
    if res.status == 401 && refreshed {
      if Truthy(newToken) {
        headers := headers["Authorization" := "Bearer " + newToken.s];
      }
      headers := headers["x-correlation-id" := cid];
      sent := sent + [Request(input, init.(headers := headers, credentials := Some(Include)))];
      r := if second.Answer? then Returned(second.response) else Threw(TransportFailure);
    }
  }
}
