/** utils/fetcher.ts: `fetchdata`, a fetch with an ok-check, and
    `fetchAuthenticated`, the second 401-retry wrapper. It works on the
    stores/auth.ts cell and refreshes through utils/auth.ts `refreshToken`,
    never through the session.ts coordinator, and it changes the caller's
    `init` object in place. */
module Fetcher {
  import opened Js
  import opened Env
  import Store
  import AuthRefresh

  /** The caller's `RequestInit` object, which fetchAuthenticated mutates. */
  class RequestInit {
    var verb: Option<string>
    var headers: map<string, string>
    var credentials: Option<Credentials>
    var body: Option<string>

    constructor (init: Init)
      ensures Value() == init
    {
      verb := init.verb;
      headers := init.headers;
      credentials := init.credentials;
      body := init.body;
    }

    /** What `fetch` reads from the object when it is called. */
    function Value(): Init
      reads this
    {
      Init(verb, headers, credentials, body)
    }
  }

  /** The toast `fetchdata` shows for a non-ok response. */
  function FetchErrorToast(res: Response): Toast
  {
    Toast("Fetch Error", StatusDescription(res))
  }

  /** The toast `fetchAuthenticated` shows when the refresh or the retry
      throws; it describes the original 401 response. */
  function AuthErrorToast(res: Response): Toast
  {
    Toast("Authentication Error", StatusDescription(res))
  }

  /** `fetchdata(url, options)`, with `reply` the transport's answer. */
  method FetchData(url: string, options: Init, reply: Reply)
    returns (r: Completion<Body>, sent: Request, toasts: seq<Toast>)
    ensures sent == Request(url, options)
    ensures reply.NetworkError? ==> r == Threw(TransportFailure) && toasts == []
    ensures reply.Answer? && !IsOk(reply.response) ==>
      r == Threw(FetchFailed(reply.response.status)) && toasts == [FetchErrorToast(reply.response)]
    ensures reply.Answer? && IsOk(reply.response) ==> toasts == []
    ensures r.Returned? <==> reply.Answer? && IsOk(reply.response) && reply.response.body.Json?
    ensures r.Returned? ==> r.value == reply.response.body
  {
    sent := Request(url, options);
    toasts := [];
    if reply.NetworkError? {
      return Threw(TransportFailure), sent, toasts;
    }
    var res := reply.response;
    if !IsOk(res) {
      toasts := toasts + [FetchErrorToast(res)];
      return Threw(FetchFailed(res.status)), sent, toasts;
    }
    r := if res.body.Json? then Returned(res.body) else Threw(BodyNotJson);
  }

  /** The caller's headers after the first step: `Authorization` added
      over them when the token is truthy. */
  function WithBearer(headers: map<string, string>, token: JsValue): map<string, string>
  {
    if Truthy(token) then headers["Authorization" := "Bearer " + token.s] else headers
  }

  /** `fetchAuthenticated(input, init)` against the stores/auth.ts cell.
      `first` is the transport's reply to the first request,
      `refreshReply` its reply to the refresh POST and `second` its reply to
      the retry; `sent` lists the requests passed to the transport. */
  method FetchAuthenticated(store: Store.TokenCell, input: string, init: RequestInit,
                            first: Reply, refreshReply: Reply, second: Reply)
    returns (r: Completion<Response>, sent: seq<Request>, toasts: seq<Toast>)
    modifies store, init
    ensures init.credentials == Some(Include)
    ensures init.verb == old(init.verb) && init.body == old(init.body)
    ensures 1 <= |sent| <= 3
    ensures sent[0] == Request(input, Init(old(init.verb), WithBearer(old(init.headers), old(store.value)),
                                           Some(Include), old(init.body)))
    ensures r.Threw? <==> first.NetworkError?
    ensures first.NetworkError? || first.response.status != 401 ==>
      init.headers == WithBearer(old(init.headers), old(store.value))
    ensures first.NetworkError? ==>
      r == Threw(TransportFailure) && |sent| == 1 && toasts == [] && store.value == old(store.value)
    ensures first.Answer? && first.response.status != 401 ==>
      && r == Returned(first.response) && |sent| == 1 && toasts == []
      && store.value == old(store.value)
    ensures first.Answer? && first.response.status == 401 ==> |sent| >= 2 && sent[1] == AuthRefresh.RefreshPost
    ensures first.Answer? && first.response.status == 401 && AuthRefresh.IssuedToken(refreshReply).Some? ==>
      && |sent| == 3
      && sent[2] == Request(input, Init(old(init.verb),
           WithBearer(old(init.headers), old(store.value))
             ["Authorization" := "Bearer " + ToText(AuthRefresh.IssuedToken(refreshReply).value)],
           Some(Include), old(init.body)))
      && init.headers == sent[2].init.headers
      && (second.Answer? ==>
            r == Returned(second.response) && toasts == [] &&
            store.value == AuthRefresh.IssuedToken(refreshReply).value)
      && (second.NetworkError? ==>
            r == Returned(first.response) && toasts == [AuthErrorToast(first.response)] &&
            store.value == Null)
    ensures first.Answer? && first.response.status == 401 && AuthRefresh.IssuedToken(refreshReply).None? ==>
      && |sent| == 2 && r == Returned(first.response)
      && toasts == [AuthErrorToast(first.response)] && store.value == Null
      && init.headers == WithBearer(old(init.headers), old(store.value))
  {
    var token := store.value;
    if Truthy(token) {
      init.headers := init.headers["Authorization" := "Bearer " + token.s];
    }
    init.credentials := Some(Include);
    sent := [Request(input, init.Value())];
    toasts := [];
    if first.NetworkError? {
      return Threw(TransportFailure), sent, toasts;
    }
    var res := first.response;
    r := Returned(res);
    if res.status == 401 {
      var refreshed, post := AuthRefresh.RefreshToken(store, refreshReply);
      sent := sent + [post];
      var failed := refreshed.Threw?;
      if !failed {
        token := refreshed.value;
        init.headers := init.headers["Authorization" := "Bearer " + ToText(token)];
        sent := sent + [Request(input, init.Value())];
        if second.NetworkError? {
          failed := true;
        } else {
          r := Returned(second.response);
        }
      }
      if failed {
        toasts := toasts + [AuthErrorToast(res)];
        store.Set(Null);
      }
    }
  }
}
