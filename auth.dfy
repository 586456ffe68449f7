/** utils/auth.ts `refreshToken`: one POST to `/refresh`, with no
    deduplication and no bearer header; the reply decides what the
    stores/auth.ts cell holds afterwards and whether the call throws. */
module AuthRefresh {
  import opened Js
  import opened Env
  import Store

  /** The only request refreshToken sends. */
  const RefreshPost: Request := Request("/refresh", Init(Some("POST"), map[], Some(Include), None))

  /** The token an ok reply carries, unvalidated: `undefined` when the body
      has no `accessToken`. `None` when the reply is not ok or its body is
      not JSON. */
  function IssuedToken(reply: Reply): (t: Option<JsValue>)
    ensures t.Some? <==> reply.Answer? && IsOk(reply.response) && reply.response.body.Json?
  {
    if reply.Answer? && IsOk(reply.response) && reply.response.body.Json?
    then Some(Field(reply.response.body.fields, "accessToken"))
    else None
  }

  /** `refreshToken()` against `store`, with `reply` the transport's answer
      to the POST. */
  method RefreshToken(store: Store.TokenCell, reply: Reply) returns (r: Completion<JsValue>, sent: Request)
    modifies store
    ensures sent == RefreshPost
    ensures r.Returned? <==> IssuedToken(reply).Some?
    ensures r.Returned? ==> r.value == IssuedToken(reply).value && store.value == r.value
    ensures reply.NetworkError? ==> r == Threw(TransportFailure) && store.value == old(store.value)
    ensures reply.Answer? && !IsOk(reply.response) ==>
      r == Threw(RefreshTokenExpired) && store.value == Null
    ensures reply.Answer? && IsOk(reply.response) && reply.response.body.Malformed? ==>
      r == Threw(BodyNotJson) && store.value == old(store.value)
  {
    sent := RefreshPost;
    if reply.NetworkError? {
      return Threw(TransportFailure), sent;
    }
    var res := reply.response;
    if IsOk(res) {
      if res.body.Malformed? {
        return Threw(BodyNotJson), sent;
      }
      var token := Field(res.body.fields, "accessToken");
      store.Set(token);
      r := Returned(token);
    } else {
      store.Set(Null);
      r := Threw(RefreshTokenExpired);
    }
  }
}
