/** The collaborators the session layer talks to, as values: the request a
    call to `fetch` carries, the reply the transport gives back, how an async
    function completes, and the notifications shown to the user. */
module Env {
  import opened Js

  datatype Credentials = Omit | SameOrigin | Include

  /** The fields of a fetch `RequestInit` (`verb` is its `method`) that the session layer reads or
      writes. Headers are a plain name-to-value map; an absent header object
      is the empty map. */
  datatype Init = Init(
    verb: Option<string>,
    headers: map<string, string>,
    credentials: Option<Credentials>,
    body: Option<string>)

  /** `init` left out by the caller. */
  const NoInit: Init := Init(None, map[], None, None)

  /** What one call `fetch(url, init)` sends. */
  datatype Request = Request(url: string, init: Init)

  /** The result of `res.json()`: an object with its fields, or a rejection. */
  datatype Body = Json(fields: map<string, JsValue>) | Malformed

  datatype Response = Response(status: nat, statusText: string, body: Body)

  /** `res.ok`: the status is in the range 200-299. */
  predicate IsOk(res: Response) {
    200 <= res.status <= 299
  }

  /** What the transport does with one request: it answers, or the promise
      returned by `fetch` rejects. */
  datatype Reply = Answer(response: Response) | NetworkError

  /** The reasons an async function of the session layer rejects. */
  datatype Failure =
    | TransportFailure         // `fetch` itself rejected
    | BodyNotJson              // `res.json()` rejected
    | FetchFailed(status: nat) // fetcher.ts: `Fetch failed: <status> <text>`
    | RefreshTokenExpired      // utils/auth.ts: `Refresh token expired`

  /** How an async function settles: it returns a value or throws. */
  datatype Completion<+T> = Returned(value: T) | Threw(failure: Failure)

  /** A notification shown through `toast`; icon, appearance and position
      are presentation only. */
  datatype Toast = Toast(title: string, desc: string)

  /** `data[name]` on a parsed JSON object: `undefined` for a missing field. */
  function Field(fields: map<string, JsValue>, name: string): (v: JsValue)
    ensures name !in fields ==> v == Undefined
    ensures name in fields ==> v == fields[name]
  {
    if name in fields then fields[name] else Undefined
  }

  /** `"Error: " + res.status + " | " + res.statusText`, the description
      both toasts of fetcher.ts show. */
  function StatusDescription(res: Response): string {
    "Error: " + NatToString(res.status, 10) + " | " + res.statusText
  }
}
