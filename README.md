# Session layer of davidnet-net/account, in Dafny

This project models the client side of the account service's session
handling:

- the access-token cells and the `isLoggedIn` projection;
- the single-flight refresh of session.ts (`refreshAccessToken`);
- the two 401-retry wrappers: `authFetch` in session.ts, and
  `fetchAuthenticated` in utils/fetcher.ts with its helper `refreshToken`
  from utils/auth.ts;
- the checked fetch `fetchdata`;
- the session accessors (`GetSessionInfo`, `isAuthenticated`, `getUserId`,
  `getUsername`, `logout`) and the JWT payload decoder `parseJwt`;
- the two timestamp formatters of utils/time.ts.

Modules:

| module | file | models |
|---|---|---|
| `Js` | js.dfy | the JavaScript semantics the code relies on: `null`/`undefined`/string values and truthiness, template-string printing, `Number.prototype.toString(radix)`, `String.prototype.padStart` |
| `Env` | env.dfy | what the transport and the notifier exchange: request init, request, response, network error, thrown failure, toast |
| `Store` | store.dfy | stores/auth.ts: `accessToken` as a class with one mutable field, and `isLoggedIn` |
| `Jwt` | jwt.dfy | utils/jwt.ts `parseJwt`: segment selection, base64url-to-base64 translation, `%hh` encoding; the host's `atob`, `decodeURIComponent` and `JSON.parse` are parameters |
| `Session` | session.dfy | session.ts: the refresh coordinator, as a transition system and as a class over the module's variables; the accessors; `authFetch` |
| `AuthRefresh` | auth.dfy | utils/auth.ts `refreshToken` |
| `Fetcher` | fetcher.dfy | utils/fetcher.ts `fetchdata` and `fetchAuthenticated`, which changes the caller's `RequestInit` object in place |
| `Time` | time.dfy | utils/time.ts `pad`, `formatDateWithUTCOffset` and `formatLocalDateWithUTCOffset` over the components a `Date` reports, with a reader for each format |

Transport and async behaviour are expressed as inputs. Each operation that
calls `fetch` receives the replies the transport gives, in order, and
returns `sent`, what it handed to the transport: the one request for
`Fetcher.FetchData` and `AuthRefresh.RefreshToken`, the list of requests in
order for the retry wrappers. The
refresh promise is split into two steps: `Call` runs up to the `await`,
and `Settle` delivers the reply. A promise is named by the number of
promises created before it.

Behaviours of the code that are easy to misread, kept as written:

- A refresh answered with a non-ok status shows no toast.
- `GetSessionInfo` does not catch a decoding failure. A truthy token
  without a `.` makes it throw instead of returning null.
- A token with only two segments is accepted. Only the second segment is
  read.
- `fetchAuthenticated` retries with `Bearer undefined` when an ok refresh
  body has no `accessToken`.

## Model

| member | source | states |
|---|---|---|
| Js.NatToStringRoundTrip | src/lib/utils/jwt.ts:15 | `toString(radix)` prints only digits of the radix, and reading the digits back gives the number |
| Js.NatToStringShort | src/lib/utils/jwt.ts:15 | a number below radix² prints as at most two digits |
| Js.PadStartShape | src/lib/utils/time.ts:2 | `padStart` keeps the string as the suffix and fills only in front, up to the target length |
| Store.TokenCell.constructor | src/lib/stores/auth.ts:2 | the cell starts as `null` and `isLoggedIn` starts false |
| Store.TokenCell.Set | src/lib/stores/auth.ts:2-5 | the cell holds exactly the value set, and `isLoggedIn` is then that value's truthiness |
| Store.TokenCell.IsLoggedIn | src/lib/stores/auth.ts:5 | true exactly when the cell holds neither `null`, `undefined` nor the empty string |
| Jwt.SplitJoin | src/lib/utils/jwt.ts:10 | `split('.')` loses nothing: the parts join back to the token, and no part contains a `.` |
| Jwt.SplitAfterFirst | src/lib/utils/jwt.ts:10 | the first part of `split` is the text before the first separator |
| Jwt.PayloadSegmentMissing | src/lib/utils/jwt.ts:10 | index 1 of `split('.')` is undefined exactly when the token has no `.` |
| Jwt.PayloadSegmentSelects | src/lib/utils/jwt.ts:10 | the second segment is selected whatever follows it, including nothing (a two-segment token) |
| Jwt.ReplaceAllAt | src/lib/utils/jwt.ts:11 | a global one-character `replace` keeps the length and changes exactly the matching positions |
| Jwt.ToStandardAlphabetAt | src/lib/utils/jwt.ts:11 | the translation maps `-` to `+` and `_` to `/` position by position, keeps every other character, and adds no padding |
| Jwt.ToStandardAlphabetIdempotent | src/lib/utils/jwt.ts:11 | the result has no `-` or `_`, and translating twice is translating once |
| Jwt.HexByteExact | src/lib/utils/jwt.ts:15 | each byte prints as exactly two lowercase hex digits that encode its value |
| Jwt.PercentDecodeEscape | src/lib/utils/jwt.ts:13-16 | one `%hh` escape reads back to its byte, followed by the reading of the rest |
| Jwt.PercentRoundTrip | src/lib/utils/jwt.ts:13-16 | the `%hh` text is three times as long as the binary string, and every byte is recovered from it |
| Jwt.ParseJwtSegment | src/lib/utils/jwt.ts:9-20 | only the second segment decides the outcome of `parseJwt` |
| Jwt.ParseJwtMissingSegment | src/lib/utils/jwt.ts:10-11 | `parseJwt` fails at `.replace` before any host call exactly when the token has no `.` |
| Session.Judge | src/lib/session.ts:33-63 | the refresh resolves true exactly when the reply is ok, JSON and carries a truthy token; the cell then holds that token and otherwise `null`; no toast for a non-ok status, "Session expired" for a missing token, the unreachable toast for a thrown `fetch` or `res.json()` |
| Session.InitialValid | src/lib/session.ts:6-9 | the start state (empty cell, no pending promise) satisfies the coordinator invariant |
| Session.CallValid | src/lib/session.ts:16-22 | starting or joining a refresh keeps the invariant: one refresh POST per promise, at most one pending, all older ones settled |
| Session.SettleValid | src/lib/session.ts:22-67 | settling the pending refresh keeps the invariant |
| Session.CallStartsOrJoins | src/lib/session.ts:17-20 | with a promise pending a call changes nothing and returns it; otherwise it sends one POST and returns a promise not settled before |
| Session.CallAllJoin | src/lib/session.ts:17-20 | any number of calls during a pending refresh all receive that promise and change nothing |
| Session.ConcurrentCallsShareOnePost | src/lib/session.ts:16-22 | calls arriving with no refresh pending send exactly one POST, the first caller's, and all await the same promise |
| Session.EveryWaiterGetsOneOutcome | src/lib/session.ts:16-70 | one POST per episode; every caller's promise resolves to the same boolean, the reply's verdict; the handle is cleared; at most one toast however many callers |
| Session.SettledRefreshIsNotReused | src/lib/session.ts:64-66 | after settlement the next call sends a new POST and awaits a new promise |
| Session.SessionModule.constructor | src/lib/session.ts:6-9 | the module's own cell is fresh and `null`, with no pending promise |
| Session.SessionModule.RefreshAccessToken | src/lib/session.ts:16-22 | the module variables change exactly as the `Call` transition says |
| Session.SessionModule.SettleRefresh | src/lib/session.ts:23-67 | the cell, the toasts and the resolved promise change exactly as the `Settle` transition says |
| Session.SessionModule.Logout | src/lib/session.ts:177-180 | only the cell is cleared; nothing is sent |
| Session.GetSessionInfo | src/lib/session.ts:83-99 | null exactly for a falsy token; otherwise the decoding chain's payload or its uncaught failure, which is a missing segment for a token without `.` |
| Session.IsAuthenticated | src/lib/session.ts:159-165 | true exactly when a session exists with an `exp` and `nowMs < 1000 * exp`, which is `exp > floor(nowMs / 1000)`; false without a token; decoding failures propagate |
| Session.GetUserId | src/lib/session.ts:167-170 | null exactly when there is no token; otherwise the payload's `userId` |
| Session.GetUsername | src/lib/session.ts:172-175 | null exactly when there is no token; otherwise the payload's `username` |
| Session.AuthFetch | src/lib/session.ts:123-157 | at most two requests, all with `credentials: 'include'`, the caller's method and body; the first carries the caller's headers plus `Authorization` exactly when the token is truthy and always the correlation id; a retry happens exactly after a 401 followed by a true refresh; the retry sets `Authorization` from the old token only when the new one is truthy; the first response is returned when there is no retry |
| Session.StaleBearerOnRetry | src/lib/session.ts:142-144 | with an empty cell, a 401 and a refresh storing `t2`, the retry carries `Bearer null` |
| Session.AuthFetchWithNewToken | src/lib/session.ts:141-153 | as `authFetch`, but a retry after a refresh that stored a truthy token carries exactly the caller's headers, that token and the correlation id |
| AuthRefresh.IssuedToken | src/lib/utils/auth.ts:9-12 | a token is issued exactly for an ok reply with a JSON body; it is `undefined` when the body has no `accessToken` field |
| AuthRefresh.RefreshToken | src/lib/utils/auth.ts:3-17 | exactly one POST to `/refresh` with `credentials: "include"` and no headers; ok stores and returns the body's token unvalidated; non-ok stores `null` and throws; a transport failure throws and leaves the cell alone |
| Fetcher.RequestInit.constructor | src/lib/utils/fetcher.ts:23 | the object holds the caller's init |
| Fetcher.FetchData | src/lib/utils/fetcher.ts:6-21 | one request as given; non-ok shows one "Fetch Error" toast and throws with the status; ok returns the parsed body, throwing when it is not JSON |
| Fetcher.FetchAuthenticated | src/lib/utils/fetcher.ts:23-64 | `init.credentials` becomes `include` and `init.headers` takes the bearer header for a truthy token, in place and on every path; the first request adds `Authorization` exactly for a truthy token; a non-401 answer is one request and is returned; after a 401 one refresh POST, then, if it issued a token, one retry with `Bearer <issued>` whose response is returned; a refresh or retry failure shows one toast, clears the cell and returns the original 401; only a failure of the first request escapes |
| Time.PadDecimal | src/lib/utils/time.ts:2 | `pad(n)` is the decimal form of n, with a `0` in front exactly when that form is one digit |
| Time.PadTwo | src/lib/utils/time.ts:2 | below 100, `pad(n)` is the tens digit then the units digit |
| Time.PadZero | src/lib/utils/time.ts:37-39 | a two-digit field prints `00` exactly when it is zero |
| Time.StampOffset | src/lib/utils/time.ts:13-17 | the printed offset satisfies `abs = 60 * hours + minutes` with minutes below 60; the sign is `-` exactly when `getTimezoneOffset() > 0`, so a zero offset prints `+` |
| Time.UtcStampRoundTrip | src/lib/utils/time.ts:1-20 | `DD-MM-YYYY hh:mm:ss UTC±HH:MM` reads back to the day, the 1-based month, the unpadded year, the time with seconds, and the offset's sign, hours and minutes |
| Time.LocalStampRoundTrip | src/lib/utils/time.ts:22-40 | the local format reads back to the same fields without seconds; `:MM` appears exactly when the offset is not a whole number of hours |
| Time.FormattersAgree | src/lib/utils/time.ts:13-14 | the two formatters print the same date, time and signed offset for the same `Date`; the negation and `>= 0` of the local one give the same sign as `> 0` of the other |

## Left out

- `fetch`, the transport and `res.json()`: replies are inputs (status, status text, a JSON object body, a body that is not JSON, or a network error).
- The configured base URL of session.ts (`authapiurl`): the config module is not part of this model. The refresh URL is the path below it.
- Toast presentation (icon, appearance, position): only the title and description are recorded.
- The Svelte `writable`, `get` and `derived` subscription machinery: each store is one mutable cell, and subscribers are not modelled.
- `atob`, `decodeURIComponent` and `JSON.parse`: these are host functions, given as partial functions in a `Jwt.Host` value. Base64 and JSON are not implemented by the repository.
- JSON bodies are maps to `null`, `undefined` or strings. Non-object JSON, non-string `accessToken` values, a numeric or string `userId` as the host parses it, and fractional `exp` values are not distinguished.
- Session.GetUserId: the host's `JSON.parse` is modelled as returning a payload that has a `userId`; the cast at src/lib/session.ts:98 does not check it, so a payload without `userId` makes `getUserId()` return `undefined`, which this model cannot produce.
- Session.GetUsername: likewise, a payload without `username` makes `getUsername()` return `undefined`, which this model cannot produce.
- The `Headers` class: its case-insensitive names, and the fact that spreading a `Headers` instance yields no entries, are not modelled. Headers are a map from string to string.
- `Date`, `Date.now`, `getTimezoneOffset` and the `new Date(string)` parse: date components and `nowMs` are integer parameters, so the offset is a whole number of minutes; the fractional offsets of historical local-mean-time zones, which the formatters would print with a fractional minute part, are not modelled.
- `wait` (src/lib/utils/time.ts:42-44): a timer.
- Interleavings of promises other than start, join and settle of the refresh coordinator: true concurrency is not modelled.
- Session.AuthFetch: the refresh it awaits is given as its boolean result and the cell's value afterwards, not by running the coordinator inline. The coordinator's lemmas cover that part.
- Time.UtcStampRoundTrip: stated for dates whose printed two-digit fields are below 100 and whose offset is below 100 hours (`Time.Fits`), the range the two-digit reader covers.
- Time.LocalStampRoundTrip: stated under the same `Time.Fits` bound.
- Time.FormattersAgree: stated under the same `Time.Fits` bound.
- Time.ParseUtcStamp and Time.ParseLocalStamp are reference readers used to state what the formats record; the source has no parser.

## Findings

| source | as written | input that shows it | evidently intended | confidence | as-written member | corrected member |
|---|---|---|---|---|---|---|
| src/lib/session.ts:144 | the retry's `Authorization` is built from `token`, read before the first request | cell empty, first reply 401, refresh stores `t2`: the retry sends `Bearer null` and fails again | build it from `newToken`, the token the refresh stored | high, not executed | Session.StaleBearerOnRetry | Session.AuthFetchWithNewToken |
