# Client-side session handling of the job-board web client

This project models, in Dafny, how the job-board client keeps its login
session, and proves properties of that model. The session lives in the
browser tab's localStorage under three keys: `isAuthenticated`, `token` and
`user`. The session handling has four parts.

- **Token decoder and session queries** (`src/utils/auth.ts`).
  - `decodeToken` takes the second `.`-separated segment of a JWT (RFC 7519
    section 3, compact form of RFC 7515 section 7.1).
  - It maps the base64url alphabet to the standard one (RFC 4648 sections 5
    and 4) and decodes it with `atob`. `atob` follows the forgiving-base64
    decode of the WHATWG Infra standard, from its section "Forgiving base64".
  - It writes each byte as a `%hh` escape (RFC 3986 section 2.1) and reads
    the result back with `decodeURIComponent`, which decodes UTF-8
    (RFC 3629) through the Decode operation of ECMA-262.
  - It parses the text as JSON. Every failure becomes `null`.
  - `getUserRole` and `isAuthenticated` read the stored token, decode it and
    answer with its role, or with whether its `exp` is still in the future.
- **Edge redirect rule** (`src/middleware.ts`): a decision on the request
  path and on whether an `isAuthenticated` cookie is present.
- **Login handler** (`onSubmit` in `src/app/login/page.tsx`): the ordered
  storage writes, the decode check, the role-based redirect and the error
  branch.
- **Dashboard guard and logout** (`src/app/dashboard/page.tsx`).

The environment is made explicit:

- localStorage is a `map<string, string>`.
- The clock is `Date.now()` in integer milliseconds. `exp > Date.now() / 1000`
  is then exactly `exp * 1000 > nowMs`.
- `JSON.parse` and `JSON.stringify` are function parameters. `JSON.parse`
  returns `None` when it throws.
- The cookie is `Option<string>`: absent, or present with a value that is
  never read.
- A `Browser.Tab` object holds the storage and the router's navigation
  history. A ghost log records every storage write in order.

Base64, the percent step and UTF-8 are modelled concretely, each with its
inverse. The payload decoder is proved to round-trip: a token whose middle
segment is the unpadded base64url form of the UTF-8 bytes of a text decodes
to the parse of that text.

Modules, one per file: `JsValues` (the JSON values `JSON.parse` yields,
JavaScript truthiness, property access, the numeric conversion behind `>`),
`Base64`, `Utf8`, `Percent`, `Auth`, `Middleware`, `Browser`, `Login`,
`Dashboard`, and `Session` for the lemmas that span several parts.

Facts about the code that the model keeps as they are:

- The session is not written atomically. The flag and the token are stored
  before the token is decoded, and stay in place when decoding fails.
- A token of two segments decodes when its second segment is a well-formed
  payload. The token `"a.b"` fails because `"b"` is not base64.
- The dashboard guard sends an authenticated user whose role is not
  `job_seeker` to `/dashboard`, the route of the guarded page itself.
- Nothing clears the stored session when its token expires. It stays in
  storage and is simply no longer authenticated.
- The login handler never sets the `isAuthenticated` cookie that the edge
  rule reads.

## Model

| member | source | states |
|---|---|---|
| Base64.StandardRoundTrip | src/utils/auth.ts:15 | `atob` accepts the unpadded standard base64 of any byte string and returns exactly those bytes |
| Base64.ForgivingDecode | src/utils/auth.ts:15 | `atob`'s decode; its behaviour is stated by the lemmas StandardRoundTrip, PaddedRoundTrip, PaddingIgnored, WhitespaceIgnored, MalformedRejected and NonCanonicalAccepted |
| Base64.PaddedRoundTrip | src/utils/auth.ts:15 | the padded standard base64 of any byte string also decodes to exactly those bytes |
| Base64.PaddingIgnored | src/utils/auth.ts:15 | for any text without `=` or whitespace, adding the one or two `=` that complete its last group does not change the outcome, success or failure |
| Base64.WhitespaceIgnored | src/utils/auth.ts:15 | a run of ASCII whitespace inserted at any point of any input does not change the outcome |
| Base64.MalformedRejected | src/utils/auth.ts:15 | any input whose length without whitespace is 1 modulo 4 fails, and so does any input with an `=` that is not among the last two characters of a whitespace-free text whose length is a multiple of 4 |
| Base64.LastSextetLowBits | src/utils/auth.ts:15 | changing the last sextet of a final group of two or three only in its discarded low bits (four or two) changes no decoded byte |
| Base64.NonCanonicalAccepted | src/utils/auth.ts:15 | the decoder is forgiving: two whitespace-free texts that differ only in the unused low bits of their last character decode alike, so "QQ" and "QR" both give the byte 65 |
| Base64.DecodeSextets | src/utils/auth.ts:15 | n sextets give floor(3n/4) bytes |
| Base64.DecodeEncodeSextets | src/utils/auth.ts:15 | splitting bytes into sextets and decoding the sextets gives the bytes back |
| Percent.ToHexString | src/utils/auth.ts:17 | `n.toString(16)` has one digit exactly when n < 16, and at most two for a byte |
| Percent.EscapeByte | src/utils/auth.ts:17 | the escape of one byte; EscapeByteDigits states what it is for every byte |
| Percent.EscapeByteDigits | src/utils/auth.ts:17 | `'%' + ('00' + b.toString(16)).slice(-2)` is always `%` followed by the two lower-case hex digits of b, high nibble first |
| Percent.EscapeBytes | src/utils/auth.ts:15-18 | the escaped text has exactly three characters per byte |
| Percent.ReadEscapedBytes | src/utils/auth.ts:14-18 | reading back the first n escapes of escaped bytes gives the first n bytes, for every n up to their number |
| Percent.DecodeURIComponent | src/utils/auth.ts:14-19 | ECMA-262's Decode with an empty reserved set; DecodeEscapedIsUtf8 states what it does on the escaped bytes |
| Percent.DecodeEscapedIsUtf8 | src/utils/auth.ts:14-19 | `decodeURIComponent` of the escaped bytes succeeds exactly when the bytes are valid UTF-8, and then gives the text they encode |
| Utf8.DecodeEncode | src/utils/auth.ts:14-19 | the UTF-8 bytes of any string decode back to that string |
| Utf8.EncodeDecode | src/utils/auth.ts:14-19 | bytes that decode are exactly the encoding of the decoded text, so no two byte strings decode to the same text |
| Utf8.ValidIffEncoding | src/utils/auth.ts:14-19 | bytes are accepted exactly when they are the UTF-8 encoding of some string |
| Auth.DecodeToken | src/utils/auth.ts:9-25 | `decodeToken`; its contract is carried by DecodeTokenRoundTrip, DecodeTokenMeaning, DecodeTokenFails, OnlyMiddleSegmentRead, ForeignCharacterFails and Session.TwoSegmentTokenRejected |
| Auth.PayloadText | src/utils/auth.ts:12-19 | the text `decodeURIComponent` returns, before `JSON.parse`; DecodeTokenRoundTrip and DecodeTokenMeaning state it |
| Auth.Split | src/utils/auth.ts:12 | `split('.')`: at least one piece, no piece holds a `.`, the pieces joined with `.` give the token back, and there is one piece exactly when there is no `.` |
| Auth.SecondSegment | src/utils/auth.ts:12 | `token.split('.')[1]` is missing exactly when the token has no `.`, and never contains a `.` |
| Auth.SecondSegmentOf | src/utils/auth.ts:12 | the segment read is exactly the text between the first `.` and the next `.` or the end |
| Auth.OnlyMiddleSegmentRead | src/utils/auth.ts:12 | tokens with the same middle segment decode alike, whatever their first segment and whether or not a third segment follows |
| Auth.ToStandardAlphabet | src/utils/auth.ts:13 | every `-` becomes `+`, every `_` becomes `/`, no other character changes, and the length is kept |
| Auth.StandardOfUrlEncoding | src/utils/auth.ts:13 | mapping the base64url encoding of bytes to the standard alphabet gives their standard encoding |
| Auth.DecodeTokenRoundTrip | src/utils/auth.ts:9-25 | a token whose middle segment is the unpadded base64url form of the UTF-8 bytes of a text decodes to `JSON.parse` of that text |
| Auth.DecodeTokenMeaning | src/utils/auth.ts:14-20 | once the segment is base64-decoded to bytes, the token decodes to the parse of their UTF-8 text, and to `null` when they are not valid UTF-8 |
| Auth.ForeignCharacterFails | src/utils/auth.ts:12-24 | a middle-segment character outside both base64 alphabets that is neither padding nor whitespace makes `decodeToken` return `null` |
| Auth.GetUserRole | src/utils/auth.ts:27-35 | `getUserRole`; NoTokenNoSession, UndecodableStoredToken and RoleIgnoresExpiry state its three outcomes |
| Auth.IsAuthenticated | src/utils/auth.ts:37-47 | `isAuthenticated`; NoTokenNoSession, UndecodableStoredToken, ExpiryIsStrict, ExpiryIsPermanent and NoExpNeverAuthenticated state it |
| Auth.NoTokenNoSession | src/utils/auth.ts:27-39 | with no stored token, or an empty one, `getUserRole` is `null` and `isAuthenticated` is false |
| Auth.UndecodableStoredToken | src/utils/auth.ts:31-32 | a stored non-empty token that does not decode, or decodes to a falsy value, gives `getUserRole` = `null` and `isAuthenticated` = false, at any time |
| Auth.ExpiryIsStrict | src/utils/auth.ts:44-46 | for an integer `exp`, the session is valid exactly when nowMs < exp·1000, so it has expired at the instant exp·1000 and is valid one millisecond before it |
| Auth.DecodeTokenFails | src/utils/auth.ts:9-25 | `decodeToken` returns `null` for a token with no '.', and for a token whose middle segment `atob` rejects |
| Auth.FractionalExpiry | src/utils/auth.ts:44-46 | for any number `exp`, fractional ones included, the session is valid exactly when nowMs < exp·1000 |
| Auth.ExpiryIsPermanent | src/utils/auth.ts:45-46 | with storage unchanged, a session valid at some instant was valid at every earlier instant, so once expired it stays expired |
| Auth.NoExpNeverAuthenticated | src/utils/auth.ts:41-46 | claims whose `exp` is missing or does not convert to a number never give a valid session, at any time |
| Auth.RoleIgnoresExpiry | src/utils/auth.ts:27-35 | `getUserRole` returns the decoded `role` (`undefined` when absent) without looking at `exp` or the clock |
| Middleware.Decide | src/middleware.ts:4-20 | the `middleware` function; DecideCases, CookieValueIgnored and NoRedirectLoop state it |
| Middleware.Edge | src/middleware.ts:22-24 | the rule as deployed, run only on the `config.matcher` paths; MatcherIsExact states that this changes no response |
| Middleware.DecideCases | src/middleware.ts:4-20 | no cookie on exactly `/dashboard` redirects to `/login`, a cookie on exactly `/login` redirects to `/dashboard`, and every other combination passes |
| Middleware.CookieValueIgnored | src/middleware.ts:5 | only the cookie's presence matters: any two values, `"false"` and `""` included, give the same response |
| Middleware.NoRedirectLoop | src/middleware.ts:10-17 | a redirect never targets the requested path, and the target passes with the same cookie |
| Middleware.MatcherIsExact | src/middleware.ts:22-24 | the matcher is exactly the set of paths the rule can redirect, so running the rule only on it changes no response |
| Login.Effect | src/app/login/page.tsx:38-86 | what `onSubmit` does for a settled response, as data; OnSubmit is proved to perform it, and RejectedChangesNothing, FlagAndTokenWrittenFirst, UndecodableTokenStaysStored, DecodableTokenStored and UserWrittenIffSuccess state it |
| Login.OnSubmit | src/app/login/page.tsx:38-86 | performs exactly the writes of `Login.Effect` in order, navigates as it says and sets the error text it gives |
| Login.RejectedChangesNothing | src/app/login/page.tsx:39-74 | a failed login request writes nothing, navigates nowhere and sets the error "Invalid email or password" |
| Login.FlagAndTokenWrittenFirst | src/app/login/page.tsx:43-53 | on any response, `isAuthenticated`=`true` and then `token` are written first, and no key other than the three session keys is written |
| Login.UndecodableTokenStaysStored | src/app/login/page.tsx:43-51 | when `decodeToken` returns `null` or a falsy value, the flag and the token stay written, `user` is untouched, nothing is navigated to and the error is set |
| Login.DecodableTokenStored | src/app/login/page.tsx:43-72 | when `decodeToken` returns truthy claims, the storage gains exactly the flag, the token and `user` holding the serialised claims, and the handler goes to `/recruiter-dashboard` exactly for role `recruiter` and to `/` otherwise, without checking expiry |
| Login.UserWrittenIffSuccess | src/app/login/page.tsx:49-74 | `user` is written exactly when the handler navigates, and exactly when it sets no error |
| Dashboard.Guard | src/app/dashboard/page.tsx:99-109 | the mount effect's decision; GuardDecision and GuardAdmits state it |
| Dashboard.GuardDecision | src/app/dashboard/page.tsx:99-109 | not authenticated goes to `/login` whatever the role; authenticated with a role other than `job_seeker`, a missing one included, goes to `/dashboard`; otherwise the page stays |
| Dashboard.GuardAdmits | src/app/dashboard/page.tsx:99-109 | the page stays exactly when the stored claims are an object with role `job_seeker` and an `exp` that converts to a number (a number, or `true`, `false` or `null` as 1, 0 and 0) still in the future |
| Dashboard.HandleLogout | src/app/dashboard/page.tsx:111-116 | removes `isAuthenticated`, `user` and `token` in that order, then navigates to `/login` |
| Dashboard.LogoutClears | src/app/dashboard/page.tsx:112-114 | logout removes exactly the three session keys and keeps every other key and value |
| Dashboard.LogoutIdempotent | src/app/dashboard/page.tsx:112-114 | logging out twice leaves the same storage as logging out once |
| Dashboard.LoggedOut | src/app/dashboard/page.tsx:111-116 | after logout `isAuthenticated` is false at any time, `getUserRole` is `null`, and the guard sends the user to `/login` |
| Session.ClaimsAfterLogin | src/app/login/page.tsx:43-53 | after the login handler, the session readers see exactly the claims the handler accepted, and no session when the token did not decode |
| Session.ExpiredLoginBouncesAtGuard | src/app/login/page.tsx:48-72 | a decodable but expired token is still stored and redirected by the login handler, and the dashboard guard then sends the user to `/login` |
| Session.EdgeAndGuardDisagree | src/middleware.ts:10-19 | with the cookie present the edge lets `/dashboard` through whatever the stored session is, and only the page guard catches an invalid or expired token |
| Session.NoTokenScenario | src/middleware.ts:10-12 | with nothing stored there is no session, and a cookieless request for `/dashboard` is redirected to `/login` |
| Session.RecruiterOnDashboard | src/app/dashboard/page.tsx:105-108 | a valid recruiter on the dashboard is pushed to `/dashboard`, not to the recruiter landing page |
| Session.TwoSegmentTokenRejected | src/utils/auth.ts:12-15 | `"a.b"` does not decode, because its one-character payload is not base64, and so it gives no role |
| Session.TwoSegmentTokens | src/utils/auth.ts:9-25 | a token of only a header and a well-formed payload, with no signature segment, decodes to the parse of the payload text |

## Left out

- `JSON.parse` and `JSON.stringify` are parameters, not implementations. Parse errors are the parameter returning `None`.
- The real clock and floating point. `Date.now() / 1000` is compared exactly, as `exp * 1000 > nowMs` on reals, with no rounding.
- Auth.IsAuthenticated: an `exp` that is a string, an array or an object is treated as NaN, so the session is never valid. JavaScript would convert numeric text such as `"9999999999"` to a number first.
- Strings are sequences of Unicode scalar values, not UTF-16 code units. A lone surrogate in a token cannot be expressed, and it could not pass `atob` anyway.
- JSON objects are maps. Duplicate keys, key order and the prototype chain are not represented, and no parsed value has a `role` or `exp` property other than an object's own.
- The login request, the network and `fetchBaseQuery` are out of scope. The handler receives the settled result, failure or a token string. A response whose `token` is not a string is not represented.
- Toasts, the page's JSX, the job list query and the `error` rendering are out of scope. The handler returns the text it passes to `setError`.
- Router effects are out of scope. `router.push` is recorded in the tab's navigation list and nothing is re-rendered or re-mounted.
- Async ordering is out of scope, including a login response that arrives after a logout.
- The real cookie and localStorage APIs are out of scope. The cookie is an input of the edge rule that nothing in the model writes, as in the code.
- The store's API slice and the company registration page are out of scope.
- JWT signature verification is not modelled, because the code never does it.
- The `console.error` call in the catch block of `decodeToken` is not modelled, because it only writes to the console. The model keeps the `null` result.
