# nestor: a verified model of the cookie gateway core

nestor is a small forward-authentication service for a reverse proxy. A
visitor logs in with a shared password. The service then stores a signed
cookie named `nestor` that holds a JSON list of path prefixes. The reverse
proxy asks the `/auth` view about each request. The view answers 200 when the
cookie is genuine and one of its prefixes is a literal string prefix of the
view's own URL path (`request.url.path`). Otherwise it answers 401.

This project models that core in Dafny as pure functions:

- `wrappers.dfy`: module `Wrappers`, an `Option` type for "a value, or the exception the caller catches".
- `auths.dfy`: module `Auths`, the path check `Auths.check`, together with its reference meaning `Admits`.
- `cookie.dfy`: module `Cookie`, the codec `encode_cookie` / `decode_cookie`.
  - HMAC-SHA256, `json.dumps`/`json.loads` and base64 are foreign code. They are the function-valued fields of `Primitives`.
  - The HMAC result is typed as a 32-byte `Digest`.
  - `Lawful` states the two round trips the model relies on: JSON parsing undoes serialising, and base64 decoding undoes encoding.
- `views.dfy`: module `Views`, with `check_login` and the decisions of the `/login` and `/auth` views.
  - A request is its method, URL path, `nestor` cookie and login form.
  - A response is an empty status, a 302 redirect (optionally setting the cookie), the login page, or an escaped exception.

The secret key and the password are fields of `Views.Config`. The config also
names the cookie framing. `SplitAtFirstSeparator` is what the source does.
`SliceAtDigestLength` is the corrected decoder described under Findings.

## Model

| member | source | states |
|---|---|---|
| `Auths.Check` | nestor.py:45-50 | a path is allowed iff some entry of the list is a literal string prefix of it |
| `Auths.EmptyListDeniesEverything` | nestor.py:45-50 | the empty list allows no path |
| `Auths.EmptyEntryAdmitsEverything` | nestor.py:45-50 | a list containing `""` allows every path |
| `Auths.LiteralPrefixExamples` | nestor.py:47-48 | matching is not segment-aware: `["/a"]` allows `/ab`, `["/a/"]` does not; `["/gallery"]` allows `/gallery/2024`, `["/other"]` does not |
| `Auths.CheckMonotone` | nestor.py:47-50 | a list whose entries all occur in another list allows no path the other denies (appending, reordering and duplicating entries only widen access) |
| `Auths.CheckDependsOnlyOnEntries` | nestor.py:47-50 | two lists with the same entries, in any order and multiplicity, give the same answer |
| `Auths.CheckConcat` | nestor.py:47-50 | the answer for `a + b` is the disjunction of the answers for `a` and `b` |
| `Auths.CheckPrefixClosed` | nestor.py:35-43 | allowing a path allows every extension of it (a folder grants its sub-folders) |
| `Cookie.SplitOnce` | nestor.py:56 | splitting once at the first separator and unpacking two parts fails iff there is no separator; otherwise the parts rejoin to the input and the head has no separator |
| `Cookie.SplitOnceOfJoin` | nestor.py:56 | splitting head, separator, tail returns exactly `(head, tail)` when `head` has no separator |
| `Cookie.SplitOnceInsideHead` | nestor.py:56 | when `head` contains a separator, splitting head, separator, tail yields a head strictly shorter than `head` |
| `Cookie.Frame` | nestor.py:65 | the frame is 32 digest bytes, then the byte 0x7C, then the data |
| `Cookie.SplitAndVerify` | nestor.py:56-57 | the first-separator MAC check accepts a frame iff it is a signed frame (the MAC of its payload, a separator, the payload) whose digest contains no 0x7C byte; it then yields the payload |
| `Cookie.SliceAndVerify` | nestor.py:56-57 | the corrected fixed-offset MAC check accepts exactly the signed frames and yields their payload |
| `Cookie.DecodeCookie` | nestor.py:53-58 | a missing cookie fails; any success comes from a signed frame whose parsed payload is the result, and under the source's framing its digest has no 0x7C byte; decoded bytes without a 0x7C byte always fail; conversely a signed frame, with a separator-free digest under the source's framing, decodes to its parsed payload |
| `Cookie.SplitAgreesWithSlice` | nestor.py:56-57 | the source's check equals the corrected check when the 32-byte digest slot holds no 0x7C byte, and fails otherwise |
| `Cookie.EncodeCookie` | nestor.py:61-66 | an encoded cookie base64-decodes to the MAC of the JSON (32 bytes), the byte 0x7C, then the JSON; `Cookie.RoundTripAsWritten` and `Cookie.RoundTripCorrected` state what decoding it gives back |
| `Cookie.RoundTripAsWritten` | nestor.py:53-66 | decoding a freshly encoded list returns the list iff the MAC of its JSON has no 0x7C byte, and fails otherwise |
| `Cookie.SeparatorInDigestRejectsFreshCookie` | nestor.py:56-57 | when the MAC of the JSON contains 0x7C, the cookie the server just issued is rejected |
| `Cookie.RoundTripCorrected` | nestor.py:53-66 | with fixed-offset framing, every freshly encoded list decodes to itself |
| `Cookie.HeaderTamperRejected` | nestor.py:56-57 | changing any one of the 32 digest bytes or the separator byte of a signed frame makes the MAC check fail, under either framing |
| `Views.CheckLogin` | nestor.py:69-79 | not logged in when the cookie is missing, fails to decode or holds a non-list; otherwise logged in iff the decoded list allows the request path |
| `Views.Auth` | nestor.py:115-121 | the answer is 200 or 401, and 200 iff `check_login` holds |
| `Views.GrantedList` | nestor.py:95-102 | a successful login stores the prior list (or the empty list if decoding failed) with `""` appended as its last entry |
| `Views.Login` | nestor.py:87-112 | a cookie is set iff the right password is POSTed and the old cookie does not hold a signed non-list (that case raises); the redirect goes to `next` (default `/`) and the cookie is `nestor`, path `/`, encoding the granted list; without the password, a logged-in visitor is redirected with no cookie to `next`, or to `/` when `next` is empty or there is no form, and anyone else gets the login page carrying `next` on a POST and nothing on a GET |
| `Views.LoginGrantsEveryPath` | nestor.py:91-105 | the cookie a login issues is accepted for every path, except under the source's framing when the MAC of its JSON contains 0x7C |
| `Views.AuthOfIssuedCookie` | nestor.py:115-121 | `auth` on a cookie issued for a list answers 200 iff the cookie survives decoding and the list allows the path |
| `Views.NoCookieWithoutPassword` | nestor.py:100-105 | a GET or a wrong password never issues a cookie |
| `Views.FreshLoginLoops` | nestor.py:94-105 | with a key whose MAC of `[""]` contains 0x7C, a fresh visitor's login issues a cookie that every check rejects, and logging in again issues the same cookie |

## Left out

- HTTP plumbing is not modelled: the Starlette app, routing, `Request`/`Response` objects, async form parsing and the Jinja2 template (nestor.py:10-18, 110-112, 124-129). The login page is the bare value `LoginPage(redir)`; `BG_URL` only feeds the template.
- `.env` loading and logging (nestor.py:20-28) are left out. The secret key and password are fields of `Views.Config`.
- HMAC-SHA256, JSON and base64 are opaque parameters. Only their digest length and the two round trips are assumed.
- Tamper detection on the payload part of a cookie is not proved. It needs collision resistance of HMAC, which an opaque function cannot provide; tampering with the digest or separator bytes is proved (`Cookie.HeaderTamperRejected`).
- `Cookie.Json` is `Strings(items) | NotList`. JSON lists containing non-string values are not modelled. In the source, `startswith` with a non-string raises outside the `try`.
- The MAC check at nestor.py:57 and the list check at nestor.py:74 are `assert` statements. The model assumes Python runs without `-O`, which would strip both: forged cookies would then pass, and a non-list payload would reach `Auths(cookie)` (a dict as its keys, a string as its characters).
- Plain `==` for the MAC (nestor.py:57) and the password (nestor.py:100) is modelled as equality. Timing is out of scope.
- Python strings may hold lone surrogates, but Dafny `char` cannot. The prefix check is otherwise the same code-point comparison.
- The path checked is `request.url.path`, i.e. the URL of the request to the view itself, given as `Request.path`. Under Starlette routing the `/auth` view only receives the path `/auth`. No `X-Original-URI` header is read.

## Findings

| source | as written | input that shows it | evidently intended | confidence | as-written member | corrected member |
|---|---|---|---|---|---|---|
| nestor.py:56 | `decode_cookie` splits the decoded frame at the first 0x7C byte, but the binary 32-byte HMAC before it may itself contain 0x7C | any list whose HMAC-SHA256 digest contains the byte 0x7C, about 1 − (255/256)^32 ≈ 11.8% of digests; for a fresh visitor this is always the list `[""]`, so for about one secret key in eight no fresh visitor can log in | take the first 32 bytes as the digest and the rest after one separator byte as the payload, so every issued cookie decodes | not executed; high (proved for every lawful HMAC/JSON/base64) | `Cookie.SeparatorInDigestRejectsFreshCookie` | `Cookie.RoundTripCorrected` |
