# jwt-http-utils in Dafny

A model of `JwtHttpInterceptor`, a small HTTP request authenticator. The
interceptor holds a secret and a claim policy (expiry window, issuer,
audience). It looks for a bearer token first in the `Authorization` header
and then in the URL's `token=` parameter. It verifies the token with
`jsonwebtoken`, stores the decoded payload as `req.user`, and on failure sets
`res.statusCode` to 401 and throws.

Modules:

- `Wrappers`: `Option` (JavaScript's `undefined`) and `Result` (a value or a thrown error).
- `JsString`: JavaScript's `indexOf` and `split` for a non-empty separator, with `join` as the inverse.
- `Interceptor`: the error messages, the policy records and the constructor's field-by-field defaulting.
- `Locators`: `getTokenByHeader` and `getTokenByUrlQueryParams`.
- `Pipeline`: `verify`, `verifyHeader`, `verifyUrlQueryParams` and `verifyRequest`.
  The request and response are represented by the two fields the interceptor writes.
  The `jsonwebtoken` check is a function parameter.
- `Environment`: `getJwtHttpInterceptor`. The process environment is passed as a map.

Where the code does something a reader might not expect:

- The header lookup reads only the exact key `Authorization`. A lower-case `authorization` key is not consulted (`Locators.LowerCaseKeyIgnored`).
- The header value is split on every space, not just the first. `"Bearer  abc"` yields `"Bearer"` (`Locators.DoubledSpace`).
- `verifyHeader` writes 401 before the query fallback runs. So a request authenticated through its URL ends with a user set AND status 401 (`Pipeline.QueryFallbackKeeps401`).
- The query scan is a plain substring match. `?nottoken=x` yields `x` (`Locators.QueryParamValue`).

## Model

| member | source | states |
|---|---|---|
| JsString.IndexOfFrom | index.ts:107 | the index found holds the pattern, no earlier index from the start position does, and `None` means no occurrence at all |
| JsString.IndexOf | index.ts:107 | the first occurrence of the pattern in the string, or `None` when it never occurs |
| JsString.Split | index.ts:107 | `split` yields at least one piece, joining the pieces with the separator gives back the string, and the first piece is a prefix of it |
| JsString.SplitPiecesFree | index.ts:119 | no piece produced by `split` contains the separator |
| JsString.SplitJoinChar | index.ts:119 | for a one-character separator, splitting a join of separator-free parts gives back exactly those parts |
| Interceptor.MessagesDistinct | index.ts:17 | the four thrown messages (index.ts:17, 61, 76, 109, 117) are pairwise distinct, so each error is identified by its text |
| Interceptor.New | index.ts:14-32 | construction fails with "secret is required" exactly when the secret is empty; otherwise the secret is kept, every truthy supplied field is kept, every falsy one becomes 604800 / "localhost", and no field of the result is falsy |
| Interceptor.MissingConfigIsEmpty | index.ts:19-21 | omitting the config behaves like passing `{}`, and gives the all-default policy |
| Interceptor.NewIdempotent | index.ts:22-31 | defaulting a policy the constructor produced changes nothing |
| Interceptor.FieldsIndependent | index.ts:22-31 | each policy field depends only on the same input field |
| Locators.ParseAuthorization | index.ts:119-123 | a token taken from the header value is non-empty and contains no space, and the only failure is "token is required" |
| Locators.TokenByHeader | index.ts:113-124 | "authorization is required" exactly when the `Authorization` entry is missing or empty; otherwise a non-empty, space-free token or "token is required" |
| Locators.HeaderReadsOnlyAuthorization | index.ts:115 | header maps that agree on `Authorization` locate the same token |
| Locators.LowerCaseKeyIgnored | index.ts:115-118 | a header stored under `authorization` is reported as missing |
| Locators.HeaderWithoutSpace | index.ts:119 | a non-empty value without a space is the token itself |
| Locators.HeaderWithSpace | index.ts:119-123 | for any value with a space: the token is the text between the first and second spaces when that is non-empty, else the text before the first space, else "token is required" |
| Locators.HeaderTokenRequiredIff | index.ts:119-122 | the value is rejected exactly when it is empty, or starts with a space followed by another space or by nothing |
| Locators.SchemeAndToken | index.ts:119 | `<scheme> <token>` yields the token |
| Locators.DoubledSpace | index.ts:119 | `<scheme>  <rest>` (two spaces) yields the scheme |
| Locators.TokenByQuery | index.ts:105-112 | fails only with "token is required", always when the URL has no `token=`; a token found is non-empty, holds no `&` and no `token=`, and is a prefix of the text after the first `token=` |
| Locators.QueryTokenSpan | index.ts:107-111 | for any URL with a `token=`, the token is the text from the first marker up to the first `&`, the next marker or the end, and an empty text is rejected |
| Locators.QueryParamValue | index.ts:107-111 | `pre + "token=" + value + post` yields `value` whenever `pre` has no earlier marker and `post` is empty or starts with `&`, including names like `nottoken` |
| Pipeline.Verify | index.ts:33-47 | the promise settles with the library's answer for the token under the interceptor's own secret and policy; on a rejection the later fall-through resolve is ignored |
| Pipeline.Authenticate | index.ts:71-83 | a locate failure writes 401 and throws "token is required"; a verify failure writes 401 and throws "token is invalid"; otherwise the user is the accepted payload and the status is untouched |
| Pipeline.VerifyHeader | index.ts:85-104 | the header flow resolves exactly when the located header token is accepted; it throws "token is required" exactly when the header locator fails and "token is invalid" exactly when the located token is rejected; on success the user is what verification returned and the status is unchanged |
| Pipeline.VerifyUrlQueryParams | index.ts:65-84 | the URL flow resolves exactly when the located query token is accepted; it throws "token is required" exactly when the URL locator fails and "token is invalid" exactly when the located token is rejected; on success the user is what verification returned and the status is unchanged |
| Pipeline.VerifyRequest | index.ts:48-64 | an accepted header token sets the user and leaves the status; otherwise an accepted query token sets the user with status 401; otherwise the user is untouched, the status is 401 and "token is invalid" is thrown |
| Pipeline.VerifyRequestEffects | index.ts:54-62 | the user is untouched or a payload verification accepted for one of the request's tokens, the status only ever changes to 401, and the only escaping error is "token is invalid" |
| Pipeline.HeaderTakesPrecedence | index.ts:54-58 | once the header token is accepted, the URL plays no part and the status is untouched |
| Pipeline.QueryFallbackKeeps401 | index.ts:94-103 | with no `Authorization` header and an accepted query token, the request succeeds with a user and status 401 |
| Environment.ResolveConfig | index.ts:131-147 | an explicit config is passed through; otherwise an object exists exactly when one of the three variables is set, and it carries exactly the set variables |
| Environment.GetJwtHttpInterceptor | index.ts:127-150 | an explicit config always wins, and construction fails exactly when the secret is empty |
| Environment.EnvironmentFields | index.ts:131-149 | with no config, each field comes from its own variable when that is set (and the expiry parses to a non-zero number), else from the default, whether or not any variable was set |
| Environment.OnlyThreeVariables | index.ts:133-145 | environments that agree on the three variables give the same interceptor |

## Left out

- `jwt.verify` from `jsonwebtoken` (index.ts:35-45) is a foreign cryptographic call. It is the parameter `JwtVerify`: a total function from token, secret and policy to a payload or an error. The callback's calls and the promise's first-call-wins settlement are modelled in `Pipeline.Verify`.
- JwtVerify: the oracle has no clock input. `jsonwebtoken` checks `exp` and `nbf` against the current time, so the model answers as at one fixed moment; a token accepted now may be rejected later.
- Promises and `async`/`await` are left out. The steps run in sequence and the model is sequential.
- Node's `IncomingMessage` and `ServerResponse` are reduced to a URL, a string-to-string header map, and the two written fields `req.user` and `res.statusCode`. Header values that are string arrays are not modelled. Node lower-cases incoming header names, so a real request has no `Authorization` key: the header flow then always fails with "authorization is required" and a URL token (ending with status 401) is the only way to succeed.
- `process.env` reads are replaced by a map parameter.
- `Number(...)` is a parameter `string -> Option<int>`, where `None` stands for `NaN`. Floating-point and non-integer expiry values are not modelled. A negative expiry is truthy and kept, as in the code.
- The interceptor keeps a reference to the caller's config object (index.ts:31) and passes it to `jwt.verify` on every call (index.ts:38), so later writes to that object change the policy. The model fixes the policy at construction.
- index.js is the compiled form of index.ts with the same logic, so it is not modelled separately.
- Payloads are an arbitrary type parameter. Their claim structure is up to the token issuer.
