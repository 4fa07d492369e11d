# Chat application: request authentication, registration form and HTTP client

This project models three pieces of a small chat application and proves properties about them:

- **Bearer authentication middleware** (`authenticateToken`). For each request it either sends a JSON reply with a status, or sets `req.user` to the decoded token claims and calls `next()`. A header that is absent or empty gets 401 "Authorization header missing". The header is split on a single space. Unless that gives exactly `["Bearer", token]` the reply is 401 "Invalid token format". The token verifier's error name then selects the reply: 401 for an expired token, 403 for an invalid one, 403 for anything else. An exception caught by the middleware's `try` gives 500.
- **Registration form**. It has the field rules for name, e-mail, password and password confirmation, and the shaping of the posted body. The body is the form data without `confirmPassword`, with `profilePic` replaced by the preview image. The component also defines a picture handler with a 5,000,000-byte cap, and the model covers it. But no rendered element calls that handler, so as the page is written the preview stays `null` and every posted body has `profilePic: null` (`RegisterForm.SubmitAsRendered`).
- **HTTP client interceptors**. Before a request, a stored token is attached as `Authorization: Bearer <token>`. After a response that fails with 401, the stored `token` and `user` are removed. Every result is passed on to the caller unchanged.

A fourth module, `Session`, connects the client and the middleware. It models the header's way between them. The browser's `setRequestHeader` strips HTTP whitespace (space, tab, CR, LF) from both ends of the value. It refuses to send a value with NUL, CR, LF or a character beyond U+00FF. Node's HTTP parser answers 400 to a value with a character below U+0020 other than tab, or with DEL (U+007F). The lemmas follow from this:

- A stored token whose characters all lie in `!` to U+00FF except DEL is accepted, and the verifier receives exactly that token. This holds for headers within the server's size limit.
- Whitespace at the end of a token is trimmed away before the server sees it.
- A space inside a token of printable characters (space, or `!` to U+00FF except DEL) gives "Invalid token format".
- A token that cannot be sent never leaves the browser, and the session is kept.
- A 401 reply makes the client drop its session. A 403 reply does not.

The token verifier (`jwt.verify` with the server secret) is a parameter of type `string -> VerifyResult`. It gives back the decoded claims, an error name, or a thrown exception. String splitting, `indexOf` and `lastIndexOf` are written out in module `Text`. The e-mail regular expression `^[A-Z0-9._%+-]+@[A-Z0-9.-]+\.[A-Z]{2,}$` with the `i` flag has two forms in module `EmailPattern`. One is a recogniser that cuts at the first `@` and the last `.`. The other is a definition of a match as any choice of the two positions. They are proved to agree.

Files: `wrappers.dfy` (Option), `text.dfy`, `auth.dfy`, `email.dfy`, `register.dfy`, `client.dfy`, `session.dfy`.

None of the modelled source files holds socket code: there is no token-gated handshake, no rooms keyed by user id and no event fan-out in them. `backend/server.js` only wires Express, CORS and MongoDB. So no real-time logic is modelled.

## Model

| member | source | states |
|---|---|---|
| Text.Split | backend/middleware/auth.js:13 | `split(' ')` always yields at least one piece; its meaning is stated by the four lemmas below |
| Text.SplitPiecesFree | backend/middleware/auth.js:13 | no piece produced by `split(' ')` contains a space |
| Text.JoinSplit | backend/middleware/auth.js:13 | joining the pieces of `split(sep)` with `sep` gives back the original header |
| Text.SplitCount | backend/middleware/auth.js:13 | a header with k spaces splits into k + 1 pieces |
| Text.SplitJoin | backend/middleware/auth.js:13 | splitting a join of separator-free pieces gives back exactly those pieces |
| AuthMiddleware.AuthHeader | backend/middleware/auth.js:5-8 | the header reads as empty iff it is absent or the empty string, and otherwise is the `authorization` value itself |
| AuthMiddleware.BearerSplit | backend/middleware/auth.js:13-14 | the split is exactly `["Bearer", t]` iff the header is `Bearer `, then a space-free token, and then t is the rest of the header |
| AuthMiddleware.ExtractToken | backend/middleware/auth.js:13-18 | a token is extracted iff the header is of bearer form (case-sensitive `Bearer`, one space, no other space), and the token is everything after `Bearer ` |
| AuthMiddleware.ErrorReply | backend/middleware/auth.js:26-32 | 401 exactly for `TokenExpiredError`; "Invalid token" 403 exactly for `JsonWebTokenError`; the reply is always one of the three verifier replies |
| AuthMiddleware.AfterVerify | backend/middleware/auth.js:21-43 | next is called iff the verifier decoded the token, and then `req.user` is the decoded claims and the headers are unchanged; 500 exactly when an exception escaped; a verifier error gets exactly the reply its error name selects |
| AuthMiddleware.Authenticate | backend/middleware/auth.js:3-44 | "Authorization header missing" iff the header is absent or empty; "Invalid token format" iff a non-empty header is not of bearer form; for a bearer-form header the verifier is given the text after `Bearer `; next is called iff the header is of bearer form and the token decodes; every reply has status 401, 403 or 500 |
| AuthMiddleware.MalformedHeadersRejected | backend/middleware/auth.js:13-16 | `bearer x`, `Bearer a b` and `Bearer  x` all get 401 "Invalid token format" |
| AuthMiddleware.EmptyTokenReachesVerifier | backend/middleware/auth.js:13-21 | `Bearer ` passes the format check and the empty string is handed to the verifier |
| AuthMiddleware.BearerRoundTrip | backend/middleware/auth.js:13-18 | for a token without spaces, `Bearer <token>` yields exactly that token |
| EmailPattern.IsEmail | frontend/src/components/Register.jsx:291 | an accepted address is at least 6 characters long and contains an `@` and a `.` |
| EmailPattern.IsEmailMatchesPattern | frontend/src/components/Register.jsx:291 | the recogniser accepts exactly the strings that the regular expression matches, for some placement of the `@` and the literal `.` |
| EmailPattern.AcceptedEmailShape | frontend/src/components/Register.jsx:291 | an accepted address has exactly one `@`; its local part is non-empty and drawn from `[A-Za-z0-9._%+-]`; its domain is drawn from `[A-Za-z0-9.-]`; the domain's last `.` has a non-empty text before it and two or more ASCII letters after it |
| EmailPattern.EmailIgnoresCase | frontend/src/components/Register.jsx:291 | upper-casing the ASCII letters of an address never changes whether it is accepted |
| EmailPattern.IsBrowserEmail | frontend/src/components/Register.jsx:287 | the browser's rule for a `type="email"` value (section 4.10.5.1.5 of the HTML Living Standard) accepts only values with an `@` |
| EmailPattern.BrowserEmailParts | frontend/src/components/Register.jsx:287 | for a local part without `@`, the browser accepts `local@domain` iff the local part is non-empty and made of the allowed characters, and every dot-separated piece of the domain is a label of 1 to 63 letters, digits and inner hyphens |
| EmailPattern.PatternAcceptsEmptyLabel | frontend/src/components/Register.jsx:287-291 | `a@b..cc` matches the form's pattern but the browser refuses it, so the form is never submitted with it |
| EmailPattern.PatternAcceptsHyphenLabel | frontend/src/components/Register.jsx:287-291 | `a@-b.cc` matches the form's pattern but the browser refuses it |
| EmailPattern.BrowserAcceptsDotlessDomain | frontend/src/components/Register.jsx:287-291 | an address whose domain is a single label, such as `a@localhost`, passes the browser and fails the pattern |
| RegisterForm.ValidateName | frontend/src/components/Register.jsx:265-271 | valid iff at least 2 characters; "Name is required" iff empty; the length message iff exactly 1 character |
| RegisterForm.ValidateEmail | frontend/src/components/Register.jsx:288-294 | valid iff the pattern matches; "Email is required" iff empty; "Invalid email address" iff non-empty and not matched |
| RegisterForm.ValidatePassword | frontend/src/components/Register.jsx:311-318 | valid iff at least 6 characters, with no other constraint; "Password is required" iff empty; the length message iff 1 to 5 characters |
| RegisterForm.ValidateConfirm | frontend/src/components/Register.jsx:346-350 | valid iff non-empty and equal to the current password; "Please confirm your password" iff empty; "Passwords do not match" iff non-empty and different |
| RegisterForm.FormData | frontend/src/components/Register.jsx:129-135 | the submitted data has exactly the four field entries and `profilePic`, each the string typed (or the "" default) |
| RegisterForm.RegistrationBody | frontend/src/components/Register.jsx:160-164 | the body has every field of the data except `confirmPassword`, plus `profilePic`; `profilePic` is the preview (`null` when there is none); every other field keeps its value |
| RegisterForm.FieldErrors | frontend/src/components/Register.jsx:265-350 | a field has an error iff its rule fails, the error is the message of the first failing rule, and only the four validated fields can have one |
| RegisterForm.NoErrorsIffRulesPass | frontend/src/components/Register.jsx:253 | no field has an error exactly when name ≥ 2 characters, the e-mail matches, password ≥ 6 characters and the confirmation equals it |
| RegisterForm.HandleSubmit | frontend/src/components/Register.jsx:253-294 | a non-empty e-mail the browser refuses stops the submit before react-hook-form runs; otherwise the body is posted iff every rule passes, and submission is blocked with a non-empty error map equal to the field errors iff one fails |
| RegisterForm.PostedBodyIsValid | frontend/src/components/Register.jsx:157-164 | every posted body has exactly the fields name, email, password and profilePic, carries the typed values, and those values passed their rules and the browser's e-mail check |
| RegisterForm.CheckImage | frontend/src/components/Register.jsx:141-146 | no file is nothing to do; a size above 5,000,000 bytes is refused; any other size, 5,000,000 included, is accepted |
| RegisterForm.RegisterView.constructor | frontend/src/components/Register.jsx:111 | the component starts without a preview image |
| RegisterForm.RegisterView.HandleImageChange | frontend/src/components/Register.jsx:140-155 | for an accepted picture the reader's result becomes the preview, `null` when the read failed; a refused picture or no file leaves the preview unchanged |
| RegisterForm.RegisterView.Submit | frontend/src/components/Register.jsx:157-164 | the body is posted iff the browser accepts the e-mail and every rule passes; it then has exactly name, email, password and profilePic, no `confirmPassword`, the typed values and the component's current preview |
| RegisterForm.SubmitAsRendered | frontend/src/components/Register.jsx:111-162 | on the page as rendered the preview is never set, so the body is posted iff the browser and all rules accept, and every posted body has `profilePic: null` |
| RegisterForm.ImageLimitScenario | frontend/src/components/Register.jsx:142-146 | a picture of exactly 5,000,000 bytes is accepted; a later picture one byte larger is refused and the preview stays the first one |
| RegisterForm.FailedReadScenario | frontend/src/components/Register.jsx:149-153 | a later picture of accepted size whose read fails clears the preview to `null` |
| HttpClient.Storage.GetItem | frontend/src/utils/axios.js:12 | `getItem` gives the stored value, or null when the key is absent |
| HttpClient.Storage.RemoveItem | frontend/src/utils/axios.js:29-30 | `removeItem` removes that key and changes nothing else |
| HttpClient.StoredToken | frontend/src/utils/axios.js:12-13 | a token is attached iff `token` is stored and is not the empty string |
| HttpClient.BearerHeader | frontend/src/utils/axios.js:14 | the header value is `Bearer ` followed by the token, 7 characters longer than the token |
| HttpClient.WithAuthorization | frontend/src/utils/axios.js:12-16 | without a stored token the headers are unchanged; with one, `Authorization` is added or replaced with the bearer header; every other header keeps its value |
| HttpClient.OnRequest | frontend/src/utils/axios.js:11-17 | the same config object is returned; only its headers change, and they become exactly `WithAuthorization` of the old headers |
| HttpClient.IsUnauthorized | frontend/src/utils/axios.js:27 | an error without a response never counts as unauthorized; one with a response counts exactly when its status is 401 |
| HttpClient.AfterResponse | frontend/src/utils/axios.js:24-34 | after a rejection with status 401, exactly the keys `token` and `user` are gone and no token would be attached; in every other case storage is unchanged; other keys always keep their values |
| HttpClient.OnResponse | frontend/src/utils/axios.js:24-35 | successful responses and errors are passed on exactly as they came (errors re-rejected), and storage becomes exactly `AfterResponse` of the old storage |
| HttpClient.NoHeaderAfterUnauthorized | frontend/src/utils/axios.js:27-30 | after a 401 the next request's headers are left as the caller gave them |
| Text.Trim | frontend/src/utils/axios.js:14 | the header value is sent without whitespace at its ends, and a value without whitespace at its ends is sent as it is; Text.TrimIsInfix states that nothing else is removed or reordered |
| Text.TrimIsInfix | frontend/src/utils/axios.js:14 | the trimmed value is a contiguous, in-order part of the original, and everything before and after it is whitespace |
| Text.TrimKeepsCharacters | frontend/src/utils/axios.js:14 | trimming keeps every character that is not whitespace and adds none |
| Text.TrimEndAppend | frontend/src/utils/axios.js:14 | the trailing whitespace removed from `Bearer ` + token is the token's own, unless the token is all whitespace |
| Session.Transmit | backend/middleware/auth.js:5 | a missing header arrives missing; otherwise the trimmed value is not sent iff it holds an unsendable character, gets 400 iff it holds only sendable characters and some other control character, and is otherwise delivered as the `authorization` header of a request without a user |
| Session.StoredTokenReachesVerifier | frontend/src/utils/axios.js:12-14 | for a stored token of visible characters, the header the client builds arrives unchanged, the middleware extracts that same token and decides on the verifier's answer for it |
| Session.TrailingWhitespaceTrimmed | frontend/src/utils/axios.js:14 | a stored token of visible characters followed by whitespace reaches the verifier without the whitespace |
| Session.SpacedTokenRejected | backend/middleware/auth.js:13-16 | a stored token of printable characters with a space before its trailing whitespace is delivered and refused as "Invalid token format" whatever the verifier would say |
| Session.UnsendableTokenNotSent | frontend/src/utils/axios.js:14 | a stored token holding NUL, CR, LF or a character beyond U+00FF with a non-whitespace character at or after it (so not in its trailing whitespace) is never sent, and the failure without a response keeps the stored session |
| Session.ControlCharacterRefused | backend/middleware/auth.js:5 | a stored token of sendable characters holding another control character gets 400 from the server's parser before the middleware runs |
| Session.UnauthorizedEndsSession | frontend/src/utils/axios.js:27-30 | a 401 reply removes the stored token and user, and the next request without a header of its own arrives without one and gets "Authorization header missing" |
| Session.ForbiddenKeepsSession | frontend/src/utils/axios.js:27 | a 403 reply leaves storage alone, so the same token is sent again |

## Left out

- The inside of `jwt.verify`: signature, expiry and claim checks are done by a library. The verifier is a parameter that answers with decoded claims, an error name, or an exception.
- The `Thrown` answer stands for any exception that reaches the `catch` at `backend/middleware/auth.js:40-43`. An exception raised by a later handler after `next()` has run is not modelled. Express catches those before they get back here.
- `console.error` logging (`backend/middleware/auth.js:23`, `:41`).
- `backend/server.js` (Express, CORS, MongoDB wiring and `listen`). It holds no socket code, so no room membership or event fan-out is modelled.
- `frontend/src/services/socket.js` and `frontend/src/services/api.js`: a thin socket wrapper, and a second client instance whose interceptor repeats the one modelled here but reads `userInfo` through `JSON.parse`. That client instance is not part of this model.
- The request interceptor's error callback (`frontend/src/utils/axios.js:18-20`) re-rejects its error unchanged. It holds no state and no decision.
- The redirect to `/login` (`frontend/src/utils/axios.js:31`), the base URL, the timeout and `withCredentials`: browser and network settings.
- The names of outgoing headers are kept exactly as written. The Authorization header is taken to be stored under the key `Authorization`. Case-insensitive header-name merging in the HTTP library is not modelled. `Session.Transmit` carries only the Authorization header across to the server.
- Session.Transmit: the browser's and Node's handling of header values is written out from the XMLHttpRequest and Fetch standards and Node's parser as the model reads them. The code of those is not part of this model. Proxies or hosting layers between the two that rewrite headers are not modelled. The delivery lemmas and `Session.UnauthorizedEndsSession` assume that the browser's CORS check lets the request and its reply through, as it does for a same-origin page. From another origin, the server's `Access-Control-Allow-Origin: *` together with the client's `withCredentials: true` fails that check, and the request is rejected without a response. Header size limits are not modelled either. Past Node's default `maxHeaderSize` of 16 KiB, or any smaller limit the host sets, the server answers 431 before any middleware runs. So the delivery lemmas hold only for requests whose headers are under that limit.
- RegisterForm.HandleSubmit: the browser's value sanitisation of `type="email"` inputs is not modelled. It strips line breaks and surrounding whitespace before any check. The e-mail value is taken to be the value after sanitisation. Browsers that do not implement the HTML rule would let the pattern decide alone.
- Register.jsx styling, toasts, `axios.post`, `localStorage.setItem`, `login`, `navigate` and the default auth header set after a successful registration (`frontend/src/components/Register.jsx:166-191`): effects with no decision in them. The rendered markup (`frontend/src/components/Register.jsx:194-416`) is not modelled element by element. It decides one thing, which is modelled: no file input and no `onChange={handleImageChange}` appears in it (see `RegisterForm.SubmitAsRendered`).
- RegisterForm.RegisterView.HandleImageChange: nothing on the rendered page calls `handleImageChange`. `StyledAvatar` and the `AddAPhoto` icon are declared but never rendered. The method models the handler as written, for a page that wires it to a file input. On the page as it stands, the size check and the preview never take effect. `FileReader` runs asynchronously. The model sets the preview to the reader's result in the same step as the size check, so the gap before the read completes, and any reordering of two reads, are not modelled. The result itself, the data URL or `null` for a failed read, is part of the file's value and is not computed.
- RegisterForm.ValidateName: lengths count Unicode scalar values, while JavaScript's `length` counts UTF-16 code units. The two differ only for characters outside the Basic Multilingual Plane.
- RegisterForm.ValidatePassword: the same difference in how length is counted as for ValidateName.
- The form's `onChange` revalidation timing and react-hook-form's internal state: only the first failing rule of each field is modelled, which is react-hook-form's default reporting.
