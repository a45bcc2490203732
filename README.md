# Online exam platform: verified model of its client and session logic

This project models the decision-making core of a Next.js online exam platform. Students
sign in through a hosted identity provider (Amazon Cognito), take timed multiple-choice
exams and review their results. Administrators build question sets. The model is written
in Dafny and covers:

- **Exam attempt.** The question navigation and answer map of `ExamRunner`, and its
  submit-once latch (`submitOnceGuard`). The latch lets at most one `submitAction` call
  be in flight, allows none after a success and reopens after a failure. This is the
  class `ExamRunner.Runner`, driven by explicit events over any event sequence
  (`ExamRunner.Run`).
- **Countdown.** `Timer`: the count starts at `minutes * 60`, loses one per tick,
  reports expiry at zero and stops ticking there. Also the `mm:ss` text and the
  colour thresholds (`Countdown`).
- **Session.** JWT shape check and payload selection (`Jwt`). Resolving the `id_token`
  cookie to an optional user, with the `cognito:groups` normalisation (`AuthServer`).
  The bearer-token API gateway (`Api`).
- **Hosted login.** The hosted login and logout URLs and the authorization-code token
  request (`HostedAuth`).
- **Routes.** `GET /auth/callback` and `GET /auth/logout` as transitions on a cookie
  store (`CallbackRoute`, `LogoutRoute`, `Cookies`).
- **Access decisions.** The admin layout and the student-area layout (`AdminLayout`,
  `ExamsLayout`).
- **Navigation.** The longest-match choice of the active navigation link (`NavLinks`).
- **Question builder.** The admin question builder: question and choice edits that
  keep `correctAnswer` in step, id assignment and whole-form validation
  (`QuestionBuilder`).
- **Dashboard and results.** The student dashboard and results table. This covers the
  gate, the newest-first in-place sort (`ResultOrder`) and the fallback labels
  (`DashboardPage`, `ResultsPage`).

Shared runtime behaviour is modelled in supporting modules:

- `Strings`: `split`/`join` on one character, `String(n)` and `padStart`.
- `Encoding`:
  - UTF-8 (RFC 3629);
  - the `application/x-www-form-urlencoded` serializer and parser of section 5.2 and
    section 5.1 of the WHATWG URL Standard (`URLSearchParams`);
  - `encodeURIComponent` and `querystring.escape`;
  - base64 (section 4 of RFC 4648).
  Each encoder has a decoder and a round-trip lemma.
- `Json`: JSON values and JavaScript property access.
- `Wrappers`: `Option` and `Result`.

Parameters and inputs stand in for everything outside the code:

- **Network.** A fetch response is an input. The request a component would send is
  returned as a value, or `None` when it sends none.
- **Cookies.** Request cookies are a map. Response cookies are a `CookieJar` object.
- **Environment.** The environment variables are a `Config` value.
- **Host codecs, clock and locale.** These are function parameters:
  - the JWT payload decoder (`Buffer` base64 decoding followed by `JSON.parse`);
  - date parsing (`new Date(s).getTime()`, with `None` for an invalid date);
  - locale formatting (`toLocaleString`);
  - the random part of a question id.
- **React scheduling.** React effects and callbacks become explicit method calls:
  - a tick of the interval;
  - the settling of the submit promise;
  - the re-run of the timer's expiry effect when answers change, which re-creates
    `onExpire`.

## Model

| member | source | states |
|---|---|---|
| ExamRunner.Runner.constructor | components/ExamRunner.tsx:28-32 | Starts on question 0 with no answers, nothing submitted, the latch open and the timer at `durationMinutes * 60`. |
| ExamRunner.Runner.SelectAnswer | components/ExamRunner.tsx:36-38 | The current question's entry becomes the choice and no other entry changes. The new answers re-run the timer's expiry effect, which submits (auto) exactly when time is up and the latch is open. |
| ExamRunner.Runner.GoPrevious | components/ExamRunner.tsx:40-42 | The index becomes `max(i - 1, 0)`. Answers, latch, calls and submission state are unchanged. |
| ExamRunner.Runner.GoNext | components/ExamRunner.tsx:44-46 | The index becomes `min(i + 1, len - 1)`. Answers, latch, calls and submission state are unchanged. |
| ExamRunner.Runner.JumpTo | components/ExamRunner.tsx:168 | The index becomes the clicked dot's index. Nothing else changes. |
| ExamRunner.Runner.HandleSubmit | components/ExamRunner.tsx:48-55 | A closed latch makes it a no-op: no call and no state change. An open latch closes, and exactly one call with the current answers is logged and left in flight with its `auto` flag, `submitting` true. |
| ExamRunner.Runner.Settle | components/ExamRunner.tsx:55-70 | Settling the in-flight call clears `submitting` either way. Success makes `submitted` true with the latch kept closed. Failure reopens the latch, keeps `submitted` false, counts one failure and alerts the time-up message iff the call was automatic, else the submission-failed message. |
| ExamRunner.Runner.ExpiryEffect | components/ExamRunner.tsx:75-78 | Once time is up, a not-yet-submitted exam with an open latch makes one automatic submit (`auto = true`). Otherwise no call is made. |
| ExamRunner.Runner.Mount | components/ExamRunner.tsx:114 | Mounting runs the timer's expiry effect for the first time. It submits only when the duration gives no time at all. |
| ExamRunner.Runner.Tick | components/ExamRunner.tsx:114 | An interval firing lowers the count by one while the timer ticks. Reaching zero auto-submits when the latch is open. After submission nothing changes. |
| ExamRunner.Step | components/ExamRunner.tsx:36-78 | Any single event keeps the runner invariant: at most one call in flight, and the latch closed exactly while a call is in flight or after success. A call is made only with the latch open, and after success no call is made. |
| ExamRunner.Run | components/ExamRunner.tsx:48-73 | Over any event sequence, every call is logged, nothing is sent after a success, and the number of calls is at most the failures seen plus one (plus none if the latch was closed). |
| ExamRunner.ExpiryScenario | components/ExamRunner.tsx:48-78 | A one-minute exam left to run out sends its answers automatically exactly once. The failure alerts the time-up text, and a later answer change re-runs the expiry effect and sends again. |
| ExamRunner.ManualThenExpiryScenario | components/ExamRunner.tsx:50-56 | With a manual submit still in flight, expiry and further clicks send nothing more, and after its success nothing is ever sent. |
| Countdown.Timer.constructor | components/Timer.tsx:12 | The count starts at `minutes * 60`. |
| Countdown.Timer.SetMinutes | components/Timer.tsx:14-16 | A changed `minutes` resets the count to `minutes * 60`. The expiry effect re-runs only if that changed the count. |
| Countdown.Timer.Effect | components/Timer.tsx:18-29 | The effect reports expiry iff the count is at or below zero, and schedules a tick iff it is above zero. The count is not changed. |
| Countdown.Timer.Tick | components/Timer.tsx:24-26 | A scheduled tick lowers the count by exactly one and re-runs the effect. With no tick scheduled (count at or below zero) nothing changes. |
| Countdown.FloorMinutes | components/Timer.tsx:31 | `m * 60 <= n < m * 60 + 60`. |
| Countdown.JsRem60 | components/Timer.tsx:32 | JavaScript's `%`: the remainder lies in `[0, 60)` for a non-negative count and in `(-60, 0]` for a negative one, and differs from `n` by a multiple of 60. |
| Countdown.ClockReadsBack | components/Timer.tsx:31-35 | For a count of zero or more, the clock text is a numeral of at least two digits, a colon, and exactly two digits. Read back they give `mins` and `secs` with `mins * 60 + secs == secondsLeft` and `secs < 60`. |
| Countdown.PaddedValue | components/Timer.tsx:34-35 | Zero-padding `String(n)` to two characters keeps its value and makes it at least two digits, exactly two below 100. |
| Countdown.ToneOf | components/Timer.tsx:38-48 | Red iff at most 60 seconds are left, amber iff 60 < count <= 300, neutral otherwise. |
| Countdown.ToneMonotone | components/Timer.tsx:38-48 | As the count goes down the colour never gets calmer. |
| Jwt.ParseJwt | lib/jwt.ts:2-8 | Fails with the shape error iff the `.`-split does not have three parts. Fails with the payload error iff the middle part does not decode. Otherwise returns exactly the decoded middle part. |
| Jwt.ShapeIffTwoDots | lib/jwt.ts:3-4 | The shape check accepts a token iff it holds exactly two `.` characters. |
| Jwt.SignatureIgnored | lib/jwt.ts:6 | Tokens with the same middle part and any header and signature parse identically, so no signature is checked. |
| Jwt.SplitsInThree | lib/jwt.ts:3 | Joining three dot-free parts with `.` splits back into exactly those parts. |
| AuthServer.NormalizeGroups | lib/authServer.ts:21-24 | An array claim is kept as is, a string becomes a one-element list, and anything else gives the empty list. |
| AuthServer.UserFromClaims | lib/authServer.ts:19-30 | The user's `sub`, `email` and groups are the decoded claims' `sub`, `email` and normalised `cognito:groups`. A `null` payload, whose property access throws, gives no user. |
| AuthServer.GetCurrentUser | lib/authServer.ts:11-35 | No `id_token` cookie gives no user without decoding. Otherwise a user exists iff the token parses to a non-null payload, and it is the user those claims describe. |
| AuthServer.RequireAdmin | lib/authServer.ts:37-43 | Fails with `NOT_ADMIN` iff there is no user or the groups lack `"admin"`. On success it returns exactly the current user. |
| AuthServer.DisplayName | app/admin/layout.tsx:24 | `email ?? sub`: the e-mail claim unless absent or `null`, else `sub`. |
| AuthServer.AdminGroups | lib/authServer.ts:21-24 | A user is an admin iff the groups claim is a list holding `"admin"` or is the string `"admin"`. |
| AuthServer.NoTokenNotAdmin | lib/authServer.ts:14-16 | Without an `id_token` cookie `requireAdmin` refuses, whatever the decoder does. |
| Api.BearerToken | lib/api.ts:8 | The credential is the `id_token` cookie's value, present iff that cookie is present and non-empty. |
| Api.FailureMessage | lib/api.ts:22 | The failure message starts with `API `, then holds the method, the path and, at its end, the status numeral. |
| Api.Classify | lib/api.ts:21-25 | Success iff the status is in 200-299, with the response body. Otherwise the failure names the method, path and status. |
| Api.ApiGet | lib/api.ts:6-26 | No request is sent iff there is no token, and then the call fails as not authenticated. Otherwise it sends one GET of `apiBase + path` with exactly `Authorization: Bearer <id_token>` and no caching, and the status decides the outcome. |
| Api.ApiPost | lib/api.ts:28-51 | The same local check. Otherwise it sends one POST of `apiBase + path` with the bearer header, `Content-Type: application/json` and the body, and the status decides the outcome. |
| Api.OnlyIdTokenMatters | lib/api.ts:8 | Changing any cookie other than `id_token` (`access_token` included) changes neither call. |
| Api.NoTokenNoRequest | lib/api.ts:10-12 | Without a token the outcome does not depend on the server's response. |
| HostedAuth.HostedLoginUrl | lib/auth.ts:10-18 | The URL is the domain, then `/login?`, then a query that parses back to exactly `client_id`, `response_type=code`, `scope=email openid phone`, `redirect_uri`, in that order. |
| HostedAuth.HostedLogoutUrl | lib/auth.ts:20-26 | The URL is the domain, then `/logout?`, then a query that parses back to exactly `client_id` and `logout_uri`, in that order. |
| HostedAuth.ExchangeHeaders | lib/auth.ts:37-45 | The header map always holds the form content type, and holds `Authorization: Basic base64(clientId:clientSecret)` iff the secret is set and non-empty. No other header is present. |
| HostedAuth.ExchangeRequest | lib/auth.ts:28-52 | The request goes to `domain/oauth2/token`. It always carries the form content type, and carries `Authorization: Basic base64(clientId:clientSecret)` iff the secret is set and non-empty, with no other header. Its body parses back to `grant_type=authorization_code`, `client_id`, `code`, `redirect_uri`. |
| HostedAuth.ExchangeCodeForTokens | lib/auth.ts:48-65 | Sends that request. Returns the token set iff the status is ok, else fails with `Failed to exchange code for tokens`. |
| HostedAuth.BasicCredentialRecoverable | lib/auth.ts:44 | When the client id has no colon, the Basic credential decodes (base64, then UTF-8) to `clientId:secret` and splits back into both parts. |
| HostedAuth.BasicMatchesFormEncodedCredential | lib/auth.ts:43-45 | For unreserved-only ids and secrets, the credential equals the one section 2.3.1 of RFC 6749 prescribes (form-encoding each part first). |
| CallbackRoute.Reason | app/auth/callback/route.ts:15 | `error || "login_failed"`. |
| CallbackRoute.ErrorLocation | app/auth/callback/route.ts:15 | The error redirect is `/?error=` followed by an encoding of the reason. The encoding decodes back to exactly the reason and contains no `&`. |
| CallbackRoute.CallbackRequest | app/auth/callback/route.ts:19-32 | The route's own token request goes to `domain/oauth2/token` with the form content type and an always-present Basic header of `clientId:secret` (`undefined` when unset). Its body parses back to the four authorization-code parameters. |
| CallbackRoute.CallbackMatchesExchange | app/auth/callback/route.ts:19-32 | With a secret set, the route's request and `exchangeCodeForTokens`' request have the same endpoint and headers, and bodies that parse alike. |
| CallbackRoute.UnsetSecretStillSendsBasic | app/auth/callback/route.ts:7 | With no secret configured, `exchangeCodeForTokens` sends no Authorization header. The route still sends one, whose credential decodes to `clientId:undefined`. |
| CallbackRoute.MaxAge | app/auth/callback/route.ts:45 | `Number(expires_in \|\| 3600)`: an absent or zero lifetime gives 3600, else the lifetime. |
| CallbackRoute.WrittenCookies | app/auth/callback/route.ts:51-72 | A successful exchange writes `id_token` and `access_token` with that lifetime, and `refresh_token` iff a non-empty one was returned, for 2592000 seconds. No other name is written. Every cookie is `httpOnly` on path `/`, and `secure` iff in production. |
| CallbackRoute.Get | app/auth/callback/route.ts:10-76 | A provider error or missing code redirects to the error location with no request and no cookie write. A non-ok token response redirects to `/?error=token_exchange_failed` with no cookie write. Success adds exactly the written cookies to the store and redirects to `/dashboard`. |
| CallbackRoute.StoreTokens | app/auth/callback/route.ts:47-72 | The successive `set` calls leave the store as the old store overridden by the written cookies. |
| Cookies.CookieJar.Set | app/auth/callback/route.ts:51 | `set(name, ...)` replaces that name's entry and touches no other. |
| Cookies.CookieJar.constructor | app/auth/callback/route.ts:47 | The store starts with the request's cookies. |
| LogoutRoute.RedirectResponse.constructor | app/auth/logout/route.ts:6 | A fresh redirect response to the given location, with no cookies set. |
| LogoutRoute.Get | app/auth/logout/route.ts:5-12 | Redirects to the hosted logout URL and sets exactly `id_token` and `access_token` to an empty value with `maxAge 0` on path `/`. `refresh_token` is not touched. |
| AdminLayout.Decide | app/admin/layout.tsx:11-29 | Renders iff the user is signed in and an admin, labelled `email ?? sub`. Anyone else, signed in or not, is redirected to `/`. |
| ExamsLayout.StudentGate | app/exams/layout.tsx:9-14 | No user goes to `/` (checked first) and an admin to `/admin`. No redirect happens iff the user is a signed-in non-admin. |
| ExamsLayout.Decide | app/exams/layout.tsx:9-17 | Renders the children iff the user is a signed-in non-admin. Otherwise it redirects to `/` without a user and to `/admin` for an admin. |
| NavLinks.VisibleLinks | components/NavLinks.tsx:15-29 | The admin list iff `isAdmin`, else the student list. |
| NavLinks.Hrefs | components/NavLinks.tsx:33 | The hrefs of the links, position by position. |
| NavLinks.MatchingHrefs | components/NavLinks.tsx:34-36 | An href is kept iff it is a candidate and the path equals it or starts with it followed by `/`. |
| NavLinks.Longest | components/NavLinks.tsx:39 | The first element after the stable longest-first sort: a candidate no shorter than any other, and the earliest such. |
| NavLinks.ActiveHrefIsLongestMatch | components/NavLinks.tsx:32-40 | There is no active href iff no visible href matches. Otherwise the active href is visible, matches, and is at least as long as every matching visible href. |
| NavLinks.VisibleHrefsDistinct | components/NavLinks.tsx:15-27 | The hrefs within each menu are pairwise distinct. |
| NavLinks.AtMostOneActive | components/NavLinks.tsx:44-46 | At most one rendered link is highlighted. |
| NavLinks.NestedAdminPage | components/NavLinks.tsx:38-39 | On `/admin/exams/x` the active href is `/admin/exams`, not `/admin`. |
| NavLinks.SegmentBoundary | components/NavLinks.tsx:35 | `/adminx` does not match `/admin`, while `/admin` and `/admin/` do. |
| QuestionBuilder.RandomId | components/AdminUploadQuestionsForm.tsx:16-18 | A generated id starts with `Q`, so it is never blank. |
| QuestionBuilder.PointsInput | components/AdminUploadQuestionsForm.tsx:216-222 | `parseInt(input) \|\| 0`: an unparseable input gives 0, else the parsed number. |
| QuestionBuilder.AssignIdsSpec | components/AdminUploadQuestionsForm.tsx:49-57 | After mounting no id is blank (empty or white space). Questions with a non-blank id are unchanged, and the others only get a fresh id. |
| QuestionBuilder.WithChoiceSpec | components/AdminUploadQuestionsForm.tsx:87-106 | Choice `c` becomes `v` and the other choices stay. The correct answer becomes `v` iff it was the old choice's text, else it is unchanged. A consistent question stays consistent. |
| QuestionBuilder.WithoutChoiceSpec | components/AdminUploadQuestionsForm.tsx:119-135 | Exactly choice `c` is removed and the rest keep their order. The correct answer is cleared iff it was the removed text, else it is unchanged. A consistent question stays consistent. |
| QuestionBuilder.TypingIntoBlankChoiceSelectsIt | components/AdminUploadQuestionsForm.tsx:99-101 | With no correct answer chosen, typing into a blank choice also makes that text the correct answer. |
| QuestionBuilder.NewFormNeedsFilling | components/AdminUploadQuestionsForm.tsx:44-57 | A freshly mounted form has one question with an id, and it fails validation. |
| QuestionBuilder.Builder.constructor | components/AdminUploadQuestionsForm.tsx:35-46 | Starts with one empty question without an id, the exam to be opened, nothing pending and no message. |
| QuestionBuilder.Builder.Mount | components/AdminUploadQuestionsForm.tsx:49-57 | The mount effect replaces the list by its id-assigned version and leaves the rest of the form alone. |
| QuestionBuilder.Builder.AddQuestion | components/AdminUploadQuestionsForm.tsx:61-69 | Appends one empty question (four blank choices, no correct answer, one point) with its own id. Earlier questions are unchanged. |
| QuestionBuilder.Builder.RemoveQuestion | components/AdminUploadQuestionsForm.tsx:71-73 | Removes exactly position `i` and keeps the order of the rest. An index outside the list removes nothing. |
| QuestionBuilder.Builder.UpdateQuestion | components/AdminUploadQuestionsForm.tsx:75-85 | Only the named field of question `i` changes. |
| QuestionBuilder.Builder.SetCorrectChoice | components/AdminUploadQuestionsForm.tsx:137-139 | Only question `i`'s correct answer changes. Choosing one of its choices makes it consistent. |
| QuestionBuilder.Builder.UpdateChoice | components/AdminUploadQuestionsForm.tsx:87-106 | Question `i` becomes its choice-edited version and nothing else changes. |
| QuestionBuilder.Builder.AddChoice | components/AdminUploadQuestionsForm.tsx:108-117 | Appends `""` to question `i`'s choices and nothing else changes. |
| QuestionBuilder.Builder.RemoveChoice | components/AdminUploadQuestionsForm.tsx:119-135 | Question `i` becomes its choice-removed version and nothing else changes. |
| QuestionBuilder.Builder.SetOpenExam | components/AdminUploadQuestionsForm.tsx:38 | Sets the open-exam flag only. |
| QuestionBuilder.Builder.Submit | components/AdminUploadQuestionsForm.tsx:143-178 | The action is called iff every question has non-empty text, a non-empty correct answer and no empty choice. An invalid form shows the validation error. The upload carries the questions and `"on"` or `""`. Its outcome sets the success message or the failure error, and the form ends not pending. |
| ResultOrder.SortNewestFirst | app/results/page.tsx:45-49 | The array is reordered in place into a permutation of itself that is newest first by the key, with invalid dates last. |
| ResultOrder.InsertAt | app/dashboard/page.tsx:34-39 | One insertion step: the sorted prefix grows by one element, the array stays a permutation, and the suffix is untouched. |
| ResultOrder.Swap | app/dashboard/page.tsx:34-39 | Exchanges two neighbours, keeping the multiset. |
| ResultOrder.FirstIsNewest | app/dashboard/page.tsx:41 | The first element of a newest-first list is at least as recent as every element. |
| ResultOrder.Listed | app/dashboard/page.tsx:31 | `data.results \|\| []`: empty when the request failed or the field is absent. |
| ResultOrder.SortedNewestFirst | app/dashboard/page.tsx:31-39 | The fetched list, copied and sorted: a permutation of it, newest first. |
| DashboardPage.Page | app/dashboard/page.tsx:7-82 | Redirects exactly as the student area does. Otherwise it shows `email ?? sub`, an open-exam count of the fetched list's length (0 on failure), and a latest result that is absent iff there are no results (or the fetch failed) and otherwise one of them at least as recent as all, headed by `LatestTitle` of it. |
| DashboardPage.LatestTitle | app/dashboard/page.tsx:82 | `examName ?? "Exam"`. |
| ResultsPage.Either | app/results/page.tsx:46-47 | `a \|\| b \|\| undefined` on optional strings. |
| ResultsPage.FormatDateTime | app/results/page.tsx:16-27 | An absent or empty value gives `—`, an unparseable one is shown unchanged, and a valid date is formatted. |
| ResultsPage.ScoreLabel | app/results/page.tsx:92-95 | With a maximum the label is `(score ?? —) / max`, else `score ?? —`. |
| ResultsPage.RowKey | app/results/page.tsx:99 | The attempt key if non-empty, else `examId-idx`. |
| ResultsPage.RowKeysDistinct | app/results/page.tsx:99 | Rows of the same exam without attempt keys get distinct keys. |
| ResultsPage.Title | app/results/page.tsx:104 | `examName \|\| examId`. |
| ResultsPage.Page | app/results/page.tsx:29-52 | Redirects exactly as the student area does. Otherwise the results are a permutation of the fetched ones (none on failure), newest first by `submissionTime \|\| submittedAt \|\| ""`, with one row per result in that order. |
| Encoding.SerializeRoundTrip | lib/auth.ts:11-17 | A query serialised by `URLSearchParams` or `querystring.stringify` parses back to the same pairs in the same order. |
| Encoding.EncodeRoundTrip | app/auth/callback/route.ts:15 | `encodeURIComponent` output decodes back to the original string. |
| Encoding.Base64RoundTrip | lib/auth.ts:44 | Base64 output decodes back to the original bytes. |
| Encoding.Utf8RoundTrip | lib/auth.ts:44 | UTF-8 encoding decodes back to the original string. |
| Strings.SplitCount | lib/jwt.ts:3 | A split gives one more piece than there are separators. |
| Strings.SplitJoin | lib/jwt.ts:3 | Splitting a join of separator-free pieces gives back the pieces. |
| Strings.JoinSplit | lib/jwt.ts:3 | Joining the pieces of a split gives back the string. |
| Strings.NatToStringValue | components/Timer.tsx:34-35 | `String(n)` reads back as `n`. |

## Left out

- Network, cookies and environment: `fetch`, `cookies()`, `NextResponse` and `redirect`
  are inputs or returned values, not I/O. Environment variables are a `Config` value.
  The `!` assertions on required variables are taken as set, and only the client secret
  may be missing.
- Host codecs: `JSON.parse` and Node's base64 decoding of the JWT payload are one
  parameter, with base64url acceptance included in whatever it does. The project does
  prove base64 and UTF-8 *encoding* against its own decoders.
- Dates and locale: `new Date(...).getTime()` is a parameter returning `None` for an
  invalid date, and `toLocaleString` is a parameter.
- ResultOrder.SortNewestFirst: a comparator involving an invalid date returns `NaN`,
  which leaves the order implementation-defined in JavaScript. The model places results
  with an invalid date after all valid ones. Stability of the sort is not stated.
- React scheduling: effects, callbacks and intervals are explicit method calls. Timing,
  batching, StrictMode double invocation and unmount cleanup are not modelled.
- `removeChoice` mutates the existing question object before returning the copied
  array. The model replaces the question by value, so it does not capture the aliasing
  this creates between the previous and next state.
- Disabled and hidden controls are not modelled. The model accepts these events,
  which the rendered page never produces:
  - Previous at the first question, Next at the last, and either while submitting
    (components/ExamRunner.tsx:190, 198). The clamping and the unchanged latch make
    them harmless.
  - Submit while submitting. The latch makes it a no-op.
  - The correct-answer button of a blank choice
    (components/AdminUploadQuestionsForm.tsx:267). The model then sets the correct
    answer to "", which validation rejects.
  - The form's submit while an upload is pending
    (components/AdminUploadQuestionsForm.tsx:361). The model runs a second upload.
  - Question removal with only one question (components/AdminUploadQuestionsForm.tsx:228).
    This is not harmless. `Builder.RemoveQuestion` empties the list, and
    `Builder.Submit` then uploads an empty list, because `IsValid([])` holds. The
    source cannot reach that state.
  - Choice removal with two choices or fewer (components/AdminUploadQuestionsForm.tsx:298).
    `Builder.RemoveChoice` leaves fewer than two choices. Validation still checks only
    the remaining choices.
- ExamRunner.Runner.constructor: requires at least one question. The source does not
  check this. An exam with no questions reaches `exam.questions[0]`
  (components/ExamRunner.tsx:34), and rendering `question.text` (line 133) throws a
  `TypeError`. The model does not describe that crash.
- Transport and body failures are not modelled. A response is always a status with a
  parsed body. The model cannot express three cases:
  - a rejected `fetch` (lib/api.ts:14, 37; lib/auth.ts:48; app/auth/callback/route.ts:19),
    which the callers propagate or, on the dashboard and results pages, catch;
  - a body that is not JSON, so that `res.json()` throws (lib/api.ts:25, 50;
    lib/auth.ts:59; app/auth/callback/route.ts:40);
  - a token body without `id_token` or `access_token`. The route still writes those
    cookies with the value `undefined` (app/auth/callback/route.ts:42-43). In the model,
    a token set always carries both strings.
- `alert` and `console` output: an alert is a returned message, and console output is
  dropped.
- Numbers are integers. Scores, points and `expires_in` are not floating point, and
  `Number(...)` of a non-numeric `expires_in`, which gives `NaN`, is not modelled.
- `data.exams || []` and `data.results || []` are modelled for an absent field or a
  list. Another truthy non-list value is not.
- The relative redirect targets are not resolved against `req.url`.
- HostedAuth.HostedLoginUrl: the exact characters of the query are not spelled out.
  The contract states the prefix and that the query parses back to the four parameters
  in order.
- No signature verification happens anywhere, although section 7.2 of RFC 7519 requires
  it before claims are trusted. `Jwt.SignatureIgnored` records this.
- Rendering-only files (profile, home, header, theme toggle, admin listings, exam list,
  exam creation form, admin results with `toFixed`) and `lib/apiClient.ts` are not part
  of this model.
