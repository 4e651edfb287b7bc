# URL shortener core: OTP lifecycle, account flows, short URLs and request gates

This Dafny project models the core of a Go URL-shortener service and proves properties of that model.

- **One-time passcodes (OTPs).** An OTP is issued per (key, type, action) tuple. The model covers:
  - six-digit generation;
  - the rule that a tuple has at most one pending OTP;
  - verification with lazy expiry;
  - a commit that marks the OTP `success`.
- **Account endpoints.** Login, sign-up, token refresh and the credential check run fixed sequences of steps over the OTP table, the users table and the token issuers.
- **Short URLs.** The model covers:
  - the closed status set;
  - lookups by code;
  - the per-user listing, filtered by status and newest first;
  - registration (slug generation and the active-code check);
  - the redirect decision, including lazy expiry;
  - the visit record that raises a URL's click count.
- **Request gates.**
  - The global rate limit: key derivation, 20 requests per minute, and rejection when the limiter fails.
  - The access-token and refresh-token check chains.
  - The strong-password rule and its messages.
  - The single error writer every handler uses.

## How the model is built

The relational store is one object, `Schema.Db`.
- It holds one sequence of rows per table and one identity counter per table.
- Row order is insertion order.
- `Db.Valid()` is the store's invariant:
  - ids are unique and below the table's counter;
  - e-mails are unique (the `UNIQUE` constraint on `users.email`);
  - no two pending OTPs share a (key, type, action) tuple.
- The tokens the database assigns to new OTP rows are inputs. They are assumed distinct, and `OtpModel.SecondCommitFails` states this as its `DistinctTokens` hypothesis.
- Every state-changing operation preserves `Valid()`, given the fetch behaviour described under the first line of "## Left out".

Each store failure is an `Option<string>` parameter: `None` when the statement succeeds, `Some(text)` carrying the driver's error text when it fails. This makes the source's error branches reachable in the model, with the one exception named under "## Left out".

Receivers that the Go code mutates are classes whose methods carry `modifies` clauses: `Otp`, `User`, `Url`, `CreateShortUrl` and `Analytics`. Each such method is proved against a pure function of the old state:
- `VerifySpec` and `GenerateSpec` for the OTP table;
- `SaveSpec` for the users table;
- `ValidateSpec` and `ListSpec` for URLs.

What the source promises is proved as lemmas about those functions.

Some parts of the system become parameters:
- **Oracles**, passed as function-typed parameters: password hashing, credential checking, JWT issue and validation, decryption, the refresh-token store, `slug.Make` and the Redis limiter.
- **Plain inputs**: the clock reading, the random number behind an OTP, the KSUID string, and the token the database assigns to a new OTP row.

Time is an integer count of nanoseconds, where 0 is Go's zero time.

Behaviours the model keeps as the code has them:
- **Verification order.** The stored code is compared before the OTP's age is checked. A wrong code on a stale OTP therefore leaves it pending.
- **Limiter failures.** A failing limiter rejects the request (429); it is not reported to a caller.
- **Admission rule.** A request is admitted when the limiter reports at least one allowed request. The limiter's own counting is outside the model.
- **Refresh-token lookup.** The record is looked up by the raw `Authorization` header value, not by the decrypted token.
- **Login OTP for an unknown user.** The request fails with the user lookup's "User not found". The "No user found with email" message appears only for a found row whose id is 0.

## Model

| member | source | states |
|---|---|---|
| Validator.StrongPasswordCharacterised | validator/validator.go:18-24 | an accepted password has at least 5 runes, an ASCII capital and a rune outside [a-zA-Z0-9]; for a password without newlines, those three conditions also guarantee acceptance |
| Validator.StrongPasswordNeedsNoDigit | validator/validator.go:18-37 | a password with no digit ("Abcd!") is accepted, although the strongpwd message asks for "one number" |
| Validator.TrailingNewlineIsTheSpecialRune | validator/validator.go:21-22 | `$` matches before a final newline, and that newline counts as the required special rune: "Abcde\n" is accepted, "Abcde" is not |
| Validator.InnerNewlineRejected | validator/validator.go:21-22 | a newline anywhere except at the very end makes the password fail (`.` excludes newline) |
| Validator.MsgForTag | validator/validator.go:26-40 | fixed messages for required/email/strongpwd, the rule parameter appended for min/max, the validator's own text for any other tag |
| Validator.MsgForTagDependsOnTagAndParam | validator/validator.go:26-40 | fixed-message tags give the same message whatever the field; min/max messages end with the parameter and depend only on tag and parameter |
| ErrorResponse.Details | utils/error.go:32-39 | one detail per field error, same order, field name and MsgForTag message |
| ErrorResponse.ResponseFor | utils/error.go:32-61 | always 400; validation errors give "Request failed" plus the details, other errors give their own text and no details |
| ErrorResponse.HandleValidationError | utils/error.go:25-62 | a nil error writes nothing; otherwise the loop builds exactly the details list and writes ResponseFor(err) |
| UrlUtils.GetShortUrl | utils/url.go:11-14 | the link is the app prefix "http://host:port/" followed by exactly the code |
| UrlUtils.ShortUrlRoundTrip | utils/url.go:11-14 | the code is recovered from its link, so distinct codes give distinct links |
| UrlUtils.EffectiveMax | utils/url.go:17-19 | the bound is maxLength when it is in 1..20, otherwise 20 |
| UrlUtils.GenerateSlug | utils/url.go:16-34 | the slug is a prefix of slug.Make(input), or of the KSUID for empty input, cut to the effective bound |
| UrlUtils.SlugBounds | utils/url.go:16-34 | the slug is never longer than 20 and is exactly the prefix of length min(len, bound) |
| Http.GetInt64 | middleware/global-rate-limit.go:34-43 | a context value that is absent or not an int64 reads as user id 0 |
| AuthMiddleware.Authenticate | middleware/authenticate.go:12-31 | an empty header aborts 401 "Unauthorized !"; the request continues exactly when the validator accepts the raw header, with its user id; otherwise 401 with the validator's text |
| AuthMiddleware.EmptyHeaderNeverValidated | middleware/authenticate.go:13-19 | an empty header is refused the same way whatever the validator would say |
| AuthMiddleware.AuthenticateRefreshToken | middleware/authenticate-refresh-jwt.go:15-57 | continues exactly when: the header is non-empty, it decrypts, the decrypted JWT validates as a refresh token, the record for the raw header is found, and now is not after its expiry; the user is the id in the token; every refusal is 401 |
| AuthMiddleware.RefreshChecksInOrder | middleware/authenticate-refresh-jwt.go:24-38 | a decrypt failure is reported before the validator or store is consulted, and a validation failure before the store is consulted |
| AuthMiddleware.RefreshLookupUsesRawHeader | middleware/authenticate-refresh-jwt.go:40-46 | the outcome depends on the store only through its answer for the raw header value |
| AuthMiddleware.RefreshExpiryBoundary | middleware/authenticate-refresh-jwt.go:48-53 | a record is accepted at exactly its expiry instant and refused one nanosecond later |
| RateLimiter.CheckRateLimiter | db/redis.go:55-61 | allowed exactly when the limiter admits at least one request; a limiter error gives (false, that error) |
| RateLimiter.CheckRateLimitInTimeUnit | db/redis.go:40-53 | a second, a minute or an hour asks the limiter for `requests` per that unit with a burst equal to the rate; any other unit gives (false, "unsupported time unit") |
| RateLimiter.AdmissionNeedsLimiter | db/redis.go:40-53 | admitted exactly when the unit is a second, minute or hour and the limiter, asked for `requests` per that unit (burst = rate), admits at least one request |
| RateLimiter.RateLimitErrors | db/redis.go:40-61 | any other unit gives (false, "unsupported time unit") without consulting the limiter; a limiter error is passed on |
| GlobalRateLimit.Int32Of | middleware/global-rate-limit.go:29 | `rune(id)` keeps the low 32 bits as a signed value; in-range values are unchanged |
| GlobalRateLimit.RuneString | middleware/global-rate-limit.go:29 | `string(rune(id))` is one character: the code point when it is a Unicode scalar, U+FFFD otherwise |
| GlobalRateLimit.PrepareClientKey | middleware/global-rate-limit.go:24-32 | a non-zero user id gives "global:user:" followed by the single character `RuneString(id)` (not decimal digits); otherwise "global:" + client IP |
| GlobalRateLimit.UserKeysCollide | middleware/global-rate-limit.go:27-29 | two users share a key exactly when their ids agree in the low 32 bits, or both render as U+FFFD |
| GlobalRateLimit.WrappedIdsShareKey | middleware/global-rate-limit.go:29 | every id 2^32·k + 65 is keyed as user "A" |
| GlobalRateLimit.AnonymousKeyedByIp | middleware/global-rate-limit.go:24-43 | an absent user, a non-int64 value and id 0 all give the IP key |
| GlobalRateLimit.GlobalRateLimitGate | middleware/global-rate-limit.go:12-22 | a request reaches the next handler exactly when the limiter admits it at 20 per minute; otherwise 429 "Too Many Requests", including when the limiter fails |
| OtpModel.ValidNamesAreExactlyTheMembers | model/otp.go:199-221 | the validity checks accept exactly {email, phone}, {login, signup, reset_password} and {pending, success, expire}; distinct members have distinct names |
| OtpModel.PadDecimal | model/otp.go:191 | `%06d` output has exactly the width and only decimal digits |
| OtpModel.PadDecimalValue | model/otp.go:191 | a number below 10^width reads back unchanged from its zero-padded rendering |
| OtpModel.FormatOtpRoundTrip | model/otp.go:189-197 | a code is exactly 6 digits with leading zeros kept, denotes n, and distinct numbers give distinct codes |
| OtpModel.SetStatusAt | model/otp.go:110-120 | with distinct ids, the status update changes exactly the one row with that id |
| OtpModel.FindPending | model/otp.go:73-81 | the row found is pending with the token and action, and no earlier row is; none found means no such row exists |
| OtpModel.NewestPending | model/otp.go:160-169 | the row found is a pending row of the tuple with the greatest creation time; none found means no pending row of the tuple |
| OtpModel.VerifyWithoutPendingRow | model/otp.go:73-81 | without a pending row for (token, action), verification fails "Invalid OTP details !" and changes nothing |
| OtpModel.WrongCodeChangesNothing | model/otp.go:87-89 | a wrong code fails "Invalid OTP code" and changes nothing, however old the row |
| OtpModel.CorrectCodeTooLateExpires | model/otp.go:91-98 | a correct code older than the window fails with the expiry error on dry run and commit alike; the row becomes `expire` unless that write fails, which is only logged |
| OtpModel.DryRunNeverCommits | model/otp.go:63-108 | the dry run never sets `success`: rows stay or go from pending to `expire`, and a successful dry run changes nothing |
| OtpModel.CommitMarksOnlyTheMatchedRow | model/otp.go:99-120 | a successful commit had a fresh, matching row and marks exactly that row `success` |
| OtpModel.SecondCommitFails | model/otp.go:71-120 | with distinct tokens, after a successful commit, committing the same token again fails "Invalid OTP details !" |
| OtpModel.SetStatusKeepsTableOk | model/otp.go:110-120 | expiring or committing rows keeps ids unique and at most one pending row per tuple |
| OtpModel.VerifyKeepsTableOk | model/otp.go:71-108 | verification preserves the OTP table invariant |
| OtpModel.LoginUserCheck | model/otp.go:124-137 | only e-mail login OTPs consult the user lookup; such an OTP passes exactly when the lookup has no fault and finds a user whose id is non-zero |
| OtpModel.LoginOtpNeedsUser | model/otp.go:122-137 | an e-mail login OTP fails, inserting nothing, when the lookup errs, finds nobody or finds id 0 |
| OtpModel.GenerateRefusesRecent | model/otp.go:173-176 | while the newest pending row of the tuple is younger than the window, generation fails "OTP already sent recently" and changes nothing |
| OtpModel.GenerateReplacesStale | model/otp.go:139-187 | once that row is at least the window old, it becomes `expire`, and one pending row is appended carrying the fresh code, the time and the store's token |
| OtpModel.GenerateKeepsTableOk | model/otp.go:122-187 | generation preserves unique ids and at most one pending row per tuple |
| OtpModel.AppendPendingKeepsTableOk | model/otp.go:147-154 | inserting a pending row with the next id keeps the invariant when its tuple has no pending row |
| OtpModel.GenerateSuccess | model/otp.go:139-156 | after a success, the new row is the only pending row of its tuple and the receiver mirrors it |
| OtpModel.SecondGenerateWithinWindowFails | model/otp.go:160-176 | a second request for the same tuple inside the window fails and leaves the table as the first left it |
| OtpModel.WindowBoundaryStillVerifies | model/otp.go:91 | a row exactly the window old still verifies (strict `>`) |
| OtpModel.WindowBoundaryAlreadyStale | model/otp.go:174-182 | at that same instant a new request treats the row as stale (strict `<`), expires it and inserts a new one |
| OtpModel.Otp.UpdateStatus | model/otp.go:110-120 | the status is written for the receiver's id, and the receiver takes it only once the write succeeds |
| OtpModel.Otp.GenerateOtp | model/otp.go:189-197 | sets the code to the six-digit rendering of n and the creation time to now |
| OtpModel.Otp.CheckExistingOtp | model/otp.go:160-187 | the table and error are those of the refuse-or-expire rule for the newest pending row |
| OtpModel.Otp.Generate | model/otp.go:122-158 | the table, counter, receiver and error are those of GenerateSpec; the store invariant is kept |
| OtpModel.VerifyInternal | model/otp.go:71-108 | the table and error are those of VerifySpec; the store invariant is kept |
| OtpModel.Verify | model/otp.go:63-65 | the dry run: VerifySpec without commit |
| OtpModel.VerifyWithUpdate | model/otp.go:67-69 | the commit: VerifySpec with commit |
| OtpRoutes.HandleSendOtp | routes/otp.go:38-70 | a bind error or an invalid type/action answers 400 and leaves the table alone; otherwise the outcome is Generate's; success returns the id and token (never the code) and only then hands the OTP to the mailer |
| OtpRoutes.HandleVerifyOtp | routes/otp.go:18-36 | runs the dry-run check only, so no row becomes `success` |
| UserModel.FindByEmail | model/user.go:55-56 | the first user whose e-mail matches ignoring ASCII case; none means no user matches |
| UserModel.GetUserByEmail | model/user.go:52-70 | the matching user, or the zero user with "User not found", or the zero user with the driver's error |
| UserModel.SaveRefusesExistingEmail | model/user.go:31-34 | an e-mail already present (ignoring case) is refused "User already exists !" and nothing is inserted |
| UserModel.SaveProceedsAfterLookupError | model/user.go:30-50 | a failed lookup does not stop the insert of a non-empty e-mail |
| UserModel.SaveRefusesEmptyEmail | model/user.go:31-34 | the empty e-mail is always refused, because it equals the zero user's e-mail |
| UserModel.SaveOutcome | model/user.go:30-50 | either nothing changes and an error is returned, or exactly one row is appended holding the hash (never the password), with the receiver's id and time taken from it |
| UserModel.SaveKeepsTableOk | model/user.go:30-50 | saving keeps user ids and e-mails unique |
| UserModel.User.Save | model/user.go:30-50 | the table, counter, receiver and error are those of SaveSpec; the store invariant is kept |
| UserRoutes.ValidateSignUp | model/user.go:20-23 | the sign-up payload binds exactly when the e-mail is non-empty and the password is strong |
| UserRoutes.ValidateLogin | model/user.go:25-28 | the login payload binds exactly when e-mail and password are non-empty |
| UserRoutes.BindSignUp | routes/user.go:169-175 | binding succeeds exactly for a decoded payload passing its tags, and then yields it unchanged |
| UserRoutes.BindLogin | routes/user.go:72-78 | binding succeeds exactly for a decoded payload passing its tags, and then yields it unchanged |
| UserRoutes.WeakPasswordAnswer | validator/validator.go:18-37 | a weak sign-up password is answered 400 "Request failed" with the single strongpwd detail for Password |
| UserRoutes.HandleLogin | routes/user.go:71-122 | credentials are checked before the OTP is touched; the OTP is committed with action "login" before any token; tokens are returned only when a pending login row became `success` |
| UserRoutes.HandleSignUp | routes/user.go:168-213 | dry run ("signup") before the save, commit only after a successful save, and a commit failure still answers 201; a user row is added only for a strong password and holds its hash |
| UserRoutes.HandleRefreshToken | routes/user.go:30-60 | an empty header answers "Authorization token missing"; 200 exactly when both tokens are issued for the context's user id |
| UserRoutes.RefreshRouteIssuesForTokenUser | routes/user.go:31-59 | behind the refresh gate, the tokens are issued for the id carried by the validated refresh JWT |
| UserRoutes.HandleVerifyCredentials | routes/user.go:133-157 | the credential check alone decides the answer; no store is consulted |
| UrlModel.ParseUrlStatus | model/url.go:22-28 | a string parses exactly when it is a valid status, and then to the status with that name |
| UrlModel.UrlStatusNamesRoundTrip | model/url.go:22-28 | the valid statuses are exactly the four names, and each name parses back to its status |
| UrlModel.FindUrl | model/url.go:59-64 | the first row with the code (and active, for the active lookup); none means no such row |
| UrlModel.LookupByCode | model/url.go:57-74 | a found URL is a stored row of that code with click count 0; no row gives the not-found text, and a driver error gives the wrapped text |
| UrlModel.GetUrlByCode | model/url.go:57-74 | a query fault gives the wrapped text; no row of the code gives "no URL found for the provided code"; otherwise the first row of the code, as a URL with click count 0, or the wrapped scan error when its expiry is NULL |
| UrlModel.GetActiveUrlByCode | model/url.go:182-199 | a query fault gives the wrapped text; no active row of the code gives "no active URL found for the provided code"; otherwise the first active row of the code, as a URL with click count 0, or the wrapped scan error when its expiry is NULL |
| UrlModel.ActiveLookupSeesOnlyActiveRows | model/url.go:182-199 | with no active row for the code the answer is "no active URL found", whatever else is stored |
| UrlModel.Select | model/url.go:102-113 | keeps exactly the user's rows, of the filter status when one is given, each as often as stored |
| UrlModel.SortNewestFirst | model/url.go:116 | a permutation ordered by creation time, newest first |
| UrlModel.ListingContents | model/url.go:95-145 | the listing holds the user's rows (status-filtered only for a valid filter), newest first, each with its short link, and click counts reading 0; it holds all of them unless a row fetch failed, and then exactly those before that row |
| UrlModel.QueryMembers | model/url.go:102-118 | a stored row is listed exactly when it is the user's and, for a valid filter, has that status |
| UrlModel.GetUrlsByUser | model/url.go:95-145 | returns exactly ListSpec: a query error, the first scan error, or the entries in order up to the end of the result or the first failed row fetch |
| UrlModel.ScanResult | model/url.go:124-144 | an error exactly when a scan fault falls within the result rows; otherwise one entry per row read, in order, stopping short of the result exactly at a fetch failure within it (no `rows.Err()` check) |
| UrlModel.ScanRows | model/url.go:124-139 | the row loop stops at the first scan failure with its wrapped text, and ends with success at a failed fetch as at the end of the result; it returns one entry per row read, in order, a NULL expiry read as the zero time |
| UrlModel.FetchFailureTruncatesListing | model/url.go:124-144 | a fetch failure after n rows returns success holding only the first n entries, which differs from the complete listing |
| UrlModel.ScannedCode | model/url.go:182-199 | the code in the returned `Url` is the requested code exactly when the code is empty or, with no query fault, an active row has it (even one whose NULL expiry fails the scan); otherwise it is empty |
| UrlModel.ValidateOutcome | model/url.go:147-164 | on every table: the code is replaced by its 20-char slug; refused exactly when the slug is empty or (no query fault) an active URL has it, including one with a NULL expiry; success is active with the caller's user, target and expiry |
| UrlModel.NullExpiryRowBlocksItsCode | model/url.go:150-153 | an active row "abc" with a NULL expiry makes the lookup fail, yet registering "abc" is refused with "URL code already exists !" |
| UrlModel.ValidatedSaveKeepsActiveCodesUnique | model/url.go:147-180 | on every table, storing what a fault-free validation returned keeps active codes unique |
| UrlModel.StoredStatusNeverChanges | model/url.go:76-93 | the update sends the receiver's current status, so for a loaded URL the stored row never changes |
| UrlModel.Url.UpdateStatus | model/url.go:76-93 | an invalid status is refused with nothing written; otherwise the old status is written and the receiver takes the new one only after the write succeeds |
| UrlModel.Url.Save | model/url.go:166-180 | a failure changes nothing; success appends one row with the next id and click count 0 and sets the receiver's id |
| UrlModel.CreateShortUrl.Validate | model/url.go:147-164 | the receiver keeps the slug, and the result is ValidateSpec's |
| UrlRoutes.RedirectDecision | routes/url.go:56-90 | redirect exactly when active and the expiry is zero or not before now; expire-and-refuse exactly when active with a non-zero expiry before now; otherwise "URL is not active" or the lookup error |
| UrlRoutes.RedirectTargetIsStored | routes/url.go:56-90 | the redirect target is exactly the url of a stored active row with that code |
| UrlRoutes.HandleGetUrls | routes/url.go:52-91 | answers per RedirectDecision: 308 to the url with a visit job on a redirect, "URL has expired" without one; the url table is left unchanged in every case |
| UrlRoutes.HandleListUrls | routes/url.go:26-50 | a non-empty invalid status query is refused; otherwise the answer is the listing of the context user |
| UrlRoutes.HandleShortUrl | routes/url.go:93-122 | the owner is always the context user; nothing is stored unless validation passed; success answers the short link of the slug and hands the saved URL to the mailer |
| AnalyticsModel.IncrementAddsOnePerRow | model/analytics.go:34-36 | the update adds one click per row carrying the id |
| AnalyticsModel.IncrementExactlyOne | model/analytics.go:34-40 | with unique ids, exactly the URL with the id gains one click; with no such URL nothing changes |
| AnalyticsModel.Analytics.Save | model/analytics.go:21-43 | a failed insert changes nothing; otherwise one visit row is appended, then the click count rises, and an increment failure is reported with the visit kept |

## Left out

- OtpModel.Otp.CheckExistingOtp: a failure while fetching the newest pending row is not modelled. The source's `if row.Next()` (model/otp.go:164) never asks `rows.Err()`, so such a failure reads as "no pending row". `Generate` then inserts a second pending row for the tuple. `CheckExisting`, `GenerateSpec`, `GenerateRefusesRecent`, `GenerateKeepsTableOk` and the at-most-one-pending part of `Db.Valid()` therefore hold only when that fetch succeeds. The URL listing's loop does model this case: see `UrlModel.FetchFailureTruncatesListing`.
- Mail delivery (SMTP, HTML templates, the gRPC mail client) is not modelled. The handlers return what they would hand to the mailer instead.
- The background goroutines are not modelled as concurrency. The mail dispatches and the redirect's analytics save become returned values (`mail`, `visit`). `Analytics.Save` is modelled on its own.
- The check-then-insert race in `Otp.Generate` is not modelled, because the model is sequential.
- Several operations whose code is not part of this model are function parameters:
  - JWT signing and validation (including the two-argument `ValidateJWT`);
  - bcrypt hashing and token decryption;
  - `ValidateCredentials`, `GenerateJWT`, `GenerateRefreshJWT` and `GetRefreshTokenByToken`.
- The GCRA algorithm behind `RedisLimiter.Allow` is the parameter `allow`. Spreading limits per window type is also left to it.
- Configuration, connection setup, logging and route registration are not modelled. The OTP expiry minutes and the app host and port are parameters.
- Random numbers, KSUIDs and `slug.Make` are inputs, and so is the wall clock. Sign-up takes one clock reading per step.
- The refresh handler reads the user id under the key "loggedInUser" (routes/user.go:31). The middleware stores it under a configuration constant whose value is not part of this model. `UserRoutes.RefreshRouteIssuesForTokenUser` assumes the two keys are the same.
- The `Otp` a send request starts from has status `Pending` in `OtpRoutes.Requested`. The source leaves the status empty until the row is stored, so the OTP handed to the mailer differs in that field.
- JSON decoding is modelled as a `Bound` input, as are the struct tags of the OTP, credential and URL payloads. The tags of the sign-up and login payloads are modelled.
- `UserModel.FindByEmail` compares e-mails ignoring ASCII case only. Unicode case folding and the `%`/`_` wildcards of `ILIKE` are not modelled.
- `OtpModel.FindPending`, `UrlModel.FindUrl` and `UserModel.FindByEmail` take the first match in table order. A single-row SQL query among several matches returns an unspecified one.
- `UrlModel.SortNewestFirst` keeps rows with equal creation times in table order. `ORDER BY created_at DESC` leaves that order unspecified, and `UrlModel.GetUrlsByUser` inherits the choice.
- `OtpModel.NewestPending` breaks ties in creation time by table order, which SQL leaves unspecified. With at most one pending row per tuple, there are no ties.
- `OtpModel.MsgAlreadySent` renders the instant as a nanosecond count, because the configured time format is not part of this model.
- Error texts built with `fmt.Errorf(errStr)` are taken verbatim. Format verbs inside driver messages would be garbled by the source; the model does not show this.
- Timestamps are exact integers. Database rounding of stored times is not modelled. `Url.Save` keeps the receiver's creation time.
- Integer widths are not modelled: ids and identity counters are unbounded integers. The exception is the `int64`-to-`rune` conversion of the rate-limit key.
- Rate-limit keys and other strings are sequences of Unicode characters, not UTF-8 bytes.
- The `url` table's definition is not part of this model. The model assumes `click_count` starts at 0 and `code` carries no uniqueness constraint.
- `UrlModel.GetUrlsByUser` returns an empty sequence where the source returns a nil slice, which is written as JSON `null`.
