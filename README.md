# Campus device loans: the loan ledger, its auth helper and the page's helpers

This project models, in Dafny, the core of a campus device-lending demo and proves
properties of that model.

- **The loans service's ledger** (`code/loans-service/src/functions/loans.js`). It keeps an
  in-memory list of loan records and a per-device reservation lock map. Four HTTP
  handlers work on them: list loans, reserve a device, mark a loan collected and mark it
  returned. The ledger is the class `Loans.Ledger`. Its field `loans` is the module-level
  array and its field `reservationLocks` holds the keys of the lock map. Its methods
  perform the handlers' steps in place: check, take the lock, look up, push or update
  fields, release the lock. Each method is proved equal to a function of the state
  before the call (`ReserveResult`, `CollectResult`, `ReturnResult`). That function gives
  the JSON response and the resulting list of loans. The lemmas about these functions
  state what the handlers promise:
  - the error paths, in the order the code checks them;
  - the exact record a successful reservation appends;
  - that the lock set is the same after every call;
  - that the ledger invariant holds: at most one unreturned loan per device, sequential
    loan ids, and time stamps that agree with the status;
  - that a record only ever moves forward through its lifecycle.
- **The date helpers** `isoDateOnly` and `addDays` (module `Calendar`). The clock is
  given as a calendar date (year, month, day). `addDays` is proved against an
  independent day count. `isoDateOnly` is proved to read back as the same date.
- **The text built-ins** the code relies on (module `JsText`): `trim`, `padStart`,
  `startsWith`, and `String(n)` for integers.
- **The auth helper's decision logic** (`code/loans-service/src/shared/auth.js`, module
  `Auth`): reading the bearer token out of the authorization header, `hasRole` over a
  list, string or other claim, and how `requireAuth` and `requireRole` turn the outcome
  of token verification into 401, 403 or 500. JWT verification itself is a parameter:
  a function from the token text to "decoded", "rejected" or "threw".
- **The page's pure helpers** (`code/frontend/app.js`, module `Frontend`): `escapeHtml`,
  `serviceBase` and `api`, the `canCollect` and `canReturn` predicates, and the reserve
  form's blank-input check. These are checked against the ledger: the buttons are
  enabled exactly when the server would accept the transition, and a request the form
  sends never fails the server's blank-field check.

Where the code and the design description of the system differ, the model follows the
code:

- The handlers are not gated by role. `requireAuth` takes no arguments and returns a
  closure. So `await requireAuth(request, [...])` in each handler evaluates to that
  closure, which is never called, and nothing is checked. The `Ledger` methods therefore
  take no credentials.
- A loan that was never collected can be returned directly; its `collectedAt` stays
  null. `StampsMatchStatus` states exactly this: a returned record has `returnedAt` set,
  whatever `collectedAt` holds.
- The seeded record `loan-001` is due seven days after its start date, not two. The
  invariant therefore does not claim `dueDate = startDate + 2` for every record. That
  relation is proved only for the records `Reserve` appends (`ReserveSucceedsIffFree`).

The lock is taken and released with no `await` in between. Sequential calls therefore
always start and end with the lock set as it was, and the constructor starts it empty.
In this model the "reservation in progress" 409 is reachable only from a lock set that
already holds the device. `ReserveResult` takes the lock set as an input so that this
branch is stated and proved (`ReserveRejectsLockedDevice`).

Files: `wrappers.dfy` (Option), `jstext.dfy`, `calendar.dfy`, `loans.dfy`, `auth.dfy`,
`frontend.dfy`.

## Model

| member | source | states |
|---|---|---|
| JsText.Trim | code/loans-service/src/functions/loans.js:79-80 | trim keeps one contiguous infix and drops only whitespace and line terminators around it; the result is empty exactly when the input is all such characters, and otherwise neither starts nor ends with one |
| JsText.TrimIdempotent | code/frontend/app.js:188-189 | trimming an already trimmed string changes nothing |
| JsText.PadStart | code/loans-service/src/functions/loans.js:106 | padStart keeps the string as the suffix, fills only in front with the fill character, and the length is the larger of the width and the original length |
| JsText.DecimalString | code/loans-service/src/functions/loans.js:106 | String(n) of a natural number is a non-empty digit string with no leading zero unless n is 0 |
| JsText.PaddedDecimalRoundTrip | code/loans-service/src/functions/loans.js:25-26 | the zero-padded decimal form of n reads back as n, whatever the width |
| JsText.DecimalStringLength | code/loans-service/src/functions/loans.js:23-27 | String(n) has 1, 2, 3 or 4 digits for n below 10, 100, 1000 and 10000 |
| JsText.IntString | code/loans-service/src/functions/loans.js:24 | String(y) of a year is never empty, and it starts with "-" exactly when the year is negative |
| JsText.IntStringRoundTrip | code/loans-service/src/functions/loans.js:27 | the year written by String(y) reads back as y, negative years included |
| Calendar.NextDay | code/loans-service/src/functions/loans.js:30-34 | moving one day on gives a valid date whose day count is one more, carrying into the next month and the next year |
| Calendar.AddDays | code/loans-service/src/functions/loans.js:30-34 | addDays(d, n) is a valid date exactly n days after d in the day count |
| Calendar.DayNumberInjective | code/loans-service/src/functions/loans.js:30-34 | two valid dates with the same day count are the same date |
| Calendar.AddDaysCharacterized | code/loans-service/src/functions/loans.js:30-34 | addDays(d, n) is e if and only if e lies n days after d |
| Calendar.AddTwoDays | code/loans-service/src/functions/loans.js:104 | the due date is two single-day steps after the start date |
| Calendar.DueDateExamples | code/loans-service/src/functions/loans.js:104 | 2025-12-31 is due 2026-01-02, 2024-02-28 is due 2024-03-01 in a leap year, and 2023-02-28 is due 2023-03-02 |
| Calendar.TwoDigitsShape | code/loans-service/src/functions/loans.js:25-26 | a month or day below 100 is written with exactly two digits and reads back as the same number |
| Calendar.IsoDateOnlyRoundTrip | code/loans-service/src/functions/loans.js:23-28 | isoDateOnly loses nothing: the text reads back as the same year, month and day |
| Calendar.IsoDateOnlyShape | code/loans-service/src/functions/loans.js:23-28 | for four-digit years the text is exactly YYYY-MM-DD: ten characters, dashes at positions 4 and 7, digits everywhere else |
| Calendar.IsoDateExample | code/loans-service/src/functions/loans.js:12 | 7 January 2026 is written "2026-01-07", the seeded loan's start date |
| Loans.LoanIdRoundTrip | code/loans-service/src/functions/loans.js:106 | the number in a loan id reads back from "loan-" and its zero-padded digits |
| Loans.LoanIdInjective | code/loans-service/src/functions/loans.js:106 | two positions get the same loan id if and only if they are the same position |
| Loans.FindLoan | code/loans-service/src/functions/loans.js:140 | find by id returns the first record with that id, or none when no record has it |
| Loans.FindOpenLoan | code/loans-service/src/functions/loans.js:93-97 | find returns the first record for the device that is reserved, active or collected, or none when there is no such record |
| Loans.ReserveRejectsBadBody | code/loans-service/src/functions/loans.js:72-84 | a body that is not JSON gets 400 "Invalid JSON body"; an id that is empty after trimming gets 400 "deviceId and studentId are required"; the ledger is unchanged in both cases |
| Loans.ReserveRejectsLockedDevice | code/loans-service/src/functions/loans.js:87-89 | a device whose reservation is in progress gets 409 "Reservation in progress" and the ledger is unchanged |
| Loans.ReserveRejectsOpenDevice | code/loans-service/src/functions/loans.js:93-100 | a device with an open loan gets 409 "Device already reserved/loaned" with the first such loan as existingLoan, and nothing is added |
| Loans.ReserveSucceedsIffFree | code/loans-service/src/functions/loans.js:102-120 | 201 if and only if the body is valid, the trimmed ids are non-empty, the device is not locked and has no open loan. A failure leaves the ledger unchanged. A success appends exactly one record: "reserved", null stamps, id FormatLoanId(old length + 1), the trimmed ids, today's date as the start and the date two calendar days later as the due date. Earlier records are untouched |
| Loans.UnknownLoanNotFound | code/loans-service/src/functions/loans.js:140-142 | collect and return of an id no record has both get 404 "Loan not found" and change nothing |
| Loans.CollectCases | code/loans-service/src/functions/loans.js:140-154 | collect checks "returned" (409), then "collected" (409); otherwise only that record changes, to "collected" with collectedAt stamped, and it is sent back with 200 |
| Loans.ReturnCases | code/loans-service/src/functions/loans.js:171-182 | return of a returned record gets 409 "already returned"; otherwise only that record changes, to "returned" with returnedAt stamped, and it is sent back with 200 and event "device_returned" |
| Loans.FirstLoanId | code/loans-service/src/functions/loans.js:9 | the first id the format produces is "loan-001", the seeded record's id |
| Loans.SecondLoanId | code/loans-service/src/functions/loans.js:106 | the second id is "loan-002" |
| Loans.SequentialIdAt | code/loans-service/src/functions/loans.js:106 | in a ledger with sequential ids, the record at position k carries FormatLoanId(k + 1) |
| Loans.SequentialIdsAppend | code/loans-service/src/functions/loans.js:106-119 | pushing the record with the next id keeps the ids sequential |
| Loans.SequentialIdsUpdate | code/loans-service/src/functions/loans.js:151-152 | changing a record's status and stamps in place keeps the ids sequential |
| Loans.SeedSatisfiesInvariant | code/loans-service/src/functions/loans.js:7-18 | the seeded ledger satisfies the ledger invariant |
| Loans.FindLoanByPosition | code/loans-service/src/functions/loans.js:106 | under sequential ids, looking up a record's id finds that record's own position |
| Loans.ReservePreservesInvariant | code/loans-service/src/functions/loans.js:93-119 | reserve keeps at most one open loan per device, sequential ids and stamps matching the status |
| Loans.CollectPreservesInvariant | code/loans-service/src/functions/loans.js:144-152 | collect keeps the ledger invariant |
| Loans.ReturnPreservesInvariant | code/loans-service/src/functions/loans.js:175-180 | return keeps the ledger invariant |
| Loans.ReserveEvolves | code/loans-service/src/functions/loans.js:119 | reserve only appends: the list never gets shorter, its old prefix is exactly the old list, so every earlier record is unchanged, and it is an evolution of the old ledger |
| Loans.CollectEvolves | code/loans-service/src/functions/loans.js:144-152 | collect never moves a status back, never changes a returned record, and never changes an id, a device, a student, a date or a stamp already set |
| Loans.ReturnEvolves | code/loans-service/src/functions/loans.js:175-180 | return never moves a status back, never changes a returned record, and never changes an id, a device, a student, a date or a stamp already set |
| Loans.SecondReservationConflicts | code/loans-service/src/functions/loans.js:93-100 | after a successful reservation, any later reservation of the same device gets 409 with the new loan attached, and the ledger stays as it was |
| Loans.CollectThenReturn | code/loans-service/src/functions/loans.js:140-182 | a reserved record is collected (200, stamped), then returned (200, stamped, event "device_returned", collectedAt kept), and after that both transitions get 409 "already returned" |
| Loans.ReserveCollectReturn | code/loans-service/src/functions/loans.js:102-182 | a fresh reservation goes reserved, collected, returned, and then stays returned |
| Loans.SeedDeviceIsTaken | code/loans-service/src/functions/loans.js:93-100 | on the seeded ledger, reserving lap-001 gets 409 with loan-001 attached |
| Loans.FirstReservationIsLoan002 | code/loans-service/src/functions/loans.js:106 | on the seeded ledger, the first reservation of any other device gets 201 and becomes loan-002 |
| Loans.Ledger.constructor | code/loans-service/src/functions/loans.js:7-21 | the ledger starts with the seeded record and no locks, and satisfies the invariant |
| Loans.Ledger.ListLoans | code/loans-service/src/functions/loans.js:53-60 | GET /loans answers 200 with the current records and changes nothing |
| Loans.Ledger.Reserve | code/loans-service/src/functions/loans.js:68-127 | the in-place handler gives exactly the response and ledger of ReserveResult; the lock set is as before on every exit, and a ledger that satisfied the invariant still does |
| Loans.Ledger.Collect | code/loans-service/src/functions/loans.js:135-159 | the in-place field updates give exactly the response and ledger of CollectResult; the lock set is untouched, and a ledger that satisfied the invariant still does |
| Loans.Ledger.Return | code/loans-service/src/functions/loans.js:165-187 | the in-place field updates give exactly the response and ledger of ReturnResult; the lock set is untouched, and a ledger that satisfied the invariant still does |
| Auth.HasRoleByShape | code/loans-service/src/shared/auth.js:52-57 | a list claim holds the role exactly when it contains it, a string claim exactly when it equals it, and a missing or other claim never does |
| Auth.HasRoleIffInRoles | code/loans-service/src/shared/auth.js:52-57 | hasRole is membership in the set of roles the claim names, whatever its shape |
| Auth.BearerToken | code/loans-service/src/shared/auth.js:28-33 | a token is extracted exactly when the header is present and starts with the case-sensitive "Bearer "; it is the rest of the header, trimmed |
| Auth.MissingBearerSkipsVerification | code/loans-service/src/shared/auth.js:28-31 | without a bearer header the result is 401 "Missing bearer token", whatever the verifier would say |
| Auth.VerifiedTokenIsTrimmedRemainder | code/loans-service/src/shared/auth.js:33-48 | only the trimmed remainder after the 7-character prefix is verified; decoded gives ok with those claims, a verification error gives 401 "Invalid token", and a throw gives 500 "Auth misconfigured" |
| Auth.RequireAuthStatuses | code/loans-service/src/shared/auth.js:59-69 | requireAuth fails only with 401 or 500 |
| Auth.RequireRoleComposition | code/loans-service/src/shared/auth.js:71-80 | requireRole passes an authentication failure through unchanged, gives 403 "Forbidden" without the role, and otherwise succeeds with the same claims; it succeeds if and only if authentication succeeded and the role is among the claim's roles |
| Frontend.EscapeHtmlConcat | code/frontend/app.js:86-93 | escaping a concatenation is concatenating the escaped parts |
| Frontend.EscapeHtmlChar | code/frontend/app.js:87-92 | each of & < > " ' becomes its own entity and any other character stays as it is: no entity produced earlier is escaped again |
| Frontend.EscapeHtmlPerChar | code/frontend/app.js:86-93 | the chained replacements map each input character to exactly one output chunk, left to right |
| Frontend.EscapeHtmlSafe | code/frontend/app.js:86-93 | the escaped text contains none of < > " ' |
| Frontend.EscapeHtmlKeepsPlainText | code/frontend/app.js:86-93 | text without & < > " ' is left exactly as it is |
| Frontend.EscapeHtmlRoundTrip | code/frontend/app.js:86-93 | decoding the five entities gives back the original text |
| Frontend.ServiceBase | code/frontend/app.js:60-64 | serviceBase removes one trailing "/" if there is one and changes nothing else |
| Frontend.ApiJoinsBaseAndPath | code/frontend/app.js:66-68 | a request URL is the base URL without one trailing slash, followed by the path |
| Frontend.ButtonsMatchServer | code/frontend/app.js:101-102 | for every record of a valid ledger, Collect is enabled exactly when the server would answer 200 to collect, and Return exactly when it would answer 200 to return |
| Frontend.SubmitReserveForm | code/frontend/app.js:188-194 | the form sends a reservation exactly when both trimmed inputs are non-empty, and then sends the trimmed values; otherwise it shows "Please enter deviceId and studentId." |
| Frontend.FormNeverSendsBlankIds | code/frontend/app.js:188-194 | a reservation the form sends never gets the server's 400 for blank ids |

## Left out

- Signature verification, the JWKS client and the Auth0 configuration (auth.js lines 1-25
  and 36-48) are foreign library calls and network I/O. `jwt.verify` is the parameter
  `verify`, and the audience, issuer and algorithm options are left in it.
- The ROLE_CLAIM environment variable (auth.js line 6) is configuration. It appears as
  the parameter `roleClaim` of `HasRole` and `RequireRole`.
- JWT payloads that are strings rather than objects are not modelled. `Claims` is always
  a map, so `decoded?.[ROLE_CLAIM]` on a string payload is not covered.
- The Azure Functions registration, `request.json()` and the header plumbing are
  framework glue. The parsed body is a `ReservationRequest` of two strings, and invalid
  JSON is `None`.
- `String(payload?.deviceId || "")` is not modelled for non-string fields such as
  numbers or objects, nor for a `null` body. The caller passes the already coerced
  strings; a missing field is the empty string.
- The clock (`new Date()`, loans.js:102) is the `now` parameter. The `toISOString()`
  stamps (loans.js lines 152 and 180) are the opaque string `at`. Local time zones,
  daylight saving and the Date object's range limit (which would give an Invalid Date)
  are not modelled.
- The outer `catch` that turns a thrown error into `err.status || 500`, at loans.js
  lines 57-58, 124-125, 155-156 and 183-184, is not modelled. None of the modelled steps
  throw, so that path is unreachable in the model.
- Role gating in the handlers is absent, because the code performs none (see above).
  `RequireRole` is modelled on its own, as auth.js defines it.
- Concurrency and interleaving between requests are not modelled. The lock guards only
  synchronous code, so sequential calls are what the source can produce.
- Loans.Ledger: loan records are values in a `seq`, so the object aliasing through which
  a 409 body's `existingLoan` or the 200 body's `loan` would show later mutations is not
  captured. The response carries the record as it was when the response was made.
- The extra headers argument of `respond` is never used by the handlers and is left
  out. `Respond` always sets the JSON content type.
- DOM rendering, `fetchJson`, event wiring and `alert` in app.js are UI and network
  code. `escapeHtml`'s `String(s)` coercion of non-strings is not modelled.
