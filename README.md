# Loan challenge service: a Dafny model

This project models the core of a small loan-access HTTP service written in
Python with FastAPI and SQLAlchemy. The service keeps administrator accounts
and loan records. It authenticates administrators with bearer tokens. It
throttles its public loan-check endpoint with one process-wide limiter. The
model covers four parts:

- **Rate limiter** (`rate_limit.dfy`, module `RateLimit`). A class
  `RateLimiter` holds the bounded deque of recent call times as a sequence.
  It also holds a ghost history of every admitted call. `Call(now)` refuses a
  call when the deque is full and fewer than `seconds` whole seconds have
  passed since its oldest entry. Otherwise it appends `now`, evicting the
  oldest entry when full. Time is an input in microseconds. The elapsed time
  is Python's `timedelta.seconds`, which leaves out whole days (`FromMicros`
  builds the normalised `timedelta`). The proved properties are: the capacity
  bound, "a refused call changes nothing", that the deque is exactly the
  newest `maxLen` admitted calls, the strict boundary, and the
  sliding-window-by-count invariant over the whole history while the clock
  does not go back.
- **Authentication** (`auth.dfy`, module `Auth`). These are pure functions:
  `GetUser`, `AuthenticateUser`, `AccessTokenClaims` (the payload
  `create_access_token` signs) and `CheckCredentials`. Password verification
  and token signing are function-valued parameters (`verify`, `encode`,
  `decode`). The lemmas cover the unique-username case and the issue-then-check
  round trip.
- **Field validators** (`rest_models.dfy`, module `RestModels`). These cover
  `DNI`, `FullName` and `SexEnum`, and the shapes of `Person` and the
  all-optional `LoanRecord`. Each validator returns `Ok(value)` or the
  `TypeError`/`ValueError` it would raise. `PyValue` stands for the run-time
  type of the input, so the `isinstance` checks can be modelled, including
  Python's `bool` counting as an `int`.
- **Database helpers** (`db_helpers.dfy`, module `DbHelpers`; row shapes in
  `db_models.dfy`). A class `Database` owns the two tables as sequences in
  storage order. It has one method per helper, and each method states the
  new tables and that the other table is unchanged. `Valid()` holds three
  invariants. Keys are positive and increase along each table. Usernames are
  unique, which holds because `AddNewAdmin` is insert-if-absent. A new row's
  key is one more than the largest key in its table, or 1 when the table is
  empty. That is the rule of the SQLite integer primary key the source's
  tables use.

`results.dfy` holds `Option`, `Result` and `Outcome`.

The model follows the code where it differs from the service's documented
design:

- listing an empty loan table gives `None`, not an empty list;
- the limiter measures elapsed time with `timedelta.seconds`, which drops whole
  days, rather than the full elapsed time;
- token expiry is checked inside the token library (here inside `decode`), not
  by the service's own code.

## Model

| member | source | states |
|---|---|---|
| `RestModels.ValidateSex` | rest/models.py:10-14 | exactly the strings "masculino" and "femenino" are accepted, each as the member whose value it is; anything else is an enumeration error |
| `RestModels.SexValueRoundTrip` | rest/models.py:10-14 | looking a member up by its value gives it back; the two values differ |
| `RestModels.ValidateDni` | rest/models.py:41-46 | a non-int (bool counts as int) is a TypeError; an int is accepted iff 10^6 < value < 10^8, else ValueError; on success the result equals the input |
| `RestModels.DniBoundsAreStrict` | rest/models.py:44-45 | both endpoints 10^6 and 10^8 are rejected with ValueError; 10^6+1 and 10^8-1 are accepted |
| `RestModels.ValidateDniIdempotent` | rest/models.py:46 | validating an accepted DNI again gives the same result |
| `RestModels.FirstForbidden` | rest/models.py:28 | the leftmost character outside `[a-zA-Z\s]` (Python's Unicode `\s`), or None exactly when there is none |
| `RestModels.ValidateFullName` | rest/models.py:25-30 | a non-string is a TypeError; a string is accepted iff every character is an ASCII letter or whitespace (the empty string too), else ValueError; on success the result equals the input |
| `RestModels.ValidateFullNameIdempotent` | rest/models.py:30 | validating an accepted name again gives the same result |
| `RestModels.FullNameExamples` | rest/models.py:28-29 | "" and "juan perez" are accepted, a name containing a digit is rejected |
| `RestModels.ValidateOptional` | rest/models.py:57-63 | an absent/null optional field is None without validation; a present one is accepted iff its validator accepts it, with the validator's value or error |
| `RestModels.ParsePerson` | rest/models.py:49-54 | a person is built iff dni, full_name and genre all validate, with the validated values; otherwise every failing field is reported with its validator's error, and every reported entry is a failing field with that field's error |
| `RestModels.ParseLoanRecord` | rest/models.py:57-63 | a loan record is built iff every present field validates; absent fields stay None, present dni, full_name and genre hold their validator's value, the other fields are copied; otherwise every present failing field is reported with its validator's error, and every reported entry is such a field |
| `RestModels.LoanRecordDefaultsToNone` | rest/models.py:57-63 | a body with no fields gives the record whose six fields are all None |
| `RestModels.LoanRecordValidatesLikePerson` | rest/models.py:49-63 | given a person's fields, the loan record accepts the same inputs as `Person`, with the same values, and reports the same errors |
| `DbHelpers.FirstAdminNamed` | db/helpers.py:99-101 | the first admin row with the username, or None exactly when no row has it |
| `DbHelpers.FirstAdminNamedUnique` | db/helpers.py:99-103 | when usernames are unique, the first row with a stored username is that row |
| `DbHelpers.IndexOfLoan` | db/helpers.py:80 | a position holding key `id_`, or None exactly when no row has that key |
| `DbHelpers.NextLoanId` | db/models.py:30 | a new loan row's key is positive and larger than every stored key |
| `DbHelpers.NextAdminId` | db/models.py:18 | a new admin row's key is positive and larger than every stored key |
| `DbHelpers.RecordToDict` | db/helpers.py:57-66 | a row's dictionary has exactly the seven keys id, dni, full_name, genre, email, loan_amount, status |
| `DbHelpers.RecordDictRoundTrip` | db/helpers.py:57-66 | the row can be read back from its dictionary: no column is lost |
| `DbHelpers.ApplyChange` | db/helpers.py:78-80 | a partial update keeps the row's key and writes every field the change set gives, the genre as its enumeration value |
| `DbHelpers.ApplyChangeFrame` | db/helpers.py:78-80 | a partial update keeps the key and every column whose new value is None; an all-None change leaves the row as it was |
| `DbHelpers.ApplyChangeCompose` | db/helpers.py:78-80 | two partial updates equal one with the merged change set; repeating an update changes nothing more |
| `DbHelpers.RemoveId` | db/helpers.py:91 | deleting by key never adds rows |
| `DbHelpers.RemoveIdMembers` | db/helpers.py:91 | the rows left after deleting a key are exactly the stored rows with another key |
| `DbHelpers.RemoveAbsentId` | db/helpers.py:91-93 | deleting a key no row has leaves the table unchanged |
| `DbHelpers.RemoveIdAt` | db/helpers.py:91 | with distinct keys, deleting a key removes exactly the row at its position and keeps the order of the rest |
| `DbHelpers.Database.AddLoanRecord` | db/helpers.py:29-46 | appends one row whose fields are the person's fields plus the given status, under a fresh key; the admin table is unchanged |
| `DbHelpers.Database.GetLoanRecords` | db/helpers.py:49-69 | None iff the table is empty; otherwise one seven-key dictionary per row, in storage order |
| `DbHelpers.Database.UpdateLoanRecord` | db/helpers.py:72-82 | only the row with key `id_` changes, and only in the fields that are not None; the result is true iff such a row exists; all other rows and the admin table are unchanged |
| `DbHelpers.Database.DeleteLoanRecord` | db/helpers.py:85-93 | the result is true iff a row with that key existed; afterwards no row has it, the other rows remain in order, and the admin table is unchanged |
| `DbHelpers.Database.AddNewAdmin` | db/helpers.py:96-111 | a taken username returns false and leaves the table unchanged; otherwise one row with the username and the hash is appended and true returned; uniqueness of usernames is preserved |
| `Auth.GetUser` | rest/helpers.py:27-36 | None iff no admin has the username; otherwise the first such admin, with its stored hash |
| `Auth.GetUserFindsStored` | rest/helpers.py:27-36 | when usernames are unique, looking up a stored admin's username returns that admin |
| `Auth.AuthenticateUser` | rest/helpers.py:39-49 | None when the username is absent or the password does not verify against the stored hash; otherwise the stored user |
| `Auth.AuthenticateUserIff` | rest/helpers.py:39-49 | when usernames are unique, a login succeeds iff some stored admin has the username and a hash the password verifies against |
| `Auth.AccessTokenClaims` | rest/helpers.py:52-59 | the payload has the keys of `data` plus `exp`; every other key keeps its value; `exp` is now + delta for a non-zero delta, and now + 15 minutes for an absent or zero delta |
| `Auth.CreatedTokenCarriesClaims` | rest/helpers.py:52-61 | a token `create_access_token` signs, read back by a library that round-trips, carries the keys of `data` plus `exp`, every other key unchanged, and `exp` at now + delta for a non-zero delta or now + 15 minutes otherwise |
| `Auth.CheckCredentials` | rest/helpers.py:64-82 | passes iff the token decodes, carries a string `sub`, and some stored admin has that username; every failure is the 401 "Could not validate credentials" error |
| `Auth.IssuedTokenChecks` | rest/helpers.py:52-82 | a token issued for a username, if the signing library accepts it back, passes the check iff an admin with that username is stored |
| `Auth.LoginGrantsAccess` | main.py:47-61 | after a successful login, the token issued for that username passes the credentials check |
| `Auth.SignUpThenLogIn` | db/helpers.py:96-111 | after `add_new_admin` stores a new username with a hash the password verifies against, logging in with that username and password returns the stored administrator |
| `RateLimit.FromMicros` | rest/helpers.py:100 | a difference of datetimes is normalised as Python's timedelta: 0 <= seconds < 86400, 0 <= microseconds < 10^6, same total duration |
| `RateLimit.FromMicrosUnique` | rest/helpers.py:100 | the normalised timedelta is unique: normalising a normalised value's duration gives it back |
| `RateLimit.SecondsWithinADay` | rest/helpers.py:100 | for a difference in [0, 1 day), `.seconds` is its whole number of seconds |
| `RateLimit.Appended` | rest/helpers.py:88-102 | appending to the bounded deque keeps at most `maxlen` entries, puts the new time last, and keeps the earlier entries in order, minus the oldest when full |
| `RateLimit.AppendedKeepsNewest` | rest/helpers.py:88-102 | the bounded deque fed with the admitted calls always holds exactly the newest `maxlen` of them |
| `RateLimit.SecondsOfDayRemainder` | rest/helpers.py:100 | the `seconds` of a difference are the whole seconds of the difference taken modulo a day |
| `RateLimit.Rejects` | rest/helpers.py:99-100 | the guard as written refuses only a full, non-empty deque, and refuses it iff the time since its oldest entry, taken modulo a day, is under the window |
| `RateLimit.BoundaryIsAdmitted` | rest/helpers.py:100 | the comparison is strict: a call exactly `seconds` whole seconds after the oldest entry is admitted; one a microsecond sooner is refused |
| `RateLimit.SpacedBoundsWindow` | rest/helpers.py:85 | in a paced history, calls `maxlen` or more places apart are at least `seconds` apart, so no stretch shorter than the window holds more than `maxlen` admitted calls |
| `RateLimit.AdmittedCallKeepsSpacing` | rest/helpers.py:99-102 | with a clock that does not go back, an admitted call keeps every `maxlen + 1` consecutive admitted calls at least `seconds` apart |
| `RateLimit.RejectsIntended` | rest/helpers.py:99-100 | the corrected guard refuses only a full, non-empty deque, and refuses it iff the whole elapsed `timedelta` is under the window |
| `RateLimit.GuardsAgreeWithinADay` | rest/helpers.py:100 | for an oldest entry less than a day old, the written guard and the full-elapsed-time guard decide alike |
| `RateLimit.DayWrapRefusesIdleCaller` | rest/helpers.py:100 | five calls at time 0 make the written guard refuse a call a day and five seconds later; the intended guard admits it |
| `RateLimit.IntendedCallKeepsSpacing` | rest/helpers.py:100 | with the full-elapsed-time guard, admitted calls stay paced whatever the clock does |
| `RateLimit.RateLimiter.constructor` | rest/helpers.py:86-88 | a new limiter has the given bound and window, holds no call times, and has admitted nothing |
| `RateLimit.RateLimiter.Call` | rest/helpers.py:96-103 | refuses iff the deque is full (and not empty) and the elapsed `.seconds` is below the limit; a refusal changes nothing; below capacity a call is always admitted; an admitted call appends its time, evicting exactly the oldest when full; the deque stays within capacity and paced while the clock does not go back |
| `RateLimit.RateLimiter.CallIntended` | rest/helpers.py:99-102 | the limiter with the full-elapsed-time guard: same effect on the deque, pacing kept unconditionally |
| `RateLimit.LoanCheckBurst` | rest/helpers.py:85-102 | with the endpoint's limits (5 calls, 30 seconds): five quick calls are admitted, a sixth just under 30 seconds after the first is refused, and a call exactly 30 seconds after it is admitted |

## Findings

| source | as written | input that shows it | evidently intended | confidence | as-written member | corrected member |
|---|---|---|---|---|---|---|
| rest/helpers.py:100 | `(current_time - deq[0]).seconds < seconds` reads only the seconds field of the difference, which leaves out whole days | five admitted calls at time t, then a call at t + 1 day + 5 s: `.seconds` is 5, so the call is refused although no call came in the last 30 seconds | compare the whole elapsed time with the window (`total_seconds()`) | high; not executed | `RateLimit.DayWrapRefusesIdleCaller` | `RateLimit.RateLimiter.CallIntended` |

`RateLimit.RateLimiter.Call` keeps the code's behaviour. The corrected guard
is `RejectsIntended`. `RateLimiter.CallIntended` uses it, and
`IntendedCallKeepsSpacing` proves the limit for it without any assumption on
the clock. `GuardsAgreeWithinADay` shows that the two guards differ only when
the oldest entry is a day or more old, or lies in the future.

## Left out

- The HTTP layer in main.py is not modelled: routing, status codes, the
  exception handler that turns a refusal into a 429, and the scoring-API
  call. In the loan-check endpoint the body is validated before the rate
  limiter runs, so an invalid body uses no slot. The limiter then runs before
  the scoring call.
- Password hashing and verification (the bcrypt context, `verify_password`)
  and JWT signing and decoding are not modelled: they are library calls that
  appear as parameters. The salted hash from the `AdminUser` constructor is
  the `hashed` input of `AddNewAdmin`.
- The SQL engine, sessions, commit and the rollback in `session_scope` are
  not modelled. Each helper works on an in-memory table, and a failed
  statement is not modelled.
- The contents of `email` (a library e-mail type) and `loan_amount` (a float)
  are not validated. They are a string and a real number, already parsed.
  Float rounding is not modelled.
- Pydantic's own checks are not modelled: missing or null required `Person`
  fields, and the full text of its error messages.
- Concurrency of the async wrapper is not modelled: each `Call` is one atomic
  step.
- Wall-clock reads (`datetime.now`, `datetime.utcnow`) are not modelled: the
  time is a parameter. A backwards clock is allowed. The pacing property of
  `Call` assumes the clock does not go back.
- `RateLimit.RateLimiter.Call`: the deque's bound and the decorator's `maxlen`
  argument are one parameter. In the source they are two values, and they are
  equal at the endpoint the limiter guards (main.py:104).
- `DbHelpers.Database.UpdateLoanRecord`: for a change set with every field
  None, only "the table is unchanged" is stated. The return value is left
  open because the SQL library decides it.
- `Auth.CheckCredentials`: a `sub` claim that is present but not a string
  fails the check. The token library's decoding already rejects such a
  claim with the error that rest/helpers.py:77-78 turns into the same 401,
  so this is the `decode` parameter's answer. The library's own checks are
  not modelled.
- `Auth.AccessTokenClaims`: `exp` is kept as a microsecond instant. The
  token library converts it to whole seconds at encoding, and that is not
  modelled.
- The database seeding script and everything else in `db/create_db.py` are
  not part of this model.
