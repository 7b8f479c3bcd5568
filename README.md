# DbCredentials credential core, modelled in Dafny

This project models the credential core of the DbCredentials ASP.NET service:

- the user table with its repository operations: transactional creation in two saves, the
  exact-email and id lookups, password verification and password reset;
- the in-memory one-time-code (OTP) registry that `SendOtp` fills and `VerifyOtp` consumes;
- the decision logic of the `Signup` and `Login` endpoints.

The model is sequential. The clock, the random code, the password hasher, the token service,
the mail transport and database faults are inputs.

Files:

- `wrappers.dfy`: `Option`, which stands for a null reference.
- `models.dfy`: the shapes of the `User` row, the request DTOs and the responses. Time is an
  `Instant` in 100 ns ticks, as `DateTime` counts it.
- `hashing.dfy`: the injected `IPasswordHasher<User>`, as two given functions. `Sound` and
  `Exact` are what callers rely on it for. They are hypotheses of the lemmas that need them,
  not axioms.
- `decimal.dfy`: `int.ToString()` for non-negative numbers. It proves that the printed text
  parses back to the number, so distinct numbers print differently, and it proves digit-count
  bounds.
- `user_repository.dfy`: the class `UserRepository`.
  - `table` is the rows in storage order.
  - `nextId` is the identity sequence behind the `Id` primary key.
  - A transaction is a snapshot of `table`, restored on rollback.
  - The column widths of the table (50/255/20 characters) and the 32-bit `Id` are enforced
    when a row is saved. As PostgreSQL does for `varchar(n)`, a value that is too long only
    because of trailing spaces is cut to the width; any other over-long value fails the save.
  - The `timestamp with time zone` columns keep whole microseconds, so a stored instant
    loses its sub-microsecond ticks.
- `otp_registry.dfy`: the rules `Issue`, `Check` and `AfterVerify` over the registry map, and
  lemmas about sequences of calls. `OtpStore` is the process-wide registry: one object shared
  by reference, as the static dictionary is.
- `app_controller.dfy`: the class `UsersController` and lemmas about `Login`. It also has two
  client methods (`AccountWalkthrough`, `OtpWalkthrough`). They show what a caller can prove
  from the contracts alone: a duplicate signup is refused, a wrong password gets no token, and
  a code verifies once and then is not found.

The model follows the code where it departs from what a reader of the API would expect:

- An expired OTP entry is kept, not removed. Only a successful verification removes an entry.
- A signup without a date of birth fails, because `CreateUserAsync` reads `dob.Value`. The DTO
  declares the date optional.
- Emails are compared exactly, not case-insensitively.
- `IsDeleted` is ignored by every lookup.
- Email uniqueness is not enforced by the store: there is no unique index on the column. It
  comes only from the `Signup` pre-check, and that check reads a failed query as "no such
  email". Once two rows share an email, `GetByEmailAsync` returns null for it, so every login
  for that email fails (`DuplicateEmailBlocksLogin`).
- The identity sequence is not rolled back with the transaction. A rolled-back insert still
  uses up an id.

## Model

| member | source | states |
|---|---|---|
| Repository.UserRepository.CreateUser | DbCredentials/Repository/Repositories/UserRepository.cs:23-66 | Commits exactly when the date of birth is present, the row fits its columns (after trailing-space truncation), an id is left and no round trip throws. Then the table gains exactly one row (`CreatedRow`) at the end, and nothing else changes. Otherwise the table is exactly as before. A failure to begin the transaction, or a rollback that itself throws, escapes the method; every other failure answers Failure with the error prefix. A rolled-back insert still uses up an id. Email uniqueness is not a condition. |
| Repository.RolledBack | DbCredentials/Repository/Repositories/UserRepository.cs:57-65 | The catch block escapes exactly when the rollback throws; otherwise it answers Failure with the given message. |
| Repository.VarChar | DbCredentials/Data/AppDbContext.cs:43-62 | A value within the width is stored as is. A longer value whose excess is all spaces is stored as its first n characters. A value that cannot be stored is over the width with a non-space character past it. |
| Repository.StoredInstant | DbCredentials/Data/AppDbContext.cs:35-41 | A stored instant is a whole number of microseconds from 2000-01-01, less than a microsecond from the instant sent, on the epoch's side of it. An instant already on a microsecond is stored unchanged. |
| Repository.StoredRow | DbCredentials/Data/AppDbContext.cs:32-66 | A row is stored exactly when every text column accepts its value, and a row that fits its columns always is. Each text column holds its `VarChar` value and each time column its `StoredInstant`; id, password and the deleted flag are kept. A stored row fits its columns and lies on microseconds, and a row that already does is stored unchanged. |
| Repository.PaddedEmailCollides | DbCredentials/Data/AppDbContext.cs:43 | In a table whose emails all fit their column, a 255-character email with one trailing space is held by no row, so the exact-match pre-check lets it through, yet it is stored as the existing email, so the table loses email uniqueness. |
| Repository.CreatedRowFields | DbCredentials/Repository/Repositories/UserRepository.cs:28-47 | The committed row carries the signup data as its columns store it (text cut by `VarChar`, the date of birth and the creation instant rounded by `StoredInstant`), the supplied password's hash in `Password`, `IsDeleted` false and no update date or updater. Its `CreatedBy` is its own id as decimal text, which parses back to the id. |
| Repository.CreatedRowFits | DbCredentials/Repository/Repositories/UserRepository.cs:46-47 | The row after the second save always fits its columns: a 32-bit id's decimal text is at most ten characters. |
| Repository.UserRepository.GetByEmail | DbCredentials/Repository/Repositories/UserRepository.cs:69-79 | Returns a row exactly when the query succeeds and exactly one row has that email, and then it is that row. No match, several matches or a failed query all give null. |
| Repository.UserRepository.GetById | DbCredentials/Repository/Repositories/UserRepository.cs:82-92 | Returns a row exactly when the query succeeds and some row has that id, and the row returned has that id. |
| Repository.UserRepository.CheckEmailExists | DbCredentials/Repository/Repositories/UserRepository.cs:95-105 | True exactly when the query succeeds and some row, deleted or not, has exactly that email. |
| Repository.UserRepository.VerifyPassword | DbCredentials/Repository/Repositories/UserRepository.cs:108-119 | Accepts only when the hasher returns a result, and then exactly when that result is Success or SuccessRehashNeeded. A hasher that throws means rejection. |
| Repository.VerifyPasswordAcceptsOwnHash | DbCredentials/Repository/Repositories/UserRepository.cs:112-113 | With a sound hasher, a stored hash accepts the password it was made from, whatever the salt. |
| Repository.UserRepository.UpdatePassword | DbCredentials/Repository/Repositories/UserRepository.cs:122-160 | A failure to begin the transaction escapes. No row with the email: Failure naming the email, and no change. A failed query, save or commit: the table is restored, and the response is Failure with the error prefix, or the exception escapes when the rollback throws. Otherwise only the `Password` of the first row with that email changes, to the new hash. Every other field and row is unchanged. |
| Repository.FirstWithEmail | DbCredentials/Repository/Repositories/UserRepository.cs:128-129 | The row `FirstOrDefault` picks has the email, and no earlier row has it (storage order; see Left out). |
| Repository.FirstWithEmailOfUnique | DbCredentials/Repository/Repositories/UserRepository.cs:128-129 | When exactly one row has the email, the row picked is that row, whatever order the query uses. |
| Repository.MatchingRows | DbCredentials/Repository/Repositories/UserRepository.cs:99 | Lists, in increasing order, the positions of exactly the rows whose email equals the one given. |
| Repository.RowWithId | DbCredentials/Repository/Repositories/UserRepository.cs:86 | The row found has the id and is in the table. If none is found, no row has the id. |
| Decimal.DecimalString | DbCredentials/Controllers/AppController.cs:164 | The decimal text of a number is non-empty, all digits, and has no leading zero unless it is "0". |
| Decimal.ParseDecimalString | DbCredentials/Controllers/AppController.cs:164 | Reading the decimal text of a number gives the number back. |
| Decimal.DecimalStringInjective | DbCredentials/Controllers/AppController.cs:164 | Distinct numbers have distinct decimal texts. |
| Decimal.DecimalStringLength | DbCredentials/Controllers/AppController.cs:164 | A number from 10^(k-1) up to, but not including, 10^k prints as exactly k digits. |
| Decimal.DecimalStringAtMost | DbCredentials/Repository/Repositories/UserRepository.cs:46 | A number below 10^k prints in at most k characters, so a 32-bit id always fits the 255-character `CreatedBy` column. |
| OtpRegistry.CodeText | DbCredentials/Controllers/AppController.cs:163-164 | A code drawn from [100000, 999999) is stored as exactly six decimal digits that read back as the drawn number. |
| OtpRegistry.Issue | DbCredentials/Controllers/AppController.cs:165 | The email's entry becomes the new code, expiring one minute after now. It replaces any earlier entry. Every other email keeps its entry. |
| OtpRegistry.Check | DbCredentials/Controllers/AppController.cs:208-246 | NotFound exactly when the email has no entry. Expired only for an entry whose expiry is before now. Mismatch only for an unexpired entry whose code differs. |
| OtpRegistry.AfterVerify | DbCredentials/Controllers/AppController.cs:220-224 | A Verified outcome removes the email's entry. Every other outcome keeps it if it was there and never adds it. No other email's entry is added, removed or changed. |
| OtpRegistry.VerifiedIff | DbCredentials/Controllers/AppController.cs:208-229 | Verification succeeds exactly when there is an entry, now is not past its expiry, and the code matches. |
| OtpRegistry.NoEntryNotFound | DbCredentials/Controllers/AppController.cs:241-246 | With no entry the outcome is NotFound and the registry is unchanged. |
| OtpRegistry.ExpiredEvenIfMatching | DbCredentials/Controllers/AppController.cs:210-218 | After expiry every code, the stored one included, gives Expired, and the registry is unchanged. |
| OtpRegistry.ExpiryIsFinal | DbCredentials/Controllers/AppController.cs:210 | Once Expired, an entry gives Expired at every later time, for every code. |
| OtpRegistry.MismatchAllowsRetry | DbCredentials/Controllers/AppController.cs:230-238 | A wrong code before expiry gives Mismatch and keeps the entry, and the right code still verifies up to the expiry instant. |
| OtpRegistry.IssuedCodeVerifiesWithinLifetime | DbCredentials/Controllers/AppController.cs:165 | A freshly issued code verifies up to and including issue time plus one minute, and never after. The comparison is strict `>`. |
| OtpRegistry.SingleUse | DbCredentials/Controllers/AppController.cs:220-229 | After a successful verification, any further verification for that email gives NotFound, with any code at any time. |
| OtpRegistry.ReissueSupersedes | DbCredentials/Controllers/AppController.cs:163-165 | After a second issue with a different drawn number, the first code no longer verifies. |
| OtpRegistry.VerifyIsolated | DbCredentials/Controllers/AppController.cs:223 | A verification never adds, removes or changes another email's entry. |
| OtpRegistry.OtpStore.constructor | DbCredentials/Controllers/AppController.cs:145-146 | The registry starts empty. |
| Controllers.VerifyResponse | DbCredentials/Controllers/AppController.cs:208-246 | The response is Success exactly for the Verified outcome. |
| Controllers.VerifyResponsesDistinct | DbCredentials/Controllers/AppController.cs:208-246 | Distinct outcomes get distinct messages. |
| Controllers.UsersController.Signup | DbCredentials/Controllers/AppController.cs:25-61 | An email that exists is refused with the duplicate message, without calling create and without changing the table. Otherwise the result is `CreateUser`'s; when `CreateUser` lets an exception escape, the answer is Failure with "Unexpected error in Signup: ". When the lookup does not fail, an email already in the table always fails, and unique emails stay unique for an email that fits its column. |
| Controllers.UsersController.Login | DbCredentials/Controllers/AppController.cs:63-115 | A token is present exactly on Success. Unknown email: "Email does not exist" and no token. Wrong password: "Password Incorrect" and no token. A token service that throws: "Unexpected error in Login: " and no token. Otherwise: the user's token and "Logged In". |
| Controllers.UsersController.SendOtp | DbCredentials/Controllers/AppController.cs:148-200 | For an email not in the table: Failure, and the registry is unchanged. Otherwise the registry becomes `Issue` of the six-digit code, before the mail is sent. A failed mail gives Failure, but the code stays stored. |
| Controllers.UsersController.VerifyOtp | DbCredentials/Controllers/AppController.cs:202-257 | The response and the new registry are those of `Check` and `AfterVerify` on the registry before the call. |
| Controllers.LoginWithOwnPassword | DbCredentials/Controllers/AppController.cs:71-114 | With a sound hasher, logging in to an email held by exactly one row, with the password its hash came from, succeeds and returns that user's token; if the token service throws, the answer is "Unexpected error in Login: " with no token. |
| Controllers.LoginWithOtherPassword | DbCredentials/Controllers/AppController.cs:84-94 | With an exact hasher, any other password is refused as "Password Incorrect", with no token. |
| Controllers.DuplicateEmailBlocksLogin | DbCredentials/Controllers/AppController.cs:71-82 | When two rows share an email, every login for it is answered "Email does not exist", whatever the password. |

## Left out

- SMTP message construction and sending (AppController.cs:167-182): network I/O. Delivery is the input `mailSent`. The exception text it may raise is not modelled.
- `Random` and `DateTime.UtcNow`: the drawn code and the current instant are inputs. The code carries the precondition that it lies in the range `Next(100000, 999999)` draws from.
- `PasswordHasher<User>` internals: the hasher is a pair of given functions. That it accepts its own hashes (`Sound`) and rejects other passwords (`Exact`) are hypotheses of the lemmas that use them. Salting, slowness and constant-time comparison are not modelled.
- `TokenService` is not part of this model. Its token is a given function of the user, and whether it throws is the input `tokenThrows`. Its expiry value is not modelled.
- `ConcurrentDictionary` thread safety, async/await and concurrent requests: the model is sequential. Two simultaneous signups racing past the existence check are therefore not modelled.
- Database faults other than column widths and the identity limit are the inputs `queryThrows`, `Outage` and `rollbackThrows`. `Outage` names the round trip that throws, including `BeginTransactionAsync`, which lies outside the `try`. Lookups take a single flag because each makes one round trip.
- Repository.FirstWithEmail: the query has no `OrderBy`, so the database may return any matching row. The model takes the first in storage order. With a unique email the choice does not matter (`FirstWithEmailOfUnique`).
- Controllers.UsersController.Signup: uniqueness of emails is promised only for an email of at most 255 characters. A longer email padded with spaces is truncated on save and can duplicate a stored one (`PaddedEmailCollides`).
- The text of exception messages: each failure message is its fixed prefix only.
- `ModelState` validation in `Login` (AppController.cs:69) and the DTO validation attributes: enforced by the framework before the controller's logic.
- Logging calls, `Program.cs` wiring and the file logger: no behaviour of the core.
- Of the `AppDbContext` mapping, the model keeps the column widths, the microsecond time columns and the key. It leaves out the column names, the `CURRENT_TIMESTAMP` and `false` defaults, which yield the values the model stores anyway (`CreateUserAsync` sets the creation date, and leaves `IsDeleted` false), and the infinity values that extreme `DateTime`s may map to.
- The `GetById` and `SetPassword` endpoints (AppController.cs:117-144, 258-284): they only wrap `GetByIdAsync` and `UpdatePasswordAsync`. Those are modelled, and the endpoints add nothing beyond the response text.
- EF's change tracker: `Find` consulting tracked entities first, and the tracked `User` object outliving a rollback. The model has only the committed table.
